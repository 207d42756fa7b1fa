/** `wdct.py`: word frequencies with a configurable tokeniser, an exclusion
    list, a minimum word length, removal of numbers, `collections.Counter`
    and the ranked report. */
module Wdct {
  import opened Text
  import opened Seqs
  import opened Ranking
  import Tokens

  // ----- split_words ---------------------------------------------------------

  /** The one-character patterns that `for char in split_char` replaces. */
  function Chars(s: string): (r: seq<string>)
  {
    seq(|s|, i requires 0 <= i < |s| => [s[i]])
  }

  /** Replace every occurrence of each pattern in turn by a space. */
  function ReplaceEach(s: string, pats: seq<string>): (r: string)
    decreases |pats|
  {
    if pats == [] then s
    else Replace(ReplaceEach(s, pats[..|pats| - 1]), pats[|pats| - 1], " ")
  }

  /** The text that `split()` finally sees. */
  function Normalize(contents: string, splitChar: string, splitChars: seq<string>): (r: string)
  {
    ReplaceEach(ReplaceEach(LowerStr(contents), Chars(splitChar)), splitChars)
  }

  /** No upper-case letter, and no character of `cs` other than whitespace. */
  predicate Clean(s: string, cs: string)
  {
    forall c :: c in s ==> !IsUpper(c) && (c in cs ==> IsSpace(c))
  }

  /** A token of `split_words`: non-empty, no whitespace, no upper case, and no
      character of `splitChar`. */
  predicate IsToken(w: string, splitChar: string)
  {
    IsWord(w) && IsLowerCased(w) && forall c :: c in splitChar ==> c !in w
  }

  lemma CleanTokens(s: string, cs: string)
    requires Clean(s, cs)
    ensures forall i :: 0 <= i < |Split(s)| ==> IsToken(Split(s)[i], cs)
  {
    var ws := Split(s);
    forall i | 0 <= i < |ws| ensures IsToken(ws[i], cs) {
      forall j | 0 <= j < |ws[i]| ensures !IsUpper(ws[i][j]) && ws[i][j] !in cs {
        WordLenNoSpace(ws[i], j);
        SplitChars(s, i, ws[i][j]);
      }
    }
  }

  /** `split_words(contents, split_char, split_chars)`: lower-case the text,
      replace each character of `split_char` and then each string of
      `split_chars` by a space, and split on whitespace. */
  method SplitWords(contents: string, splitChar: string, splitChars: seq<string>)
    returns (words: seq<string>)
    ensures words == Split(Normalize(contents, splitChar, splitChars))
    ensures forall i :: 0 <= i < |words| ==> IsToken(words[i], splitChar)
  {
    var text := LowerStr(contents);
    for i := 0 to |splitChar|
      invariant text == ReplaceEach(LowerStr(contents), Chars(splitChar)[..i])
      invariant Clean(text, splitChar[..i])
    {
      var before := text;
      text := Replace(text, [splitChar[i]], " ");
      assert Chars(splitChar)[..i + 1][..i] == Chars(splitChar)[..i];
      assert splitChar[..i + 1] == splitChar[..i] + [splitChar[i]];
    }
    assert Chars(splitChar)[..|splitChar|] == Chars(splitChar);
    assert splitChar[..|splitChar|] == splitChar;
    var middle := text;
    for j := 0 to |splitChars|
      invariant text == ReplaceEach(middle, splitChars[..j])
      invariant Clean(text, splitChar)
    {
      text := Replace(text, splitChars[j], " ");
      assert splitChars[..j + 1][..j] == splitChars[..j];
    }
    assert splitChars[..|splitChars|] == splitChars;
    words := Split(text);
    CleanTokens(text, splitChar);
  }

  // ----- exclude_words -------------------------------------------------------

  /** The words of an exclusion text, tokenised by `split_words` with its
      default separators `""` and `[", ", ". "]` after lower-casing. */
  function ExclusionWords(excludeString: string): (r: seq<string>)
  {
    Split(Normalize(LowerStr(excludeString), "", [", ", ". "]))
  }

  /** What `exclude_words` leaves of `words`. */
  function Excluded(words: seq<string>, excludeString: string): (r: seq<string>)
  {
    if excludeString == "" then words
    else Without(words, ExclusionWords(excludeString))
  }

  /** `exclude_words(words, exclude_string)`: with no exclusion text the list
      comes back as it is; otherwise every occurrence of every exclusion word
      is removed with `while w in words: words.remove(w)`. */
  method ExcludeWords(words: seq<string>, excludeString: string) returns (r: seq<string>)
    ensures r == Excluded(words, excludeString)
  {
    if excludeString == "" {
      return words;
    }
    var lowered := LowerStr(excludeString);
    var excluded := SplitWords(lowered, "", [", ", ". "]);
    r := RemoveEvery(words, excluded);
  }

  // ----- min_word_length -----------------------------------------------------

  /** What `min_word_length` keeps of `words`. */
  function ShortRemoved(words: seq<string>, minLength: int): (r: seq<string>)
  {
    if minLength <= 1 then words else Filter(words, Tokens.LongEnough(minLength))
  }

  /** `min_word_length(words, min_length)`: a threshold of at most 1 returns the
      list as it is; otherwise the words of at least `min_length` characters
      are kept in order. */
  method MinWordLength(words: seq<string>, minLength: int) returns (r: seq<string>)
    ensures r == ShortRemoved(words, minLength)
  {
    if minLength <= 1 {
      return words;
    }
    r := [];
    for i := 0 to |words|
      invariant r == Filter(words[..i], Tokens.LongEnough(minLength))
    {
      FilterSnoc(words[..i], words[i], Tokens.LongEnough(minLength));
      assert words[..i + 1] == words[..i] + [words[i]];
      if |words[i]| >= minLength {
        r := r + [words[i]];
      }
    }
    assert words[..|words|] == words;
  }

  /** The shortcut for thresholds up to 1 agrees with the filter on tokens,
      which are never empty. */
  lemma MinWordLengthShortcut(words: seq<string>, minLength: int)
    requires minLength <= 1
    requires forall i :: 0 <= i < |words| ==> words[i] != []
    ensures Filter(words, Tokens.LongEnough(minLength)) == words
  {
    FilterAll(words, Tokens.LongEnough(minLength));
  }

  // ----- is_num / del_num ----------------------------------------------------

  /** The string without one leading `+` or `-`. */
  function Unsigned(s: string): (r: string)
  {
    if |s| > 0 && (s[0] == '-' || s[0] == '+') then s[1..] else s
  }

  /** `is_num(string)`: false on the empty string; otherwise, after dropping one
      leading sign, false for more than two `.`-sections, and else the answer
      of `isdigit` on the first section alone (the loop returns on it).  So a
      string is a number exactly when it is non-empty and, without its sign,
      holds at most one decimal point and a non-empty run of digits before it;
      what follows the point is never looked at (see `IsNumSpec`). */
  function IsNum(s: string): (r: bool)
  {
    if |s| == 0 then false
    else
      var t := if s[0] == '-' || s[0] == '+' then s[1..] else s;
      var sects := SplitAt(t, '.');
      if |sects| > 2 then false
      else IsDigits(sects[0])
  }

  /** A string is a number exactly when it is non-empty and, without its
      sign, holds at most one point and a non-empty run of digits before the
      first point. */
  lemma IsNumSpec(s: string)
    ensures IsNum(s) <==> (|s| > 0 && multiset(Unsigned(s))['.'] <= 1
      && IsDigits(Unsigned(s)[..IndexOf(Unsigned(s), '.')]))
  {
    if |s| > 0 {
      var t := Unsigned(s);
      var sects := SplitAt(t, '.');
      assert |sects| == multiset(t)['.'] + 1;
      assert sects[0] == t[..IndexOf(t, '.')];
    }
  }

  /** Counting the points of a section, a point and the rest. */
  lemma PointCount(a: string, b: string)
    requires '.' !in a
    ensures multiset(a + "." + b)['.'] == multiset(b)['.'] + 1
  {
    assert multiset(a)['.'] == 0;
  }

  /** The first `c` of a text is where the part free of `c` ends. */
  lemma {:induction false} IndexOfAfter(a: string, c: char, b: string)
    requires c !in a
    ensures IndexOf(a + [c] + b, c) == |a|
    decreases |a|
  {
    if a != [] {
      assert (a + [c] + b)[1..] == a[1..] + [c] + b;
      IndexOfAfter(a[1..], c, b);
    }
  }

  /** Only the first section is examined: digits, a point, and anything
      without a second point make a number (`"12.ab"` is one). */
  lemma IsNumFirstSection(a: string, b: string)
    requires IsDigits(a) && '.' !in b
    ensures IsNum(a + "." + b)
  {
    var s := a + "." + b;
    IsNumSpec(s);
    assert s[0] == a[0];
    assert Unsigned(s) == s;
    assert '.' !in a by {
      forall i | 0 <= i < |a| ensures a[i] != '.' {
        assert IsDigit(a[i]);
      }
    }
    IndexOfAfter(a, '.', b);
    assert s[..|a|] == a;
    assert multiset(b)['.'] == 0;
    PointCount(a, b);
  }

  /** One leading sign is dropped before the rest is judged. */
  lemma IsNumSigned(sign: char, s: string)
    requires sign == '-' || sign == '+'
    requires s == [] || (s[0] != '-' && s[0] != '+')
    ensures IsNum([sign] + s) == IsNum(s)
  {
    IsNumSpec([sign] + s);
    IsNumSpec(s);
    assert Unsigned([sign] + s) == s;
    assert Unsigned(s) == s;
  }

  /** The empty string and a bare sign are not numbers. */
  lemma IsNumBareSign()
    ensures !IsNum("-") && !IsNum("")
  {
    IsNumSpec("-");
    assert Unsigned("-") == "";
  }

  /** An empty first section is not a number, so `".5"` is not one. */
  lemma IsNumLeadingPoint(b: string)
    ensures !IsNum("." + b)
  {
    IsNumSpec("." + b);
    assert Unsigned("." + b) == "." + b;
    assert IndexOf("." + b, '.') == 0;
  }

  /** More than one point is never a number, whatever surrounds them. */
  lemma IsNumTwoPoints(a: string, b: string, c: string)
    ensures !IsNum(a + "." + b + "." + c)
  {
    var s := a + "." + b + "." + c;
    IsNumSpec(s);
    assert multiset(s) == multiset(a) + multiset{'.'} + multiset(b) + multiset{'.'} + multiset(c);
    assert multiset(s)['.'] >= 2;
    if |s| > 0 && (s[0] == '-' || s[0] == '+') {
      assert s == [s[0]] + s[1..];
      assert multiset(s) == multiset{s[0]} + multiset(s[1..]);
      assert multiset(Unsigned(s))['.'] == multiset(s)['.'];
    }
  }

  /** The predicate "not a number". */
  function NotNumber(): (r: string -> bool)
  {
    (w: string) => !IsNum(w)
  }

  /** One step of the `del_num` loop. */
  lemma DelNumStep(words: seq<string>, i: nat)
    requires i < |words|
    ensures Filter(words[..i + 1], NotNumber()) ==
      Filter(words[..i], NotNumber()) + (if IsNum(words[i]) then [] else [words[i]])
  {
    assert words[..i + 1] == words[..i] + [words[i]];
    FilterSnoc(words[..i], words[i], NotNumber());
  }

  /** `del_num(words)`: the words that are not numbers, in order. */
  method DelNum(words: seq<string>) returns (r: seq<string>)
    ensures r == Filter(words, NotNumber())
  {
    r := [];
    for i := 0 to |words|
      invariant r == Filter(words[..i], NotNumber())
    {
      DelNumStep(words, i);
      if IsNum(words[i]) {
        continue;
      }
      r := r + [words[i]];
    }
    assert words[..|words|] == words;
  }


  /** Exactly the words that are not numbers survive, each as often as it
      occurred, in their original order. */
  lemma DelNumSpec(words: seq<string>)
    ensures forall w :: w in Filter(words, NotNumber()) <==> w in words && !IsNum(w)
    ensures forall w :: !IsNum(w) ==> multiset(Filter(words, NotNumber()))[w] == multiset(words)[w]
    ensures IsSubsequence(Filter(words, NotNumber()), words)
  {
    FilterMembers(words, NotNumber());
    FilterCounts(words, NotNumber());
    FilterOrder(words, NotNumber());
  }

  // ----- remove_less_counts and the report -----------------------------------

  /** What `remove_less_counts` keeps of a ranked list. */
  function LessCountsRemoved(results: seq<Entry>, minCount: int): (r: seq<Entry>)
  {
    if minCount <= 1 then results else Filter(results, CountAtLeast(minCount))
  }

  /** `remove_less_counts(results, min_count)`: a threshold of at most 1 returns
      the list as it is; otherwise the pairs counted at least `min_count` times
      are kept in order. */
  method RemoveLessCounts(results: seq<Entry>, minCount: int) returns (r: seq<Entry>)
    ensures r == LessCountsRemoved(results, minCount)
  {
    if minCount <= 1 {
      return results;
    }
    r := [];
    for i := 0 to |results|
      invariant r == Filter(results[..i], CountAtLeast(minCount))
    {
      FilterSnoc(results[..i], results[i], CountAtLeast(minCount));
      assert results[..i + 1] == results[..i] + [results[i]];
      if results[i].count >= minCount {
        r := r + [results[i]];
      }
    }
    assert results[..|results|] == results;
  }

  /** The shortcut for thresholds up to 1 agrees with the filter on Counter
      items, whose counts are at least 1. */
  lemma RemoveLessCountsShortcut(words: seq<string>, n: int, minCount: int)
    requires minCount <= 1
    ensures Filter(MostCommon(Tally(words), n), CountAtLeast(minCount)) == MostCommon(Tally(words), n)
  {
    var top := MostCommon(Tally(words), n);
    MostCommonSpec(Tally(words), n);
    forall i | 0 <= i < |top| ensures CountAtLeast(minCount)(top[i]) {
      assert top[i] in Tally(words);
      var k :| 0 <= k < |Tally(words)| && Tally(words)[k] == top[i];
      TallyKeys(words);
      GetAt(Tally(words), k);
      TallyGet(words, top[i].key);
    }
    FilterAll(top, CountAtLeast(minCount));
  }

  /** `report_results`, lines computing what is printed:
      `remove_less_counts(results.most_common(top_common), min_count)`. */
  method Printed(results: Dict, topCommon: int, minCount: int) returns (printed: seq<Entry>)
    ensures printed == LessCountsRemoved(MostCommon(results, topCommon), minCount)
  {
    var top := MostCommon(results, topCommon);
    printed := RemoveLessCounts(top, minCount);
  }

  /** The printed report for a Counter over `words`: at most `top_common`
      pairs, ranked, each a word with its exact number of occurrences, no pair
      below `min_count`, and no word twice. */
  lemma PrintedSpec(words: seq<string>, topCommon: int, minCount: int)
    ensures var printed := LessCountsRemoved(MostCommon(Tally(words), topCommon), minCount);
      && |printed| <= Clamp(topCommon, |Dedup(words)|)
      && NonIncreasing(printed)
      && (forall e :: e in printed ==> e.key in words && e.count == multiset(words)[e.key])
      && (forall e :: e in printed ==> e.count >= minCount)
  {
    var d := Tally(words);
    var top := MostCommon(d, topCommon);
    var printed := LessCountsRemoved(top, minCount);
    MostCommonSpec(d, topCommon);
    TallyKeys(words);
    assert |Keys(d)| == |d|;
    FilterLength(top, CountAtLeast(minCount));
    FilterNonIncreasing(top, CountAtLeast(minCount));
    FilterMembers(top, CountAtLeast(minCount));
    forall e | e in printed
      ensures e.key in words && e.count == multiset(words)[e.key] && e.count >= minCount
    {
      assert e in d;
      var k :| 0 <= k < |d| && d[k] == e;
      GetAt(d, k);
      TallyGet(words, e.key);
    }
  }

  // ----- the main program ----------------------------------------------------

  /** The word list the main program counts. */
  function Cleaned(tokens: seq<string>, excludeString: string, minLength: int): (r: seq<string>)
  {
    Filter(ShortRemoved(Excluded(tokens, excludeString), minLength), NotNumber())
  }

  /** Every counted word is a token long enough, not a number and not excluded. */
  lemma CleanedSpec(tokens: seq<string>, splitChar: string, excludeString: string, minLength: int, w: string)
    requires forall i :: 0 <= i < |tokens| ==> IsToken(tokens[i], splitChar)
    requires w in Cleaned(tokens, excludeString, minLength)
    ensures IsToken(w, splitChar) && |w| >= minLength && !IsNum(w)
    ensures excludeString != "" ==> w !in ExclusionWords(excludeString)
  {
    var excluded := Excluded(tokens, excludeString);
    var long := ShortRemoved(excluded, minLength);
    FilterMembers(long, NotNumber());
    FilterMembers(excluded, Tokens.LongEnough(minLength));
    if excludeString != "" {
      FilterMembers(tokens, NotIn(Elems(ExclusionWords(excludeString))));
    }
    var i :| 0 <= i < |tokens| && tokens[i] == w;
  }

  /** Lines 342-361 with the file contents as parameters: tokenise, exclude,
      drop short words and numbers, count, and rank for the report. */
  method WordCount(contents: string, excludeString: string, splitChar: string,
                   splitChars: seq<string>, minLength: int, topCommon: int, minCount: int)
    returns (words: seq<string>, printed: seq<Entry>)
    ensures words == Cleaned(Split(Normalize(contents, splitChar, splitChars)), excludeString, minLength)
    ensures printed == LessCountsRemoved(MostCommon(Tally(words), topCommon), minCount)
    ensures forall w :: w in words ==> IsToken(w, splitChar) && |w| >= minLength && !IsNum(w)
    ensures NonIncreasing(printed)
    ensures |printed| <= Clamp(topCommon, |Dedup(words)|)
    ensures forall e :: e in printed ==>
      e.key in words && e.count == multiset(words)[e.key] && e.count >= minCount
  {
    var tokens := SplitWords(contents, splitChar, splitChars);
    words := ExcludeWords(tokens, excludeString);
    words := MinWordLength(words, minLength);
    words := DelNum(words);
    assert words == Cleaned(tokens, excludeString, minLength);
    forall w | w in words ensures IsToken(w, splitChar) && |w| >= minLength && !IsNum(w) {
      CleanedSpec(tokens, splitChar, excludeString, minLength, w);
    }
    var results := Tally(words);
    printed := Printed(results, topCommon, minCount);
    PrintedSpec(words, topCommon, minCount);
  }
}
