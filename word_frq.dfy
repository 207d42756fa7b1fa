/** The word counter `word_frq.py`: letter-only tokens, an exclusion list, a
    minimum word length, `collections.Counter`, and the ranked report. */
module WordFrq {
  import opened Text
  import opened Seqs
  import opened Ranking
  import Tokens

  // ----- exclude_words -------------------------------------------------------

  /** The words of an exclusion text: lower-cased, then split into runs of
      letters, so that a comma-separated list works as well as one word per
      line. */
  function ExclusionWords(excludeString: string): (r: seq<string>)
  {
    Tokens.SplitWords(LowerStr(excludeString), false)
  }

  /** What `exclude_words` leaves of `words`. */
  function Excluded(words: seq<string>, excludeString: string): (r: seq<string>)
  {
    if excludeString == "" then words
    else Without(words, ExclusionWords(excludeString))
  }

  /** `exclude_words(words, exclude_string)`: with no exclusion text the list
      comes back as it is; otherwise every occurrence of each exclusion word is
      removed with `while w in words: words.remove(w)`. */
  method ExcludeWords(words: seq<string>, excludeString: string) returns (r: seq<string>)
    ensures r == Excluded(words, excludeString)
  {
    if excludeString == "" {
      return words;
    }
    var lowered := LowerStr(excludeString);
    var excluded := Tokens.SplitWords(lowered, false);
    r := RemoveEvery(words, excluded);
  }

  /** A comma-separated, capitalised list gives its words. */
  lemma ExclusionCommaList()
    ensures ExclusionWords("The,A") == ["the", "a"]
  {
    assert LowerStr("The,A") == "the,a";
    assert LowerStr("the,a") == "the,a";
    assert Tokens.Scrub("the,a", false) == "the a";
    assert IsWord("the") && IsWord("a") by {
      NoSpaceWordLen("the");
      NoSpaceWordLen("a");
    }
    assert Join(["the", "a"], " ") == "the a";
    SplitJoin(["the", "a"]);
  }

  // ----- least_word_length ---------------------------------------------------

  /** A threshold below 1 is raised to 1. */
  function AtLeastOne(n: int): (r: int)
  {
    if n < 1 then 1 else n
  }

  /** `least_word_length(words, least_length)`: the words of at least
      `least_length` characters (the threshold raised to 1), in order. */
  method LeastWordLength(words: seq<string>, leastLength: int) returns (r: seq<string>)
    ensures r == Filter(words, Tokens.LongEnough(AtLeastOne(leastLength)))
  {
    var least := AtLeastOne(leastLength);
    r := [];
    for index := 0 to |words|
      invariant r == Filter(words[..index], Tokens.LongEnough(least))
    {
      FilterSnoc(words[..index], words[index], Tokens.LongEnough(least));
      assert words[..index + 1] == words[..index] + [words[index]];
      if |words[index]| >= least {
        r := r + [words[index]];
      }
    }
    assert words[..|words|] == words;
  }

  /** The long words are kept, each as often as before and in order, and the
      short ones dropped; a threshold up to 1 keeps every non-empty word. */
  lemma LeastWordLengthSpec(words: seq<string>, leastLength: int)
    ensures forall w :: w in Filter(words, Tokens.LongEnough(AtLeastOne(leastLength))) <==>
      w in words && |w| >= leastLength && w != []
    ensures IsSubsequence(Filter(words, Tokens.LongEnough(AtLeastOne(leastLength))), words)
    ensures leastLength <= 1 && (forall i :: 0 <= i < |words| ==> words[i] != []) ==>
      Filter(words, Tokens.LongEnough(AtLeastOne(leastLength))) == words
  {
    var p := Tokens.LongEnough(AtLeastOne(leastLength));
    FilterMembers(words, p);
    FilterOrder(words, p);
    if leastLength <= 1 && (forall i :: 0 <= i < |words| ==> words[i] != []) {
      FilterAll(words, p);
    }
  }

  // ----- remove_less_counts --------------------------------------------------

  /** `remove_less_counts(results, least_count)`: the pairs counted at least
      `least_count` times (the threshold raised to 1), in order. */
  method RemoveLessCounts(results: seq<Entry>, leastCount: int) returns (r: seq<Entry>)
    ensures r == Filter(results, CountAtLeast(AtLeastOne(leastCount)))
  {
    var least := AtLeastOne(leastCount);
    r := [];
    for index := 0 to |results|
      invariant r == Filter(results[..index], CountAtLeast(least))
    {
      FilterSnoc(results[..index], results[index], CountAtLeast(least));
      assert results[..index + 1] == results[..index] + [results[index]];
      if results[index].count >= least {
        r := r + [results[index]];
      }
    }
    assert results[..|results|] == results;
  }

  /** Every item of a Counter is counted at least once, so a threshold up to 1
      removes nothing from its most common items. */
  lemma RemoveLessCountsCounter(words: seq<string>, n: int, leastCount: int)
    requires leastCount <= 1
    ensures Filter(MostCommon(Tally(words), n), CountAtLeast(AtLeastOne(leastCount))) == MostCommon(Tally(words), n)
  {
    var d := Tally(words);
    var top := MostCommon(d, n);
    MostCommonSpec(d, n);
    TallyKeys(words);
    forall i | 0 <= i < |top| ensures CountAtLeast(1)(top[i]) {
      assert top[i] in d;
      var k :| 0 <= k < |d| && d[k] == top[i];
      GetAt(d, k);
      TallyGet(words, top[i].key);
    }
    FilterAll(top, CountAtLeast(1));
  }

  // ----- the report ----------------------------------------------------------

  /** `output_results`, the lines computing what is printed:
      `remove_less_counts(results.most_common(top_common), least_count)`. */
  method Printed(results: Dict, topCommon: int, leastCount: int) returns (printed: seq<Entry>)
    ensures printed == Filter(MostCommon(results, topCommon), CountAtLeast(AtLeastOne(leastCount)))
  {
    var topWords := MostCommon(results, topCommon);
    printed := RemoveLessCounts(topWords, leastCount);
  }

  /** The printed report for a Counter over `words`: at most `top_common`
      pairs, ranked, each a word with its exact number of occurrences and
      counted at least `least_count` times. */
  lemma PrintedSpec(words: seq<string>, topCommon: int, leastCount: int)
    ensures var printed := Filter(MostCommon(Tally(words), topCommon), CountAtLeast(AtLeastOne(leastCount)));
      && |printed| <= Clamp(topCommon, |Dedup(words)|)
      && NonIncreasing(printed)
      && (forall e :: e in printed ==> e.key in words && e.count == multiset(words)[e.key])
      && (forall e :: e in printed ==> e.count >= leastCount)
  {
    var d := Tally(words);
    var top := MostCommon(d, topCommon);
    var p := CountAtLeast(AtLeastOne(leastCount));
    var printed := Filter(top, p);
    MostCommonSpec(d, topCommon);
    TallyKeys(words);
    assert |Keys(d)| == |d|;
    FilterLength(top, p);
    FilterNonIncreasing(top, p);
    FilterMembers(top, p);
    forall e | e in printed
      ensures e.key in words && e.count == multiset(words)[e.key] && e.count >= leastCount
    {
      assert e in d;
      var k :| 0 <= k < |d| && d[k] == e;
      GetAt(d, k);
      TallyGet(words, e.key);
    }
  }

  // ----- the main program ----------------------------------------------------

  /** The word list the main program counts. */
  function Cleaned(contents: string, excludeString: string, leastLength: int): (r: seq<string>)
  {
    Filter(Excluded(Tokens.SplitWords(contents, false), excludeString), Tokens.LongEnough(AtLeastOne(leastLength)))
  }

  /** Every counted word is a run of lower-case letters, long enough, and not
      excluded. */
  lemma CleanedSpec(contents: string, excludeString: string, leastLength: int, w: string)
    requires w in Cleaned(contents, excludeString, leastLength)
    ensures Tokens.IsToken(w, false) && |w| >= leastLength
    ensures excludeString != "" ==> w !in ExclusionWords(excludeString)
  {
    var tokens := Tokens.SplitWords(contents, false);
    var excluded := Excluded(tokens, excludeString);
    FilterMembers(excluded, Tokens.LongEnough(AtLeastOne(leastLength)));
    if excludeString != "" {
      FilterMembers(tokens, NotIn(Elems(ExclusionWords(excludeString))));
    }
    var i :| 0 <= i < |tokens| && tokens[i] == w;
  }

  /** Lines 188-197 and the printed lines of `output_results`, with the
      source text and the exclusion file's contents as parameters: tokenise,
      exclude, drop short words, count, and rank for the report. */
  method WordFrequency(contents: string, excludeString: string, leastLength: int,
                       topCommon: int, leastCount: int)
    returns (words: seq<string>, printed: seq<Entry>)
    ensures words == Cleaned(contents, excludeString, leastLength)
    ensures printed == Filter(MostCommon(Tally(words), topCommon), CountAtLeast(AtLeastOne(leastCount)))
    ensures forall w :: w in words ==> Tokens.IsToken(w, false) && |w| >= leastLength
    ensures forall w :: w in words && excludeString != "" ==> w !in ExclusionWords(excludeString)
    ensures NonIncreasing(printed)
    ensures |printed| <= Clamp(topCommon, |Dedup(words)|)
    ensures forall e :: e in printed ==>
      e.key in words && e.count == multiset(words)[e.key] && e.count >= leastCount
  {
    words := Tokens.SplitWords(contents, false);
    words := ExcludeWords(words, excludeString);
    words := LeastWordLength(words, leastLength);
    forall w | w in words
      ensures Tokens.IsToken(w, false) && |w| >= leastLength
      ensures excludeString != "" ==> w !in ExclusionWords(excludeString)
    {
      CleanedSpec(contents, excludeString, leastLength, w);
    }
    var results := Tally(words);
    printed := Printed(results, topCommon, leastCount);
    PrintedSpec(words, topCommon, leastCount);
  }
}
