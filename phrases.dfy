/** The phrase counter `phrase_frq.py`.  `ct_phrase.py` repeats its
    `remove_char`, `split_sentence`, `split_words`, `list_a_in_b` and
    `count_phrase` word for word, so both scripts share these members. */
module PhraseFrq {
  import opened Text
  import opened Seqs
  import opened Ranking
  import Tokens

  // ----- remove_char -------------------------------------------------------

  /** The text left when every character of `chars` is deleted from `s`. */
  function CharsRemoved(s: string, chars: string): (r: string)
  {
    Filter(s, NotIn(Elems(chars)))
  }

  /** Replacing one character by nothing deletes its every occurrence. */
  lemma {:induction false} ReplaceDeletes(s: string, c: char)
    ensures Replace(s, [c], "") == Filter(s, NotIn({c}))
    decreases |s|
  {
    if s != [] {
      ReplaceDeletes(s[1..], c);
      assert s[..1] == [s[0]];
      assert [c][0] == c;
    }
  }

  /** `remove_char(string, char_list)`: for each character of the list that
      still occurs, `string.replace(char, '')`. */
  method RemoveChar(s: string, charList: string) returns (r: string)
    ensures r == CharsRemoved(s, charList)
  {
    r := s;
    FilterAll(s, NotIn(Elems(charList[..0])));
    for i := 0 to |charList|
      invariant r == Filter(s, NotIn(Elems(charList[..i])))
    {
      var c := charList[i];
      RemoveCharStep(s, charList, i);
      if c in r {
        ReplaceDeletes(r, c);
        r := Replace(r, [c], "");
      } else {
        FilterAll(r, NotIn({c}));
      }
    }
    assert charList[..|charList|] == charList;
  }

  /** Deleting one more character of the list. */
  lemma RemoveCharStep(s: string, chars: string, i: nat)
    requires i < |chars|
    ensures Filter(Filter(s, NotIn(Elems(chars[..i]))), NotIn({chars[i]})) == Filter(s, NotIn(Elems(chars[..i + 1])))
  {
    var c := chars[i];
    assert chars[..i + 1] == chars[..i] + [c];
    ElemsSnoc(chars[..i], c);
    FilterCompose(s, NotIn(Elems(chars[..i])), NotIn({c}), NotIn(Elems(chars[..i + 1])));
  }

  /** What `remove_char` leaves: none of the listed characters, every other
      character as often as before, in the original order. */
  lemma CharsRemovedSpec(s: string, chars: string)
    ensures forall c :: c in chars ==> c !in CharsRemoved(s, chars)
    ensures forall c :: c !in chars ==> multiset(CharsRemoved(s, chars))[c] == multiset(s)[c]
    ensures IsSubsequence(CharsRemoved(s, chars), s)
  {
    FilterMembers(s, NotIn(Elems(chars)));
    FilterCounts(s, NotIn(Elems(chars)));
    FilterOrder(s, NotIn(Elems(chars)));
  }

  /** Removing the same characters a second time changes nothing. */
  lemma CharsRemovedIdempotent(s: string, chars: string)
    ensures CharsRemoved(CharsRemoved(s, chars), chars) == CharsRemoved(s, chars)
  {
    FilterIdempotent(s, NotIn(Elems(chars)));
  }

  // ----- split_sentence ----------------------------------------------------

  /** Length of the leading part of `s` free of delimiters. */
  function ClearLen(s: string, delims: set<char>): (n: nat)
    ensures n <= |s|
    ensures n < |s| ==> s[n] in delims
  {
    if s == [] || s[0] in delims then 0 else 1 + ClearLen(s[1..], delims)
  }

  lemma {:induction false} ClearLenClear(s: string, delims: set<char>, i: nat)
    requires i < ClearLen(s, delims)
    ensures s[i] !in delims
  {
    if i > 0 {
      ClearLenClear(s[1..], delims, i - 1);
    }
  }

  /** Length of the leading run of delimiters of `s`. */
  function RunLen(s: string, delims: set<char>): (n: nat)
    ensures n <= |s|
    ensures n < |s| ==> s[n] !in delims
  {
    if s == [] || s[0] !in delims then 0 else 1 + RunLen(s[1..], delims)
  }

  /** `re.split('[' + chars + ']+', s)`: the pieces of `s` between maximal runs
      of delimiters; a run at either end gives an empty piece there. */
  function Fragments(s: string, delims: set<char>): (r: seq<string>)
    ensures |r| >= 1
    decreases |s|
  {
    var n := ClearLen(s, delims);
    if n == |s| then [s]
    else
      assert s[n..][0] == s[n];
      var m := RunLen(s[n..], delims);
      [s[..n]] + Fragments(s[n + m..], delims)
  }

  /** The number of delimiter runs starting in `s`, where `afterDelim` says
      whether the character before `s` was a delimiter. */
  function RunStarts(s: string, delims: set<char>, afterDelim: bool): (r: nat)
    decreases |s|
  {
    if s == [] then 0
    else (if s[0] in delims && !afterDelim then 1 else 0) + RunStarts(s[1..], delims, s[0] in delims)
  }

  /** The number of maximal runs of delimiters in `s`. */
  function Runs(s: string, delims: set<char>): (r: nat)
  {
    RunStarts(s, delims, false)
  }

  lemma {:induction false} RunStartsClear(s: string, delims: set<char>, n: nat, afterDelim: bool)
    requires 0 < n <= ClearLen(s, delims)
    ensures RunStarts(s, delims, afterDelim) == RunStarts(s[n..], delims, false)
    decreases n
  {
    if n > 1 {
      RunStartsClear(s[1..], delims, n - 1, false);
      assert s[1..][n - 1..] == s[n..];
    }
  }

  lemma {:induction false} RunStartsRun(s: string, delims: set<char>, n: nat, afterDelim: bool)
    requires 0 < n <= RunLen(s, delims)
    ensures RunStarts(s, delims, afterDelim) == (if afterDelim then 0 else 1) + RunStarts(s[n..], delims, true)
    decreases n
  {
    if n > 1 {
      RunStartsRun(s[1..], delims, n - 1, true);
      assert s[1..][n - 1..] == s[n..];
    }
  }

  /** Past the first delimiter run, one fragment and one run are behind. */
  lemma RunsStep(s: string, delims: set<char>, n: nat, m: nat)
    requires n == ClearLen(s, delims) && n < |s| && m == RunLen(s[n..], delims)
    ensures Runs(s, delims) == 1 + Runs(s[n + m..], delims)
  {
    var t := s[n + m..];
    if n > 0 {
      RunStartsClear(s, delims, n, false);
    } else {
      assert s[n..] == s;
    }
    RunStartsRun(s[n..], delims, m, false);
    assert s[n..][m..] == t;
    assert t == [] || t[0] !in delims;
  }

  /** There is one more fragment than there are maximal runs of delimiters. */
  lemma {:induction false} FragmentsCount(s: string, delims: set<char>)
    ensures |Fragments(s, delims)| == Runs(s, delims) + 1
    decreases |s|
  {
    var n := ClearLen(s, delims);
    if n == |s| {
      if n > 0 {
        RunStartsClear(s, delims, n, false);
      }
    } else {
      var m := RunLen(s[n..], delims);
      RunsStep(s, delims, n, m);
      FragmentsCount(s[n + m..], delims);
    }
  }


  /** No fragment holds a delimiter. */
  lemma {:induction false} FragmentsClear(s: string, delims: set<char>)
    ensures forall i, j :: 0 <= i < |Fragments(s, delims)| && 0 <= j < |Fragments(s, delims)[i]| ==>
      Fragments(s, delims)[i][j] !in delims
    decreases |s|
  {
    var r := Fragments(s, delims);
    var n := ClearLen(s, delims);
    forall j | 0 <= j < n ensures s[j] !in delims {
      ClearLenClear(s, delims, j);
    }
    if n < |s| {
      var m := RunLen(s[n..], delims);
      FragmentsClear(s[n + m..], delims);
      assert r[1..] == Fragments(s[n + m..], delims);
    }
  }

  /** Characters that `"[" + chars + "]+"` reads as themselves inside a
      character class: a non-empty list with none of `\`, `]`, `[`, `^`, `-`. */
  predicate PlainClass(chars: string)
  {
    chars != [] && forall i :: 0 <= i < |chars| ==> chars[i] !in "\\[]^-"
  }

  /** The fragments, each stripped and lower-cased. */
  function Sentences(s: string, delims: set<char>): (r: seq<string>)
    ensures |r| == |Fragments(s, delims)|
  {
    var f := Fragments(s, delims);
    seq(|f|, i requires 0 <= i < |f| => LowerStr(Strip(f[i])))
  }

  /** `split_sentence(contents, split_chars)`: split at runs of the listed
      characters, then overwrite each fragment with its stripped, lower-cased
      form. */
  method SplitSentence(contents: string, splitChars: string) returns (sentences: seq<string>)
    requires PlainClass(splitChars)
    ensures sentences == Sentences(contents, Elems(splitChars))
  {
    var fragments := Fragments(contents, Elems(splitChars));
    var a := new string[|fragments|](i requires 0 <= i < |fragments| => fragments[i]);
    for index := 0 to a.Length
      invariant forall j :: 0 <= j < index ==> a[j] == LowerStr(Strip(fragments[j]))
      invariant forall j :: index <= j < a.Length ==> a[j] == fragments[j]
    {
      a[index] := LowerStr(Strip(a[index]));
    }
    sentences := a[..];
  }

  /** A sentence fragment: stripped, lower-cased, and (when no delimiter is a
      lower-case letter) free of delimiters; there is one more of them than
      there are delimiter runs, empty ones included. */
  lemma SentencesSpec(s: string, delims: set<char>)
    requires forall c :: c in delims ==> !IsLower(c)
    ensures |Sentences(s, delims)| == Runs(s, delims) + 1
    ensures forall i :: 0 <= i < |Sentences(s, delims)| ==> IsLowerCased(Sentences(s, delims)[i])
    ensures forall i :: 0 <= i < |Sentences(s, delims)| ==>
      var t := Sentences(s, delims)[i];
      t == [] || (!IsSpace(t[0]) && !IsSpace(t[|t| - 1]))
    ensures forall i, j :: 0 <= i < |Sentences(s, delims)| && 0 <= j < |Sentences(s, delims)[i]| ==>
      Sentences(s, delims)[i][j] !in delims
  {
    var f := Fragments(s, delims);
    var r := Sentences(s, delims);
    FragmentsCount(s, delims);
    FragmentsClear(s, delims);
    forall i | 0 <= i < |r|
      ensures IsLowerCased(r[i])
      ensures r[i] == [] || (!IsSpace(r[i][0]) && !IsSpace(r[i][|r[i]| - 1]))
      ensures forall j :: 0 <= j < |r[i]| ==> r[i][j] !in delims
    {
      CleanFragment(f[i], delims);
    }
  }

  /** One fragment free of delimiters, stripped and lower-cased. */
  lemma CleanFragment(f: string, delims: set<char>)
    requires forall c :: c in delims ==> !IsLower(c)
    requires forall j :: 0 <= j < |f| ==> f[j] !in delims
    ensures IsLowerCased(LowerStr(Strip(f)))
    ensures var t := LowerStr(Strip(f));
      t == [] || (!IsSpace(t[0]) && !IsSpace(t[|t| - 1]))
    ensures forall j :: 0 <= j < |LowerStr(Strip(f))| ==> LowerStr(Strip(f))[j] !in delims
  {
    var t := Strip(f);
    forall j | 0 <= j < |t| ensures LowerStr(t)[j] !in delims {
      assert t[j] in t;
      var k :| 0 <= k < |f| && f[k] == t[j];
    }
  }


  // ----- phrases_in_sentence -----------------------------------------------

  /** The words of a text as the phrase scripts' `split_words` finds them
      (letters and apostrophes, lower-cased). */
  function Words(s: string): (r: seq<string>)
  {
    Tokens.SplitWords(s, true)
  }

  /** The phrase made of the `k` words of `ws` from position `j`. */
  function Window(ws: seq<string>, j: nat, k: nat): (r: string)
    requires j + k <= |ws|
  {
    Join(ws[j..j + k], " ")
  }

  /** The set of `k`-word phrases of a list of words. */
  function Windows(ws: seq<string>, k: nat): (r: set<string>)
  {
    set j: nat | j + k <= |ws| :: Window(ws, j, k)
  }

  /** Words each followed by one space, as `phrase += word + ' '` builds them. */
  function Terminated(ws: seq<string>): (r: string)
  {
    if ws == [] then "" else Terminated(ws[..|ws| - 1]) + ws[|ws| - 1] + " "
  }

  lemma {:induction false} JoinSnoc(ws: seq<string>, w: string, sep: string)
    requires ws != []
    ensures Join(ws + [w], sep) == Join(ws, sep) + sep + w
    decreases |ws|
  {
    if |ws| > 1 {
      assert (ws + [w])[1..] == ws[1..] + [w];
      JoinSnoc(ws[1..], w, sep);
    } else {
      assert ws + [w] == [ws[0], w];
      assert [ws[0], w][1..] == [w];
    }
  }

  lemma {:induction false} TerminatedJoin(ws: seq<string>)
    requires ws != []
    ensures Terminated(ws) == Join(ws, " ") + " "
    decreases |ws|
  {
    if |ws| > 1 {
      var init := ws[..|ws| - 1];
      TerminatedJoin(init);
      assert init + [ws[|ws| - 1]] == ws;
      JoinSnoc(init, ws[|ws| - 1], " ");
    }
  }

  /** `rstrip` of a text that ends in a non-space, followed by one space. */
  lemma RStripSpace(x: string)
    requires |x| > 0 && !IsSpace(x[|x| - 1])
    ensures RStrip(x + " ") == x
  {
    var t := x + " ";
    assert t[..|t| - 1] == x;
    assert TrimmedLen(t) == TrimmedLen(x);
    assert TrimmedLen(x) == |x|;
    assert t[..|x|] == x;
  }

  /** `rstrip` removes exactly the space after the last word. */
  lemma RStripTerminated(ws: seq<string>)
    requires ws != [] && IsWord(ws[|ws| - 1])
    ensures RStrip(Terminated(ws)) == Join(ws, " ")
  {
    var w := ws[|ws| - 1];
    assert !IsSpace(w[|w| - 1]) by {
      WordLenNoSpace(w, |w| - 1);
    }
    JoinLast(ws, " ");
    RStripSpace(Join(ws, " "));
    TerminatedJoin(ws);
  }


  /** The phrase built at position `j` is the window there. */
  lemma WindowPhrase(words: seq<string>, j: nat, k: nat)
    requires k >= 1 && j + k <= |words| && IsWord(words[j + k - 1])
    ensures RStrip(Terminated(words[j..j + k])) == Window(words, j, k)
  {
    var w := words[j..j + k];
    assert w[|w| - 1] == words[j + k - 1];
    RStripTerminated(w);
  }

  /** The inner loop of `phrases_in_sentence`: each of the `k` words from
      `sIndex` followed by a space, then `rstrip`. */
  method BuildPhrase(words: seq<string>, sIndex: nat, k: nat) returns (phrase: string)
    requires k >= 1 && sIndex + k <= |words|
    requires forall i :: 0 <= i < |words| ==> Tokens.IsToken(words[i], true)
    ensures phrase == Window(words, sIndex, k)
  {
    phrase := "";
    for prIndex := 0 to k
      invariant phrase == Terminated(words[sIndex..sIndex + prIndex])
    {
      assert words[sIndex..sIndex + prIndex + 1][..prIndex] == words[sIndex..sIndex + prIndex];
      phrase := phrase + words[sIndex + prIndex] + " ";
    }
    Tokens.TokenIsWord(words[sIndex + k - 1], true);
    WindowPhrase(words, sIndex, k);
    phrase := RStrip(phrase);
  }

  /** `phrases_in_sentence(sentence, phrase_length)`: every run of
      `phrase_length` consecutive words joined by spaces, as a set.  A length
      below 2 only resets the local variable and the function then returns
      `None`. */
  method PhrasesInSentence(sentence: string, phraseLength: int) returns (phrases: Option<set<string>>)
    ensures phrases == if phraseLength < 2 then None else Some(Windows(Words(sentence), phraseLength))
  {
    var words := Words(sentence);
    var wordNumber := |words|;
    if phraseLength < 2 {
      return None;
    }
    var k := phraseLength;
    var list: seq<string> := [];
    for sIndex := 0 to wordNumber
      invariant |list| == sIndex
      invariant sIndex == 0 || sIndex - 1 + k <= wordNumber
      invariant forall j :: 0 <= j < sIndex ==> list[j] == Window(words, j, k)
    {
      if sIndex + k <= wordNumber {
        var phrase := BuildPhrase(words, sIndex, k);
        list := list + [phrase];
        assert list[sIndex] == Window(words, sIndex, k);
      } else {
        break;
      }
    }
    ElemsWindows(list, words, k);
    return Some(Elems(list));
  }

  /** The phrases at every position where a whole phrase fits form the set of
      all phrases. */
  lemma ElemsWindows(list: seq<string>, words: seq<string>, k: nat)
    requires k >= 1 && |list| + k > |words| && (|list| == 0 || |list| - 1 + k <= |words|)
    requires forall j :: 0 <= j < |list| ==> list[j] == Window(words, j, k)
    ensures Elems(list) == Windows(words, k)
  {
    forall p | p in Windows(words, k) ensures p in Elems(list) {
      var j: nat :| j + k <= |words| && p == Window(words, j, k);
      assert list[j] == p;
    }
  }

  /** A phrase of `k >= 1` words is never empty, and splitting it into words
      gives back the words it was made of; a sentence shorter than `k` words
      has no phrases. */
  lemma WindowsSpec(ws: seq<string>, k: nat)
    requires k >= 1 && forall i :: 0 <= i < |ws| ==> Tokens.IsToken(ws[i], true)
    ensures |ws| < k ==> Windows(ws, k) == {}
    ensures "" !in Windows(ws, k)
    ensures forall j: nat :: j + k <= |ws| ==> Words(Window(ws, j, k)) == ws[j..j + k]
  {
    forall j: nat | j + k <= |ws| ensures Words(Window(ws, j, k)) == ws[j..j + k] && Window(ws, j, k) != "" {
      Tokens.SplitWordsJoin(ws[j..j + k], true);
      JoinLast(ws[j..j + k], " ");
    }
  }

  // ----- phrase_set --------------------------------------------------------

  /** `phrase_length`, with values below 2 raised to 2. */
  function PhraseLength(phraseLength: int): (r: nat)
  {
    if phraseLength < 2 then 2 else phraseLength
  }

  /** The union of the `k`-word phrases of each sentence. */
  function AllWindows(sentences: seq<string>, k: nat): (r: set<string>)
  {
    UnionAll(SentenceWindows(sentences, k))
  }

  /** The `k`-word phrases of each sentence, sentence by sentence. */
  function SentenceWindows(sentences: seq<string>, k: nat): (r: seq<set<string>>)
    ensures |r| == |sentences|
    ensures forall i :: 0 <= i < |r| ==> r[i] == Windows(Words(sentences[i]), k)
  {
    if sentences == [] then []
    else SentenceWindows(sentences[..|sentences| - 1], k) + [Windows(Words(sentences[|sentences| - 1]), k)]
  }

  /** One more sentence adds its own phrases. */
  lemma AllWindowsSnoc(sentences: seq<string>, x: string, k: nat)
    ensures AllWindows(sentences + [x], k) == AllWindows(sentences, k) + Windows(Words(x), k)
  {
    var s := sentences + [x];
    assert s[..|sentences|] == sentences;
    assert SentenceWindows(s, k) == SentenceWindows(sentences, k) + [Windows(Words(x), k)];
    assert SentenceWindows(s, k)[..|sentences|] == SentenceWindows(sentences, k);
  }

  /** The phrases of the first `i + 1` sentences. */
  lemma AllWindowsPrefix(sentences: seq<string>, i: nat, k: nat)
    requires i < |sentences|
    ensures AllWindows(sentences[..i + 1], k) == AllWindows(sentences[..i], k) + Windows(Words(sentences[i]), k)
  {
    assert sentences[..i + 1] == sentences[..i] + [sentences[i]];
    AllWindowsSnoc(sentences[..i], sentences[i], k);
  }

  /** `phrase_set(sentences, phrase_length)`: the phrases of every sentence
      collected together, with the empty phrase removed. */
  method PhraseSet(sentences: seq<string>, phraseLength: int) returns (phrases: set<string>)
    ensures phrases == AllWindows(sentences, PhraseLength(phraseLength)) - {""}
  {
    var k := PhraseLength(phraseLength);
    var acc: set<string> := {};
    for i := 0 to |sentences|
      invariant acc == AllWindows(sentences[..i], k)
    {
      var p := PhrasesInSentence(sentences[i], k);
      AllWindowsPrefix(sentences, i, k);
      acc := acc + p.value;
    }
    assert sentences[..|sentences|] == sentences;
    phrases := DiscardAll(acc, "");
  }

  /** A phrase is collected exactly when it is the phrase at some position of
      some sentence: phrases never run across two sentences. */
  lemma AllWindowsSpec(sentences: seq<string>, k: nat, p: string)
    ensures p in AllWindows(sentences, k) <==>
      exists i: nat, j: nat :: i < |sentences| && j + k <= |Words(sentences[i])| && p == Window(Words(sentences[i]), j, k)
  {
    var f := SentenceWindows(sentences, k);
    UnionAllSpec(f, p);
    if p in AllWindows(sentences, k) {
      var i :| 0 <= i < |f| && p in f[i];
      var ws := Words(sentences[i]);
      assert p in Windows(ws, k);
      var j: nat :| j + k <= |ws| && p == Window(ws, j, k);
    }
    if exists i: nat, j: nat :: i < |sentences| && j + k <= |Words(sentences[i])| && p == Window(Words(sentences[i]), j, k) {
      var i: nat, j: nat :| i < |sentences| && j + k <= |Words(sentences[i])| && p == Window(Words(sentences[i]), j, k);
      var ws := Words(sentences[i]);
      assert p in Windows(ws, k);
      assert f[i] == Windows(ws, k);
    }
  }

  /** No sentence yields the empty phrase, so the removal in `phrase_set` never
      fires. */
  lemma NoEmptyPhrase(sentences: seq<string>, k: nat)
    requires k >= 1
    ensures "" !in AllWindows(sentences, k)
  {
    var f := SentenceWindows(sentences, k);
    UnionAllSpec(f, "");
    forall i | 0 <= i < |f| ensures "" !in f[i] {
      WindowsSpec(Words(sentences[i]), k);
    }
  }

  // ----- exclude_phrase ----------------------------------------------------

  /** `exclude_phrase(phrases, exclusion)`, where `text` is what
      `open_exclusion(exclusion)` returned: without a file name the phrases are
      returned as they are; otherwise each lower-cased line of the file is
      removed from the set. */
  method ExcludePhrase(phrases: set<string>, exclusion: string, text: string) returns (r: set<string>)
    ensures r == if exclusion == "" then phrases else phrases - Elems(SplitLines(LowerStr(text)))
  {
    if exclusion == "" {
      return phrases;
    }
    var excludePhrases := SplitLines(LowerStr(text));
    r := phrases;
    for i := 0 to |excludePhrases|
      invariant r == phrases - Elems(excludePhrases[..i])
    {
      var x := excludePhrases[i];
      assert excludePhrases[..i + 1] == excludePhrases[..i] + [x];
      ElemsSnoc(excludePhrases[..i], x);
      r := DiscardAll(r, x);
    }
    assert excludePhrases[..|excludePhrases|] == excludePhrases;
  }

  /** `while x in phrases: phrases.remove(x)` on a set. */
  method DiscardAll(phrases: set<string>, x: string) returns (r: set<string>)
    ensures r == phrases - {x}
  {
    r := phrases;
    while x in r
      invariant r - {x} == phrases - {x}
      decreases |r|
    {
      r := r - {x};
    }
  }

  lemma {:induction false} UnixTextLowerCased(lines: seq<string>)
    requires forall i :: 0 <= i < |lines| ==> IsLowerCased(lines[i])
    ensures IsLowerCased(UnixText(lines))
    decreases |lines|
  {
    if lines != [] {
      UnixTextLowerCased(lines[1..]);
      var t := UnixText(lines);
      assert t == lines[0] + "\n" + UnixText(lines[1..]);
      forall k | 0 <= k < |t| ensures !IsUpper(t[k]) {
        if k > |lines[0]| {
          assert t[k] == UnixText(lines[1..])[k - |lines[0]| - 1];
        }
      }
    }
  }

  /** An exclusion file listing lower-case phrases one per line removes
      exactly those phrases. */
  lemma ExcludeListed(phrases: set<string>, lines: seq<string>)
    requires forall i :: 0 <= i < |lines| ==> IsLine(lines[i]) && IsLowerCased(lines[i])
    ensures phrases - Elems(SplitLines(LowerStr(UnixText(lines)))) == phrases - Elems(lines)
  {
    var t := UnixText(lines);
    UnixTextLowerCased(lines);
    assert LowerStr(t) == t;
    SplitLinesUnixText(lines);
  }

  // ----- list_a_in_b -------------------------------------------------------

  /** The words of `b` from position `i` are exactly `a`. */
  predicate OccursAt(a: seq<string>, b: seq<string>, i: nat)
  {
    i + |a| <= |b| && b[i..i + |a|] == a
  }

  /** 1 when `a` occurs in `b` at position `i`, else 0. */
  function MatchAt(a: seq<string>, b: seq<string>, i: nat): (r: nat)
  {
    if OccursAt(a, b, i) then 1 else 0
  }

  /** The number of positions below `n` where `a` occurs in `b`. */
  function MatchesBelow(a: seq<string>, b: seq<string>, n: nat): (r: nat)
  {
    if n == 0 then 0 else MatchesBelow(a, b, n - 1) + MatchAt(a, b, n - 1)
  }

  /** The number of positions of `b` where `a` occurs as a contiguous run,
      overlapping occurrences included. */
  function Occurrences(a: seq<string>, b: seq<string>): (r: nat)
  {
    MatchesBelow(a, b, |b|)
  }

  /** `list_a_in_b(str_a, str_b)`: tokenise both texts, then at every
      position of `b` compare a copy of the next `len(a)` words with `a`. */
  method ListAInB(strA: string, strB: string) returns (count: int)
    ensures count == Occurrences(Words(strA), Words(strB))
  {
    var listA := Words(strA);
    var listB := Words(strB);
    var aLen := |listA|;
    var bLen := |listB|;
    count := 0;
    for bIndex := 0 to bLen
      invariant count == MatchesBelow(listA, listB, bIndex)
    {
      if bIndex + aLen <= bLen {
        var sectB: seq<string> := [];
        for aIndex := 0 to aLen
          invariant sectB == listB[bIndex..bIndex + aIndex]
        {
          sectB := sectB + [listB[bIndex + aIndex]];
        }
        if listA == sectB {
          count := count + 1;
        }
      }
    }
  }

  lemma {:induction false} MatchesBelowEmpty(b: seq<string>, n: nat)
    requires n <= |b|
    ensures MatchesBelow([], b, n) == n
  {
    if n > 0 {
      MatchesBelowEmpty(b, n - 1);
      assert b[n - 1..n - 1] == [];
    }
  }

  /** An empty needle matches at every position of the haystack. */
  lemma OccurrencesEmptyNeedle(b: seq<string>)
    ensures Occurrences([], b) == |b|
  {
    MatchesBelowEmpty(b, |b|);
  }

  lemma {:induction false} MatchesBelowBound(a: seq<string>, b: seq<string>, n: nat)
    ensures MatchesBelow(a, b, n) <= n
    ensures MatchesBelow(a, b, n) <= if |a| <= |b| then |b| - |a| + 1 else 0
  {
    if n > 0 {
      MatchesBelowBound(a, b, n - 1);
    }
  }

  /** `a` fits at no more than `len(b) - len(a) + 1` positions, and at none
      when it is longer than `b`. */
  lemma OccurrencesBound(a: seq<string>, b: seq<string>)
    ensures Occurrences(a, b) <= if |a| <= |b| then |b| - |a| + 1 else 0
  {
    MatchesBelowBound(a, b, |b|);
  }

  lemma {:induction false} MatchesBelowSome(a: seq<string>, b: seq<string>, n: nat)
    ensures MatchesBelow(a, b, n) >= 1 <==> exists i: nat :: i < n && OccursAt(a, b, i)
  {
    if n > 0 {
      MatchesBelowSome(a, b, n - 1);
      if !OccursAt(a, b, n - 1) {
        if exists i: nat :: i < n && OccursAt(a, b, i) {
          var i: nat :| i < n && OccursAt(a, b, i);
          assert i < n - 1;
        }
      }
    }
  }

  /** `a` is counted at least once exactly when it occurs somewhere in `b`. */
  lemma OccurrencesSome(a: seq<string>, b: seq<string>)
    ensures Occurrences(a, b) >= 1 <==> exists i: nat :: i < |b| && OccursAt(a, b, i)
  {
    MatchesBelowSome(a, b, |b|);
  }

  /** Overlapping occurrences count separately: "a a" occurs twice in "a a a". */
  lemma ListAInBOverlap()
    ensures Occurrences(Words("a a"), Words("a a a")) == 2
  {
    var a := ["a", "a"];
    var b := ["a", "a", "a"];
    assert Tokens.IsToken("a", true);
    assert Join(a, " ") == "a a";
    assert Join(b, " ") == "a a a";
    Tokens.SplitWordsJoin(a, true);
    Tokens.SplitWordsJoin(b, true);
    assert b[0..2] == a && b[1..3] == a;
    assert MatchAt(a, b, 2) == 0;
  }

  // ----- count_phrase ------------------------------------------------------

  /** How often a phrase occurs in a list of sentences: its occurrences in
      each sentence, added up, so that no occurrence spans two sentences. */
  function TotalCount(phrase: string, sentences: seq<string>): (r: nat)
  {
    if sentences == [] then 0
    else Occurrences(Words(phrase), Words(sentences[0])) + TotalCount(phrase, sentences[1..])
  }

  /** The loop of `count_phrase` from dict `d` on: each phrase in turn is
      stored with its total count. */
  function PhraseCounts(d: Dict, phrases: seq<string>, sentences: seq<string>): (r: Dict)
    decreases |phrases|
  {
    if phrases == [] then d
    else PhraseCounts(Put(d, phrases[0], TotalCount(phrases[0], sentences)), phrases[1..], sentences)
  }

  /** `count_phrase(phrases, sentences)`: for each phrase, add up
      `list_a_in_b(phrase, sentence)` over the sentences and store the sum
      under the phrase. */
  method CountPhrase(phrases: seq<string>, sentences: seq<string>) returns (countDict: Dict)
    ensures countDict == PhraseCounts([], phrases, sentences)
  {
    countDict := [];
    assert phrases[0..] == phrases;
    for i := 0 to |phrases|
      invariant PhraseCounts(countDict, phrases[i..], sentences) == PhraseCounts([], phrases, sentences)
    {
      var phrase := phrases[i];
      var count := 0;
      assert sentences[0..] == sentences;
      for j := 0 to |sentences|
        invariant count + TotalCount(phrase, sentences[j..]) == TotalCount(phrase, sentences)
      {
        var c := ListAInB(phrase, sentences[j]);
        assert sentences[j..][1..] == sentences[j + 1..];
        assert TotalCount(phrase, sentences[j..]) == c + TotalCount(phrase, sentences[j + 1..]);
        count := count + c;
      }
      assert sentences[|sentences|..] == [];
      assert count == TotalCount(phrase, sentences);
      assert phrases[i..][1..] == phrases[i + 1..];
      assert PhraseCounts(countDict, phrases[i..], sentences)
        == PhraseCounts(Put(countDict, phrase, count), phrases[i + 1..], sentences);
      countDict := Put(countDict, phrase, count);
    }
    assert phrases[|phrases|..] == [];
  }

  lemma {:induction false} PhraseCountsKeys(d: Dict, phrases: seq<string>, sentences: seq<string>)
    ensures Keys(PhraseCounts(d, phrases, sentences)) == DedupInto(Keys(d), phrases)
    decreases |phrases|
  {
    if phrases != [] {
      var v := TotalCount(phrases[0], sentences);
      PutKeys(d, phrases[0], v);
      PhraseCountsKeys(Put(d, phrases[0], v), phrases[1..], sentences);
    }
  }

  lemma {:induction false} PhraseCountsGet(d: Dict, phrases: seq<string>, sentences: seq<string>, k: string)
    ensures Get(PhraseCounts(d, phrases, sentences), k) ==
      if k in phrases then Some(TotalCount(k, sentences)) else Get(d, k)
    decreases |phrases|
  {
    if phrases != [] {
      var d' := Put(d, phrases[0], TotalCount(phrases[0], sentences));
      PhraseCountsGet(d', phrases[1..], sentences, k);
      MultisetCons(phrases, k);
    }
  }

  /** Every item of `count_phrase`'s dict is one of the phrases with its
      number of occurrences in the sentences. */
  lemma PhraseCountsEntry(phrases: seq<string>, sentences: seq<string>, e: Entry)
    requires e in PhraseCounts([], phrases, sentences)
    ensures e.key in phrases && e.count == TotalCount(e.key, sentences)
  {
    var d := PhraseCounts([], phrases, sentences);
    var i :| 0 <= i < |d| && d[i] == e;
    CountPhraseSpec(phrases, sentences, e.key);
    GetAt(d, i);
    assert Keys(d)[i] == e.key;
    DedupSpec(phrases);
  }

  /** The dict has one key per distinct phrase, in the order the phrases are
      given, and each phrase maps to its total count. */
  lemma CountPhraseSpec(phrases: seq<string>, sentences: seq<string>, k: string)
    ensures Keys(PhraseCounts([], phrases, sentences)) == Dedup(phrases)
    ensures DistinctKeys(PhraseCounts([], phrases, sentences))
    ensures Get(PhraseCounts([], phrases, sentences), k) ==
      if k in phrases then Some(TotalCount(k, sentences)) else None
  {
    PhraseCountsKeys([], phrases, sentences);
    assert Keys([]) == [];
    DedupSpec(phrases);
    PhraseCountsGet([], phrases, sentences, k);
  }

  lemma {:induction false} TotalCountAt(phrase: string, sentences: seq<string>, i: nat)
    requires i < |sentences|
    ensures TotalCount(phrase, sentences) >= Occurrences(Words(phrase), Words(sentences[i]))
    decreases i
  {
    if i > 0 {
      TotalCountAt(phrase, sentences[1..], i - 1);
    }
  }

  /** The words of a collected phrase occur in the sentence it came from. */
  lemma WindowOccurs(ws: seq<string>, j: nat, k: nat)
    requires k >= 1 && j + k <= |ws| && forall i :: 0 <= i < |ws| ==> Tokens.IsToken(ws[i], true)
    ensures Occurrences(Words(Window(ws, j, k)), ws) >= 1
  {
    var w := ws[j..j + k];
    forall t | 0 <= t < k ensures Tokens.IsToken(w[t], true) {
      assert w[t] == ws[j + t];
    }
    Tokens.SplitWordsJoin(w, true);
    assert OccursAt(w, ws, j);
    OccurrencesSome(w, ws);
  }

  /** Every phrase that `phrase_set` collects from the sentences is counted at
      least once in them. */
  lemma CandidateCounted(sentences: seq<string>, k: nat, p: string)
    requires k >= 1 && p in AllWindows(sentences, k)
    ensures TotalCount(p, sentences) >= 1
  {
    AllWindowsSpec(sentences, k, p);
    var i: nat, j: nat :| i < |sentences| && j + k <= |Words(sentences[i])| && p == Window(Words(sentences[i]), j, k);
    WindowOccurs(Words(sentences[i]), j, k);
    TotalCountAt(p, sentences, i);
  }

  lemma WordsInWhich()
    ensures Words("in which") == ["in", "which"]
  {
    assert Tokens.IsToken("in", true) && Tokens.IsToken("which", true);
    assert Join(["in", "which"], " ") == "in which";
    Tokens.SplitWordsJoin(["in", "which"], true);
  }

  lemma WordsItIsIn()
    ensures Words("it is in") == ["it", "is", "in"]
  {
    assert Tokens.IsToken("it", true) && Tokens.IsToken("is", true) && Tokens.IsToken("in", true);
    assert Join(["it", "is", "in"], " ") == "it is in";
    Tokens.SplitWordsJoin(["it", "is", "in"], true);
  }

  lemma WordsWhichCase()
    ensures Words("which case") == ["which", "case"]
  {
    assert Tokens.IsToken("which", true) && Tokens.IsToken("case", true);
    assert Join(["which", "case"], " ") == "which case";
    Tokens.SplitWordsJoin(["which", "case"], true);
  }

  lemma NoMatchItIsIn()
    ensures Occurrences(["in", "which"], ["it", "is", "in"]) == 0
  {
    var a := ["in", "which"];
    var b := ["it", "is", "in"];
    assert !OccursAt(a, b, 0) by { assert b[0..2][0] != a[0]; }
    assert !OccursAt(a, b, 1) by { assert b[1..3][0] != a[0]; }
    assert !OccursAt(a, b, 2);
    assert MatchesBelow(a, b, 2) == 0;
    assert MatchesBelow(a, b, 3) == 0;
  }

  lemma NoMatchWhichCase()
    ensures Occurrences(["in", "which"], ["which", "case"]) == 0
  {
    var a := ["in", "which"];
    var b := ["which", "case"];
    assert !OccursAt(a, b, 0) by { assert b[0..2][0] != a[0]; }
    assert !OccursAt(a, b, 1);
    assert MatchesBelow(a, b, 1) == 0;
    assert MatchesBelow(a, b, 2) == 0;
  }

  /** A phrase whose words fall on both sides of a delimiter is not counted:
      "in which" in the fragments "it is in" and "which case". */
  lemma StraddleNotCounted()
    ensures TotalCount("in which", ["it is in", "which case"]) == 0
  {
    var p := "in which";
    var ss := ["it is in", "which case"];
    WordsInWhich();
    WordsItIsIn();
    WordsWhichCase();
    NoMatchItIsIn();
    NoMatchWhichCase();
    assert ss[1..] == ["which case"];
    assert ss[1..][1..] == [];
    assert TotalCount(p, ss[1..]) == Occurrences(Words(p), Words("which case")) + TotalCount(p, []);
    assert TotalCount(p, ss) == Occurrences(Words(p), Words("it is in")) + TotalCount(p, ss[1..]);
  }

  // ----- top_counts --------------------------------------------------------

  /** `del d[k]`. */
  function Delete(d: Dict, k: string): (r: Dict)
  {
    if d == [] then []
    else if d[0].key == k then d[1..]
    else [d[0]] + Delete(d[1..], k)
  }

  lemma {:induction false} GetAppend(g: Dict, t: Dict, k: string)
    requires k !in Keys(g)
    ensures Get(g + t, k) == Get(t, k)
    ensures Delete(g + t, k) == g + Delete(t, k)
    decreases |g|
  {
    if g != [] {
      assert Keys(g)[0] == g[0].key;
      assert Keys(g[1..]) == Keys(g)[1..];
      assert (g + t)[1..] == g[1..] + t;
      GetAppend(g[1..], t, k);
    } else {
      assert g + t == t;
    }
  }

  /** The key at position `i` is not among the kept keys before it. */
  lemma VisitedKeys(d: Dict, i: nat, least: int)
    requires DistinctKeys(d) && i < |d|
    ensures d[i].key !in Keys(Filter(d[..i], CountAtLeast(least)))
  {
    var g := Filter(d[..i], CountAtLeast(least));
    FilterMembers(d[..i], CountAtLeast(least));
    forall m | 0 <= m < |g| ensures Keys(g)[m] != d[i].key {
      assert g[m] in d[..i];
      var j :| 0 <= j < i && d[..i][j] == g[m];
      assert Keys(d)[j] != Keys(d)[i];
    }
  }

  /** While `top_counts` deletes, the part already visited is filtered and the
      rest is untouched, so the key at hand still holds its original count,
      and deleting it exactly when that count is too small extends the
      filtered part by one item. */
  lemma PruneStep(d: Dict, i: nat, least: int)
    requires DistinctKeys(d) && i < |d|
    ensures GetOr(Filter(d[..i], CountAtLeast(least)) + d[i..], d[i].key, 0) == d[i].count
    ensures (if d[i].count < least then Delete(Filter(d[..i], CountAtLeast(least)) + d[i..], d[i].key)
             else Filter(d[..i], CountAtLeast(least)) + d[i..])
            == Filter(d[..i + 1], CountAtLeast(least)) + d[i + 1..]
  {
    var g := Filter(d[..i], CountAtLeast(least));
    var k := d[i].key;
    VisitedKeys(d, i, least);
    GetAppend(g, d[i..], k);
    assert d[i..] == [d[i]] + d[i + 1..];
    assert d[..i + 1] == d[..i] + [d[i]];
    FilterSnoc(d[..i], d[i], CountAtLeast(least));
  }

  /** `top_counts(count_dict, top_range, least_count)`: delete from the dict
      every key whose count is below `least_count` (the pruned dict is the
      caller's dict afterwards), sort the rest by count, largest first, and
      keep the items at positions below `top_range`. */
  method TopCounts(countDict: Dict, topRange: int, leastCount: int) returns (pruned: Dict, top: seq<Entry>)
    requires DistinctKeys(countDict)
    ensures pruned == Filter(countDict, CountAtLeast(leastCount))
    ensures top == Top(SortDesc(pruned), topRange)
  {
    pruned := PruneCounts(countDict, leastCount);
    var sortedCounts := SortDesc(pruned);
    top := TopItems(sortedCounts, topRange);
  }

  /** The last loop of `top_counts`: the items of the sorted list at positions
      below `top_range`. */
  method TopItems(sortedCounts: seq<Entry>, topRange: int) returns (top: seq<Entry>)
    ensures top == Top(sortedCounts, topRange)
  {
    top := [];
    for index := 0 to |sortedCounts|
      invariant top == sortedCounts[..Clamp(topRange, index)]
    {
      if index < topRange {
        assert sortedCounts[..index + 1] == sortedCounts[..index] + [sortedCounts[index]];
        top := top + [Entry(sortedCounts[index].key, sortedCounts[index].count)];
      }
    }
  }

  /** The first loop of `top_counts`: `del count_dict[key]` for every key
      counted fewer than `least_count` times. */
  method PruneCounts(countDict: Dict, leastCount: int) returns (pruned: Dict)
    requires DistinctKeys(countDict)
    ensures pruned == Filter(countDict, CountAtLeast(leastCount))
  {
    pruned := countDict;
    var keys := Keys(countDict);
    assert countDict[..0] == [];
    for i := 0 to |keys|
      invariant pruned == Filter(countDict[..i], CountAtLeast(leastCount)) + countDict[i..]
    {
      var key := keys[i];
      PruneStep(countDict, i, leastCount);
      if GetOr(pruned, key, 0) < leastCount {
        pruned := Delete(pruned, key);
      }
    }
    assert countDict[..|keys|] == countDict;
  }

  /** What `top_counts` returns: no more than `top_range` items and no more
      than there are items counting at least `least_count`; counts never
      increase; every item is an item of the dict counting at least
      `least_count`. */
  lemma TopCountsSpec(d: Dict, topRange: int, leastCount: int)
    ensures |Top(SortDesc(Filter(d, CountAtLeast(leastCount))), topRange)| ==
      Clamp(topRange, |Filter(d, CountAtLeast(leastCount))|)
    ensures NonIncreasing(Top(SortDesc(Filter(d, CountAtLeast(leastCount))), topRange))
    ensures forall e :: e in Top(SortDesc(Filter(d, CountAtLeast(leastCount))), topRange) ==>
      e in d && e.count >= leastCount
  {
    var pruned := Filter(d, CountAtLeast(leastCount));
    MostCommonSpec(pruned, topRange);
    FilterMembers(d, CountAtLeast(leastCount));
  }

  /** Items of equal count come out in dict order: for each count, the items
      returned are the first items of that count in the dict. */
  lemma TopCountsTies(d: Dict, topRange: int, leastCount: int, c: int)
    ensures IsPrefix(Filter(Top(SortDesc(Filter(d, CountAtLeast(leastCount))), topRange), HasCount(c)),
                     Filter(d, HasCount(c)))
  {
    var pruned := Filter(d, CountAtLeast(leastCount));
    var top := Top(SortDesc(pruned), topRange);
    MostCommonTies(pruned, topRange, c);
    if c >= leastCount {
      FilterCompose(d, CountAtLeast(leastCount), HasCount(c), HasCount(c));
    } else {
      TopCountsSpec(d, topRange, leastCount);
      forall i | 0 <= i < |top| ensures !HasCount(c)(top[i]) {
        assert top[i] in top;
      }
      FilterNone(top, HasCount(c));
    }
  }

  // ----- the main block ----------------------------------------------------

  /** The sentence fragments both scripts count in: quotes and hyphens
      removed, then split at `,.!?:;()`. */
  function PhraseSentences(contents: string): (r: seq<string>)
  {
    Sentences(CharsRemoved(contents, "\"-"), Elems(",.!?:;()"))
  }

  /** The default delimiters are all read literally inside `[...]`. */
  lemma DefaultDelimiters()
    ensures PlainClass(",.!?:;()")
    ensures forall c :: c in Elems(",.!?:;()") ==> !IsLower(c)
  {
    var d := ",.!?:;()";
    assert forall i :: 0 <= i < |d| ==> d[i] in {',', '.', '!', '?', ':', ';', '(', ')'};
  }

  /** The elements of a set, each once, in an order the model leaves open, as
      iterating over a Python set does. */
  method Enumerate(s: set<string>) returns (order: seq<string>)
    ensures Elems(order) == s && Distinct(order)
  {
    order := [];
    var rest := s;
    while rest != {}
      invariant rest !! Elems(order) && rest + Elems(order) == s && Distinct(order)
      decreases |rest|
    {
      var x :| x in rest;
      EnumerateStep(s, order, rest, x);
      order := order + [x];
      rest := rest - {x};
    }
  }

  /** Moving one element of the rest to the end of the order keeps the
      enumeration's invariant. */
  lemma EnumerateStep(s: set<string>, order: seq<string>, rest: set<string>, x: string)
    requires rest !! Elems(order) && rest + Elems(order) == s && Distinct(order)
    requires x in rest
    ensures rest - {x} !! Elems(order + [x]) && (rest - {x}) + Elems(order + [x]) == s
    ensures Distinct(order + [x])
  {
    ElemsSnoc(order, x);
    assert x !in order;
  }

  /** The phrases `count_phrase` is given in the main block: those collected
      from the sentences, less the excluded ones. */
  function Candidates(contents: string, exclusion: string, exclusionText: string, phraseLength: int): (r: set<string>)
  {
    var collected := AllWindows(PhraseSentences(contents), PhraseLength(phraseLength)) - {""};
    if exclusion == "" then collected else collected - Elems(SplitLines(LowerStr(exclusionText)))
  }

  /** The phrases of `phrases` counted at least `leastCount` times in the
      sentences: those that survive the pruning in `top_counts`. */
  function Qualifying(phrases: set<string>, sentences: seq<string>, leastCount: int): (r: set<string>)
  {
    set p | p in phrases && TotalCount(p, sentences) >= leastCount
  }

  /** What `top_counts(count_phrase(order, sentences), top_range, least_count)`
      returns. */
  function Report(order: seq<string>, sentences: seq<string>, topRange: int, leastCount: int): (r: seq<Entry>)
  {
    Top(SortDesc(Filter(PhraseCounts([], order, sentences), CountAtLeast(leastCount))), topRange)
  }

  /** A phrase counted often enough is an item of the pruned dict. */
  lemma QualifyingEntry(order: seq<string>, sentences: seq<string>, leastCount: int, p: string)
    requires p in Qualifying(Elems(order), sentences, leastCount)
    ensures Entry(p, TotalCount(p, sentences)) in Filter(PhraseCounts([], order, sentences), CountAtLeast(leastCount))
  {
    var d := PhraseCounts([], order, sentences);
    CountPhraseSpec(order, sentences, p);
    DedupSpec(order);
    assert p in Keys(d);
    var i :| 0 <= i < |d| && Keys(d)[i] == p;
    assert d[i] in d;
    PhraseCountsEntry(order, sentences, d[i]);
    FilterMembers(d, CountAtLeast(leastCount));
  }

  /** The keys left after pruning are exactly the qualifying phrases, one item
      each. */
  lemma PrunedPhrases(order: seq<string>, sentences: seq<string>, leastCount: int)
    ensures var pruned := Filter(PhraseCounts([], order, sentences), CountAtLeast(leastCount));
      Elems(Keys(pruned)) == Qualifying(Elems(order), sentences, leastCount) &&
      |pruned| == |Qualifying(Elems(order), sentences, leastCount)|
  {
    var d := PhraseCounts([], order, sentences);
    var pruned := Filter(d, CountAtLeast(leastCount));
    var q := Qualifying(Elems(order), sentences, leastCount);
    CountPhraseSpec(order, sentences, "");
    FilterMembers(d, CountAtLeast(leastCount));
    forall k | k in Elems(Keys(pruned)) ensures k in q {
      var i :| 0 <= i < |pruned| && Keys(pruned)[i] == k;
      assert pruned[i] in pruned;
      PhraseCountsEntry(order, sentences, pruned[i]);
    }
    forall k | k in q ensures k in Elems(Keys(pruned)) {
      QualifyingEntry(order, sentences, leastCount, k);
      var e := Entry(k, TotalCount(k, sentences));
      var i :| 0 <= i < |pruned| && pruned[i] == e;
      assert Keys(pruned)[i] == k;
    }
    FilterDistinctKeys(d, CountAtLeast(leastCount));
    DistinctCard(Keys(pruned));
  }

  /** The report holds `top_range` items, or every qualifying phrase when
      there are fewer. */
  lemma ReportSize(order: seq<string>, sentences: seq<string>, topRange: int, leastCount: int)
    ensures |Report(order, sentences, topRange, leastCount)| ==
      Clamp(topRange, |Qualifying(Elems(order), sentences, leastCount)|)
  {
    PrunedPhrases(order, sentences, leastCount);
  }

  /** No qualifying phrase left out of the report is counted more often than
      a phrase in it. */
  lemma ReportLargest(order: seq<string>, sentences: seq<string>, topRange: int, leastCount: int, p: string, i: nat)
    requires p in Qualifying(Elems(order), sentences, leastCount)
    requires p !in Keys(Report(order, sentences, topRange, leastCount))
    requires i < |Report(order, sentences, topRange, leastCount)|
    ensures Report(order, sentences, topRange, leastCount)[i].count >= TotalCount(p, sentences)
  {
    var pruned := Filter(PhraseCounts([], order, sentences), CountAtLeast(leastCount));
    var top := Report(order, sentences, topRange, leastCount);
    var e := Entry(p, TotalCount(p, sentences));
    QualifyingEntry(order, sentences, leastCount, p);
    assert top == MostCommon(pruned, topRange);
    forall j | 0 <= j < |top| ensures top[j] != e {
      assert Keys(top)[j] == top[j].key;
    }
    MostCommonLargest(pruned, topRange, e, i);
  }

  /** The main block of `phrase_frq.py` on the text `contents` and the
      exclusion file `exclusion` whose contents are `exclusionText`: the
      top-ranked phrases of `phraseLength` words that the file does not
      exclude, each with its number of occurrences. */
  method PhraseFrequency(contents: string, exclusion: string, exclusionText: string,
                         phraseLength: int, topRange: int, leastCount: int)
    returns (order: seq<string>, top: seq<Entry>)
    ensures Elems(order) == Candidates(contents, exclusion, exclusionText, phraseLength) && Distinct(order)
    ensures top == Report(order, PhraseSentences(contents), topRange, leastCount)
    ensures NonIncreasing(top)
    ensures |top| == Clamp(topRange, |Qualifying(Candidates(contents, exclusion, exclusionText, phraseLength),
                                                 PhraseSentences(contents), leastCount)|)
    ensures forall e :: e in top ==>
      && e.key in AllWindows(PhraseSentences(contents), PhraseLength(phraseLength))
      && (exclusion != "" ==> e.key !in Elems(SplitLines(LowerStr(exclusionText))))
      && e.count == TotalCount(e.key, PhraseSentences(contents))
      && e.count >= leastCount && e.count >= 1
    ensures forall p, i ::
      && p in Qualifying(Candidates(contents, exclusion, exclusionText, phraseLength), PhraseSentences(contents), leastCount)
      && p !in Keys(top) && 0 <= i < |top|
      ==> top[i].count >= TotalCount(p, PhraseSentences(contents))
    ensures forall c :: IsPrefix(Filter(top, HasCount(c)),
                                 Filter(PhraseCounts([], order, PhraseSentences(contents)), HasCount(c)))
  {
    DefaultDelimiters();
    var clearContents := RemoveChar(contents, "\"-");
    var sentences := SplitSentence(clearContents, ",.!?:;()");
    var phrases := PhraseSet(sentences, phraseLength);
    phrases := ExcludePhrase(phrases, exclusion, exclusionText);
    order := Enumerate(phrases);
    var results := CountPhrase(order, sentences);
    CountPhraseSpec(order, sentences, "");
    var pruned;
    pruned, top := TopCounts(results, topRange, leastCount);
    TopCountsSpec(results, topRange, leastCount);
    ReportSize(order, sentences, topRange, leastCount);
    forall e | e in top
      ensures e.key in phrases && e.count == TotalCount(e.key, sentences)
    {
      PhraseCountsEntry(order, sentences, e);
    }
    forall e | e in top ensures e.count >= 1 {
      CandidateCounted(sentences, PhraseLength(phraseLength), e.key);
    }
    forall p, i | p in Qualifying(phrases, sentences, leastCount) && p !in Keys(top) && 0 <= i < |top|
      ensures top[i].count >= TotalCount(p, sentences)
    {
      ReportLargest(order, sentences, topRange, leastCount, p, i);
    }
    forall c ensures IsPrefix(Filter(top, HasCount(c)), Filter(results, HasCount(c))) {
      TopCountsTies(results, topRange, leastCount, c);
    }
  }
}
