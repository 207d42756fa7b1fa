/** The regular-expression tokeniser shared by `phrase_frq.py`, `ct_phrase.py`,
    `word_frq.py` and `ct_word.py`: lower-case the text, turn every character
    that is not an ASCII letter (nor, in the phrase scripts, an apostrophe)
    into a space with `re.sub`, then `split()` on whitespace. */
module Tokens {
  import opened Text

  /** The characters the class `[^A-Za-z']` (with `apostrophe`) or `[^A-Za-z]`
      leaves alone. */
  predicate Kept(c: char, apostrophe: bool)
  {
    IsUpper(c) || IsLower(c) || (apostrophe && c == '\'')
  }

  /** `re.sub('[^A-Za-z\']', ' ', s)`, or `re.sub('[^A-Za-z]', ' ', s)`. */
  function Scrub(s: string, apostrophe: bool): (r: string)
  {
    seq(|s|, i requires 0 <= i < |s| => if Kept(s[i], apostrophe) then s[i] else ' ')
  }

  /** A token the tokeniser can produce: a non-empty run of lower-case ASCII
      letters (and apostrophes, with `apostrophe`). */
  predicate IsToken(w: string, apostrophe: bool)
  {
    w != [] && forall j :: 0 <= j < |w| ==> IsLower(w[j]) || (apostrophe && w[j] == '\'')
  }

  /** `split_words(contents)`. */
  function SplitWords(contents: string, apostrophe: bool): (words: seq<string>)
    ensures forall i :: 0 <= i < |words| ==> IsToken(words[i], apostrophe)
  {
    var s := Scrub(LowerStr(contents), apostrophe);
    var words := Split(s);
    assert forall i :: 0 <= i < |words| ==> IsToken(words[i], apostrophe) by {
      forall i, j | 0 <= i < |words| && 0 <= j < |words[i]|
        ensures IsLower(words[i][j]) || (apostrophe && words[i][j] == '\'')
      {
        var c := words[i][j];
        WordLenNoSpace(words[i], j);
        SplitChars(s, i, c);
        var k :| 0 <= k < |s| && s[k] == c;
      }
    }
    words
  }

  /** A run of lower-case letters has no whitespace in it. */
  lemma TokenIsWord(w: string, apostrophe: bool)
    requires IsToken(w, apostrophe)
    ensures IsWord(w)
  {
    NoSpaceWordLen(w);
  }

  /** Text that is already tokens joined by single spaces goes through
      lower-casing and scrubbing unchanged. */
  lemma ScrubJoin(ws: seq<string>, apostrophe: bool)
    requires forall i :: 0 <= i < |ws| ==> IsToken(ws[i], apostrophe)
    ensures Scrub(LowerStr(Join(ws, " ")), apostrophe) == Join(ws, " ")
  {
    var s := Join(ws, " ");
    forall k | 0 <= k < |s|
      ensures Scrub(LowerStr(s), apostrophe)[k] == s[k]
    {
      assert s[k] in s;
      JoinChars(ws, " ", s[k]);
      if s[k] != ' ' {
        var i :| 0 <= i < |ws| && s[k] in ws[i];
        var j :| 0 <= j < |ws[i]| && ws[i][j] == s[k];
      }
    }
  }

  /** Tokenising space-joined tokens gives the tokens back: the words of a
      phrase built from a sentence are the words it was built from. */
  lemma SplitWordsJoin(ws: seq<string>, apostrophe: bool)
    requires forall i :: 0 <= i < |ws| ==> IsToken(ws[i], apostrophe)
    ensures SplitWords(Join(ws, " "), apostrophe) == ws
  {
    ScrubJoin(ws, apostrophe);
    forall i | 0 <= i < |ws| ensures IsWord(ws[i]) {
      TokenIsWord(ws[i], apostrophe);
    }
    SplitJoin(ws);
  }

  /** The apostrophe keeps a contraction together in the phrase scripts... */
  lemma ContractionKept()
    ensures SplitWords("Don't", true) == ["don't"]
  {
    var w := "don't";
    assert LowerStr("Don't") == w;
    assert Scrub(w, true) == w;
    assert IsWord(w) by {
      NoSpaceWordLen(w);
    }
    assert Join([w], " ") == w;
    SplitJoin([w]);
  }

  /** ...and splits it in two in the word scripts. */
  lemma ContractionSplit()
    ensures SplitWords("Don't", false) == ["don", "t"]
  {
    assert LowerStr("Don't") == "don't";
    assert Scrub("don't", false) == "don t";
    assert IsWord("don") && IsWord("t") by {
      NoSpaceWordLen("don");
      NoSpaceWordLen("t");
    }
    assert Join(["don", "t"], " ") == "don t";
    SplitJoin(["don", "t"]);
  }

  /** The predicate "the word has at least `n` characters". */
  function LongEnough(n: int): (r: string -> bool)
  {
    (w: string) => |w| >= n
  }
}
