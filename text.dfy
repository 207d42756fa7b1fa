/** ASCII models of the Python `str` primitives the word-count scripts build on:
    `lower`, `isspace`, `isdigit`, `strip`/`rstrip`, `split()`, `split(sep)`,
    `splitlines`, `replace` and `join`.  Strings are `seq<char>`. */
module Text {

  /** Whitespace as `str.split()` and `str.strip()` see it, restricted to ASCII:
      space, \t, \n, \v, \f, \r and the separators \x1c-\x1f. */
  predicate IsSpace(c: char)
  {
    c == ' ' || c == '\t' || c == '\n' || c == '\r' || c == '\U{0B}' || c == '\U{0C}'
    || ('\U{1C}' <= c <= '\U{1F}')
  }

  predicate IsUpper(c: char) { 'A' <= c <= 'Z' }

  predicate IsLower(c: char) { 'a' <= c <= 'z' }

  /** `str.isdigit` on one character, ASCII digits only. */
  predicate IsDigit(c: char) { '0' <= c <= '9' }

  /** `str.isdigit` on a string: non-empty and all digits. */
  predicate IsDigits(s: string)
  {
    |s| > 0 && forall i :: 0 <= i < |s| ==> IsDigit(s[i])
  }

  /** `str.lower` on one character (ASCII case mapping). */
  function Lower(c: char): (r: char)
    ensures !IsUpper(r)
    ensures IsUpper(c) || r == c
    ensures IsSpace(r) <==> IsSpace(c)
  {
    if IsUpper(c) then (c as int + 32) as char else c
  }

  /** `str.lower` on a string. */
  function LowerStr(s: string): (r: string)
  {
    seq(|s|, i requires 0 <= i < |s| => Lower(s[i]))
  }

  /** True when no character of `s` is an upper-case ASCII letter. */
  predicate IsLowerCased(s: string)
  {
    forall i :: 0 <= i < |s| ==> !IsUpper(s[i])
  }

  // ----- strip -----------------------------------------------------------

  /** Number of whitespace characters at the start of `s`. */
  function SpaceLen(s: string): (n: nat)
    ensures n <= |s|
    ensures n < |s| ==> !IsSpace(s[n])
  {
    if s == [] || !IsSpace(s[0]) then 0 else 1 + SpaceLen(s[1..])
  }

  /** `str.lstrip()`: drop leading whitespace. */
  function LStrip(s: string): (r: string)
  {
    s[SpaceLen(s)..]
  }

  /** Length of `s` without its trailing whitespace. */
  function TrimmedLen(s: string): (n: nat)
    ensures n <= |s|
    ensures n > 0 ==> !IsSpace(s[n - 1])
    decreases |s|
  {
    if s != [] && IsSpace(s[|s| - 1]) then TrimmedLen(s[..|s| - 1]) else |s|
  }

  /** `str.rstrip()`: drop trailing whitespace. */
  function RStrip(s: string): (r: string)
  {
    s[..TrimmedLen(s)]
  }

  /** `str.strip()`: the result neither starts nor ends with whitespace, every
      character of it comes from `s`, and a text that is already stripped is
      returned unchanged. */
  function Strip(s: string): (r: string)
    ensures r == [] || (!IsSpace(r[0]) && !IsSpace(r[|r| - 1]))
    ensures forall c :: c in r ==> c in s
    ensures s == [] || (!IsSpace(s[0]) && !IsSpace(s[|s| - 1])) ==> r == s
  {
    var k := SpaceLen(s);
    var t := s[k..];
    var n := TrimmedLen(t);
    assert forall c :: c in t[..n] ==> c in s by {
      forall c | c in t[..n] ensures c in s {
        var j :| 0 <= j < n && t[j] == c;
        assert s[k + j] == c;
      }
    }
    RStrip(LStrip(s))
  }

  // ----- split() on whitespace --------------------------------------------

  /** Length of the longest whitespace-free prefix of `s`. */
  function WordLen(s: string): (n: nat)
    ensures n <= |s|
    ensures n < |s| ==> IsSpace(s[n])
  {
    if s == [] || IsSpace(s[0]) then 0 else 1 + WordLen(s[1..])
  }

  /** A token of `str.split()`: non-empty and free of whitespace. */
  predicate IsWord(w: string)
  {
    w != [] && WordLen(w) == |w|
  }

  /** The whitespace-free prefix is itself whitespace-free. */
  lemma {:induction false} WordLenPrefix(s: string)
    ensures WordLen(s[..WordLen(s)]) == WordLen(s)
  {
    if s != [] && !IsSpace(s[0]) {
      WordLenPrefix(s[1..]);
      assert s[..WordLen(s)][1..] == s[1..][..WordLen(s[1..])];
    }
  }

  /** No character of a whitespace-free string is whitespace. */
  lemma {:induction false} WordLenNoSpace(w: string, i: nat)
    requires WordLen(w) == |w| && i < |w|
    ensures !IsSpace(w[i])
  {
    if i > 0 {
      WordLenNoSpace(w[1..], i - 1);
    }
  }

  /** A string with no whitespace character is whitespace-free. */
  lemma {:induction false} NoSpaceWordLen(w: string)
    requires forall i :: 0 <= i < |w| ==> !IsSpace(w[i])
    ensures WordLen(w) == |w|
  {
    if w != [] {
      NoSpaceWordLen(w[1..]);
    }
  }

  /** `str.split()` with no argument: the maximal runs of non-whitespace
      characters, in order; empty tokens never appear. */
  function Split(s: string): (r: seq<string>)
    ensures forall i :: 0 <= i < |r| ==> IsWord(r[i])
    decreases |s|
  {
    if s == [] then []
    else if IsSpace(s[0]) then Split(s[1..])
    else
      var n := WordLen(s);
      WordLenPrefix(s);
      [s[..n]] + Split(s[n..])
  }

  /** Every character of a token of `Split(s)` is a character of `s`. */
  lemma {:induction false} SplitChars(s: string, i: nat, c: char)
    requires i < |Split(s)| && c in Split(s)[i]
    ensures c in s
    decreases |s|
  {
    if IsSpace(s[0]) {
      SplitChars(s[1..], i, c);
    } else {
      var n := WordLen(s);
      if i > 0 {
        SplitChars(s[n..], i - 1, c);
        var j :| 0 <= j < |s| - n && s[n..][j] == c;
        assert s[n + j] == c;
      }
    }
  }

  /** `sep.join(ws)`. */
  function Join(ws: seq<string>, sep: string): (r: string)
  {
    if ws == [] then []
    else if |ws| == 1 then ws[0]
    else ws[0] + sep + Join(ws[1..], sep)
  }

  lemma {:induction false} WordLenOfWord(w: string, t: string)
    requires WordLen(w) == |w|
    ensures WordLen(w + t) == |w| + WordLen(t)
    decreases |w|
  {
    if w != [] {
      assert (w + t)[1..] == w[1..] + t;
      WordLenOfWord(w[1..], t);
    } else {
      assert w + t == t;
    }
  }

  /** Splitting space-joined words gives the words back. */
  lemma {:induction false} SplitJoin(ws: seq<string>)
    requires forall i :: 0 <= i < |ws| ==> IsWord(ws[i])
    ensures Split(Join(ws, " ")) == ws
    decreases |ws|
  {
    if ws == [] {
    } else if |ws| == 1 {
      var w := ws[0];
      WordLenOfWord(w, []);
      assert w + [] == w;
      assert w[|w|..] == [];
    } else {
      var w := ws[0];
      var rest := Join(ws[1..], " ");
      var s := w + " " + rest;
      assert Join(ws, " ") == s;
      WordLenOfWord(w, " " + rest);
      assert s == w + (" " + rest);
      assert s[..|w|] == w;
      assert s[|w|..] == " " + rest;
      SplitJoin(ws[1..]);
    }
  }

  /** Every character of a join comes from the separator or from one of the parts. */
  lemma {:induction false} JoinChars(ws: seq<string>, sep: string, c: char)
    requires c in Join(ws, sep)
    ensures c in sep || exists i :: 0 <= i < |ws| && c in ws[i]
    decreases |ws|
  {
    if |ws| > 1 {
      var rest := Join(ws[1..], sep);
      if c in ws[0] || c in sep {
      } else {
        assert c in rest;
        JoinChars(ws[1..], sep, c);
        var i :| 0 <= i < |ws[1..]| && c in ws[1..][i];
        assert c in ws[i + 1];
      }
    }
  }

  /** The last character of a join of non-empty words is the last character
      of the last word. */
  lemma {:induction false} JoinLast(ws: seq<string>, sep: string)
    requires |ws| > 0 && ws[|ws| - 1] != []
    ensures |Join(ws, sep)| > 0
    ensures Join(ws, sep)[|Join(ws, sep)| - 1] == ws[|ws| - 1][|ws[|ws| - 1]| - 1]
    decreases |ws|
  {
    if |ws| > 1 {
      JoinLast(ws[1..], sep);
    }
  }

  // ----- split(sep) on one character ---------------------------------------

  /** Index of the first `c` in `s`, or `|s|` when there is none. */
  function IndexOf(s: string, c: char): (n: nat)
    ensures n <= |s|
    ensures forall i :: 0 <= i < n ==> s[i] != c
    ensures n < |s| ==> s[n] == c
  {
    if s == [] || s[0] == c then 0 else 1 + IndexOf(s[1..], c)
  }

  /** `s.split(sep)`: one section more than there are separators, the first
      section is everything before the first separator, and no section holds
      the separator. */
  function SplitAt(s: string, sep: char): (r: seq<string>)
    ensures |r| == multiset(s)[sep] + 1
    ensures r[0] == s[..IndexOf(s, sep)]
    ensures forall i :: 0 <= i < |r| ==> sep !in r[i]
    decreases |s|
  {
    var n := IndexOf(s, sep);
    if n == |s| then
      assert sep !in s;
      [s]
    else
      assert s == s[..n] + [sep] + s[n + 1..];
      assert sep !in s[..n];
      [s[..n]] + SplitAt(s[n + 1..], sep)
  }

  // ----- splitlines() ------------------------------------------------------

  /** The line boundaries of `str.splitlines` (\r\n counts as one). */
  predicate IsLineBreak(c: char)
  {
    c == '\n' || c == '\r' || c == '\U{0B}' || c == '\U{0C}' || c == '\U{1C}'
    || c == '\U{1D}' || c == '\U{1E}' || c == '\U{85}' || c == '\U{2028}' || c == '\U{2029}'
  }

  /** Length of the longest prefix of `s` without a line boundary. */
  function LineLen(s: string): (n: nat)
    ensures n <= |s|
    ensures n < |s| ==> IsLineBreak(s[n])
  {
    if s == [] || IsLineBreak(s[0]) then 0 else 1 + LineLen(s[1..])
  }

  /** A line: no line boundary inside. */
  predicate IsLine(l: string)
  {
    LineLen(l) == |l|
  }

  lemma {:induction false} LineLenPrefix(s: string)
    ensures LineLen(s[..LineLen(s)]) == LineLen(s)
  {
    if s != [] && !IsLineBreak(s[0]) {
      LineLenPrefix(s[1..]);
      assert s[..LineLen(s)][1..] == s[1..][..LineLen(s[1..])];
    }
  }

  /** `str.splitlines()`: the lines of `s` without their terminators; a final
      terminator does not open an empty last line, and `""` has no lines. */
  function SplitLines(s: string): (r: seq<string>)
    ensures forall i :: 0 <= i < |r| ==> IsLine(r[i])
    decreases |s|
  {
    if s == [] then []
    else
      var n := LineLen(s);
      LineLenPrefix(s);
      if n == |s| then [s]
      else
        var skip := if s[n] == '\r' && n + 1 < |s| && s[n + 1] == '\n' then 2 else 1;
        [s[..n]] + SplitLines(s[n + skip..])
  }

  /** Lines each followed by "\n", as a text file stores them. */
  function UnixText(lines: seq<string>): (r: string)
  {
    if lines == [] then [] else lines[0] + "\n" + UnixText(lines[1..])
  }

  lemma {:induction false} LineLenOfLine(l: string, t: string)
    requires IsLine(l)
    ensures LineLen(l + t) == |l| + LineLen(t)
    decreases |l|
  {
    if l != [] {
      assert (l + t)[1..] == l[1..] + t;
      LineLenOfLine(l[1..], t);
    } else {
      assert l + t == t;
    }
  }

  /** Splitting a newline-terminated text gives its lines back. */
  lemma {:induction false} SplitLinesUnixText(lines: seq<string>)
    requires forall i :: 0 <= i < |lines| ==> IsLine(lines[i])
    ensures SplitLines(UnixText(lines)) == lines
    decreases |lines|
  {
    if lines != [] {
      var l := lines[0];
      var rest := UnixText(lines[1..]);
      var s := l + "\n" + rest;
      assert UnixText(lines) == s;
      LineLenOfLine(l, "\n" + rest);
      assert s == l + ("\n" + rest);
      assert LineLen(s) == |l|;
      assert s[..|l|] == l;
      assert s[|l|] == '\n' && s[|l| + 1..] == rest;
      assert SplitLines(s) == [l] + SplitLines(rest);
      SplitLinesUnixText(lines[1..]);
    }
  }

  // ----- replace -----------------------------------------------------------

  /** `s.replace(pat, repl)`: leftmost, non-overlapping occurrences of `pat` are
      replaced; an empty `pat` puts `repl` before every character and at the end.
      Every character of the result comes from `s` or from `repl`, and replacing
      a one-character `pat` by a text without it leaves no such character. */
  function Replace(s: string, pat: string, repl: string): (r: string)
    ensures forall c :: c in r ==> c in s || c in repl
    ensures |pat| == 1 && pat[0] !in repl ==> pat[0] !in r
    decreases |s|
  {
    if |pat| == 0 then repl + (if s == [] then [] else [s[0]] + Replace(s[1..], pat, repl))
    else if |s| < |pat| then
      assert |pat| == 1 ==> s == [];
      s
    else if s[..|pat|] == pat then repl + Replace(s[|pat|..], pat, repl)
    else
      assert |pat| == 1 ==> s[0] != pat[0] by {
        if |pat| == 1 { assert s[..1] == [s[0]]; }
      }
      [s[0]] + Replace(s[1..], pat, repl)
  }
}
