/** The parts of Python's `str` behaviour that the scraper relies on: whitespace
    (`str.isspace`), `strip`, `rstrip(ch)`, `startswith`, `splitlines`, `"\n".join`
    and the argument-less `split`. Strings are sequences of Unicode scalar values. */
module Strings {

  /** The characters Python's `str.isspace()` accepts; `strip()` and `split()` with no
      argument treat exactly these as whitespace. */
  predicate IsSpace(c: char) {
    || c == ' '
    || ('\t' <= c <= '\r')
    || ('\U{1c}' <= c <= '\U{1f}')
    || c == '\U{85}' || c == '\U{a0}' || c == '\U{1680}'
    || ('\U{2000}' <= c <= '\U{200a}')
    || c == '\U{2028}' || c == '\U{2029}' || c == '\U{202f}' || c == '\U{205f}'
    || c == '\U{3000}'
  }

  /** The line boundaries of Python's `str.splitlines()`; "\r\n" counts as one boundary. */
  predicate IsLineBreak(c: char) {
    || c == '\n' || c == '\r' || c == '\U{0b}' || c == '\U{0c}'
    || c == '\U{1c}' || c == '\U{1d}' || c == '\U{1e}'
    || c == '\U{85}' || c == '\U{2028}' || c == '\U{2029}'
  }

  predicate AllSpace(s: string) {
    forall i :: 0 <= i < |s| ==> IsSpace(s[i])
  }

  predicate NoSpace(s: string) {
    forall i :: 0 <= i < |s| ==> !IsSpace(s[i])
  }

  predicate NoLineBreak(s: string) {
    forall i :: 0 <= i < |s| ==> !IsLineBreak(s[i])
  }

  /** Python's `s.startswith(prefix)` */
  predicate StartsWith(s: string, prefix: string) {
    |prefix| <= |s| && s[..|prefix|] == prefix
  }

  /** Python's `s.endswith(suffix)` */
  predicate EndsWith(s: string, suffix: string) {
    |suffix| <= |s| && s[|s| - |suffix|..] == suffix
  }

  // ---------------------------------------------------------------------------
  // strip

  /** How many whitespace characters `s` starts with. */
  function LeadingSpace(s: string): (n: nat)
    ensures n <= |s|
    ensures forall i :: 0 <= i < n ==> IsSpace(s[i])
    ensures n < |s| ==> !IsSpace(s[n])
    decreases |s|
  {
    if s != [] && IsSpace(s[0]) then
      var n := LeadingSpace(s[1..]);
      assert forall i :: 1 <= i < n + 1 ==> s[i] == s[1..][i - 1];
      n + 1
    else
      0
  }

  /** Where the trailing whitespace of `s` starts. */
  function TrailingStart(s: string): (n: nat)
    ensures n <= |s|
    ensures forall i :: n <= i < |s| ==> IsSpace(s[i])
    ensures n > 0 ==> !IsSpace(s[n - 1])
    decreases |s|
  {
    if s != [] && IsSpace(s[|s| - 1]) then
      var n := TrailingStart(s[..|s| - 1]);
      assert forall i :: n <= i < |s| - 1 ==> s[i] == s[..|s| - 1][i];
      n
    else
      |s|
  }

  /** Python's `s.strip()`: `s` without leading and trailing whitespace. */
  function Strip(s: string): (r: string)
    ensures r == [] <==> AllSpace(s)
    ensures r == [] || (!IsSpace(r[0]) && !IsSpace(r[|r| - 1]))
    ensures NoLineBreak(s) ==> NoLineBreak(r)
    ensures |r| <= |s|
    ensures var a := LeadingSpace(s);
      && a + |r| <= |s| && r == s[a..a + |r|]
      && AllSpace(s[..a]) && AllSpace(s[a + |r|..])
  {
    var a := LeadingSpace(s);
    var b := a + TrailingStart(s[a..]);
    StripBounds(s, a, b);
    s[a..b]
  }

  /** What the two ends of `Strip` give: the kept slice starts and ends with a
      non-space character, and it is empty exactly when all of `s` is whitespace. */
  lemma StripBounds(s: string, a: nat, b: nat)
    requires a == LeadingSpace(s) && b == a + TrailingStart(s[a..])
    ensures a <= b <= |s|
    ensures a < b ==> !IsSpace(s[a]) && !IsSpace(s[b - 1])
    ensures a == b <==> AllSpace(s)
    ensures AllSpace(s[..a]) && AllSpace(s[b..])
  {
    var t := TrailingStart(s[a..]);
    assert a < |s| ==> s[a..][0] == s[a];
    if a < b {
      assert s[b - 1] == s[a..][t - 1];
    }
    StripOuter(s, a, b);
  }

  /** What `Strip` drops at either end is whitespace. */
  lemma StripOuter(s: string, a: nat, b: nat)
    requires a == LeadingSpace(s) && b == a + TrailingStart(s[a..])
    ensures AllSpace(s[..a]) && AllSpace(s[b..])
  {
    var t := TrailingStart(s[a..]);
    forall i | 0 <= i < |s| - b
      ensures IsSpace(s[b..][i])
    {
      assert s[b..][i] == s[a..][t + i];
    }
  }

  /** Stripping a string that has no leading or trailing whitespace changes nothing. */
  lemma StripStripped(s: string)
    requires s == [] || (!IsSpace(s[0]) && !IsSpace(s[|s| - 1]))
    ensures Strip(s) == s
  {
  }

  /** Python's `s.rstrip(ch)`: `s` without its trailing run of `ch`. */
  function TrimEnd(s: string, ch: char): (r: string)
    ensures |r| <= |s| && r == s[..|r|]
    ensures forall i :: |r| <= i < |s| ==> s[i] == ch
    ensures r == [] || r[|r| - 1] != ch
    decreases |s|
  {
    if s != [] && s[|s| - 1] == ch then TrimEnd(s[..|s| - 1], ch) else s
  }

  // ---------------------------------------------------------------------------
  // splitlines / join

  /** Index of the first line boundary in `s`, or `|s|` when there is none. */
  function FirstBreak(s: string): (k: nat)
    ensures k <= |s|
    ensures NoLineBreak(s[..k])
    ensures k < |s| ==> IsLineBreak(s[k])
    decreases |s|
  {
    if s == [] || IsLineBreak(s[0]) then 0
    else
      var k := 1 + FirstBreak(s[1..]);
      assert s[..k] == [s[0]] + s[1..][..k - 1];
      k
  }

  /** Python's `s.splitlines()`: the pieces between line boundaries, with no piece after
      a final boundary; "\r\n" is a single boundary. */
  function SplitLines(s: string): (lines: seq<string>)
    ensures forall i :: 0 <= i < |lines| ==> NoLineBreak(lines[i])
    ensures s == [] <==> lines == []
    decreases |s|
  {
    if s == [] then []
    else
      var k := FirstBreak(s);
      if k == |s| then [s]
      else
        var width := if s[k] == '\r' && k + 1 < |s| && s[k + 1] == '\n' then 2 else 1;
        [s[..k]] + SplitLines(s[k + width..])
  }

  /** Python's `"\n".join(lines)` */
  function JoinLines(lines: seq<string>): string
  {
    if lines == [] then ""
    else if |lines| == 1 then lines[0]
    else lines[0] + "\n" + JoinLines(lines[1..])
  }

  /** The first boundary is the one position that has no boundary before it and a
      boundary (or the end of the text) at it. */
  lemma {:induction false} FirstBreakUnique(s: string, k: nat)
    requires k <= |s| && NoLineBreak(s[..k])
    requires k < |s| ==> IsLineBreak(s[k])
    ensures FirstBreak(s) == k
    decreases |s|
  {
    if k > 0 {
      assert !IsLineBreak(s[..k][0]);
      assert s[1..][..k - 1] == s[..k][1..];
      FirstBreakUnique(s[1..], k - 1);
    }
  }

  /** A line with no boundary inside, followed by a "\n", is exactly the first piece. */
  lemma FirstBreakAt(line: string, rest: string)
    requires NoLineBreak(line)
    ensures FirstBreak(line + "\n" + rest) == |line|
    ensures FirstBreak(line) == |line|
  {
    var s := line + "\n" + rest;
    assert s[..|line|] == line;
    FirstBreakUnique(s, |line|);
    assert line[..|line|] == line;
    FirstBreakUnique(line, |line|);
  }

  /** Text with no boundary in it is one line. */
  lemma SplitLinesOne(line: string)
    requires line != [] && NoLineBreak(line)
    ensures SplitLines(line) == [line]
  {
    assert line[..|line|] == line;
    FirstBreakUnique(line, |line|);
  }

  /** A single-character boundary ends the first line; what follows is split on its
      own. A '\r' counts here only when no '\n' follows it. */
  lemma SplitLinesBreak(line: string, c: char, rest: string)
    requires NoLineBreak(line) && IsLineBreak(c)
    requires c == '\r' ==> rest == [] || rest[0] != '\n'
    ensures SplitLines(line + [c] + rest) == [line] + SplitLines(rest)
  {
    var s := line + [c] + rest;
    assert s[..|line|] == line;
    assert s[|line|] == c;
    FirstBreakUnique(s, |line|);
    assert s[|line| + 1..] == rest;
  }

  /** "\r\n" is one boundary: it ends the first line, and what follows is split on
      its own. */
  lemma SplitLinesCrLf(line: string, rest: string)
    requires NoLineBreak(line)
    ensures SplitLines(line + "\r\n" + rest) == [line] + SplitLines(rest)
  {
    var s := line + "\r\n" + rest;
    assert s[..|line|] == line;
    assert s[|line|] == '\r' && s[|line| + 1] == '\n';
    FirstBreakUnique(s, |line|);
    assert s[|line| + 2..] == rest;
  }

  /** Joining non-empty lines that hold no line boundary and splitting the result again
      gives the lines back. */
  lemma {:induction false} SplitJoinLines(lines: seq<string>)
    requires forall i :: 0 <= i < |lines| ==> lines[i] != [] && NoLineBreak(lines[i])
    ensures SplitLines(JoinLines(lines)) == lines
    decreases |lines|
  {
    if lines == [] {
    } else if |lines| == 1 {
      FirstBreakAt(lines[0], "");
    } else {
      var rest := JoinLines(lines[1..]);
      var s := lines[0] + "\n" + rest;
      FirstBreakAt(lines[0], rest);
      assert s[..|lines[0]|] == lines[0];
      assert s[|lines[0]|] == '\n';
      assert s[|lines[0]| + 1..] == rest;
      SplitJoinLines(lines[1..]);
      assert lines == [lines[0]] + lines[1..];
    }
  }

  // ---------------------------------------------------------------------------
  // split (no argument)

  /** Length of the run of non-whitespace characters that starts `s`. */
  function WordLength(s: string): (n: nat)
    ensures n <= |s|
    ensures NoSpace(s[..n])
    ensures n < |s| ==> IsSpace(s[n])
    decreases |s|
  {
    if s == [] || IsSpace(s[0]) then 0
    else
      var n := 1 + WordLength(s[1..]);
      assert s[..n] == [s[0]] + s[1..][..n - 1];
      n
  }

  /** Python's `s.split()` with no argument: the maximal runs of non-whitespace, in order. */
  function Words(s: string): (ws: seq<string>)
    ensures forall i :: 0 <= i < |ws| ==> ws[i] != [] && NoSpace(ws[i])
    decreases |s|
  {
    if s == [] then []
    else if IsSpace(s[0]) then Words(s[1..])
    else
      var n := WordLength(s);
      [s[..n]] + Words(s[n..])
  }

  /** The leading run ends at the one position that has no whitespace before it and
      whitespace (or the end of the text) at it. */
  lemma {:induction false} WordLengthUnique(s: string, n: nat)
    requires n <= |s| && NoSpace(s[..n])
    requires n < |s| ==> IsSpace(s[n])
    ensures WordLength(s) == n
    decreases |s|
  {
    if n > 0 {
      assert !IsSpace(s[..n][0]);
      assert s[1..][..n - 1] == s[..n][1..];
      WordLengthUnique(s[1..], n - 1);
    }
  }

  /** The leading run does not change when more text follows a whitespace character,
      or when it already ends inside `s`. */
  lemma WordLengthExtend(s: string, t: string)
    requires WordLength(s) < |s| || t == [] || IsSpace(t[0])
    ensures WordLength(s + t) == WordLength(s)
  {
    var n := WordLength(s);
    assert (s + t)[..n] == s[..n];
    WordLengthUnique(s + t, n);
  }

  /** A string with no whitespace at all is one word, or none when it is empty. */
  lemma WordsOfRun(w: string)
    requires NoSpace(w)
    ensures Words(w) == if w == [] then [] else [w]
  {
    if w != [] {
      assert w[..|w|] == w;
      WordLengthUnique(w, |w|);
      assert w[|w|..] == [];
    }
  }

  /** `split()` finds no word exactly in whitespace-only text. */
  lemma {:induction false} WordsEmpty(s: string)
    ensures Words(s) == [] <==> AllSpace(s)
    decreases |s|
  {
    if s != [] {
      if IsSpace(s[0]) {
        WordsEmpty(s[1..]);
        assert AllSpace(s) <==> AllSpace(s[1..]);
      }
    }
  }

  /** Leading whitespace does not change the words. */
  lemma {:induction false} WordsLeadingSpace(gap: string, s: string)
    requires AllSpace(gap)
    ensures Words(gap + s) == Words(s)
    decreases |gap|
  {
    if gap != [] {
      assert IsSpace((gap + s)[0]);
      assert (gap + s)[1..] == gap[1..] + s;
      WordsLeadingSpace(gap[1..], s);
    } else {
      assert gap + s == s;
    }
  }

  /** Whitespace between two texts separates their words and nothing else: splitting
      `a + gap + b` gives the words of `a` followed by the words of `b`, however long
      the gap is. */
  lemma {:induction false} WordsSeparated(a: string, gap: string, b: string)
    requires gap != [] && AllSpace(gap)
    ensures Words(a + gap + b) == Words(a) + Words(b)
    decreases |a|, 2
  {
    var s := a + gap + b;
    if a == [] {
      assert s == gap + b;
      WordsLeadingSpace(gap, b);
      assert Words(a) + Words(b) == Words(b);
    } else if IsSpace(a[0]) {
      assert s[0] == a[0];
      assert s[1..] == a[1..] + gap + b;
      WordsSeparated(a[1..], gap, b);
    } else {
      WordsSeparatedWord(a, gap, b);
    }
  }

  /** The step of `WordsSeparated` where `a` starts with a word. */
  lemma {:induction false} WordsSeparatedWord(a: string, gap: string, b: string)
    requires gap != [] && AllSpace(gap)
    requires a != [] && !IsSpace(a[0])
    ensures Words(a + gap + b) == Words(a) + Words(b)
    decreases |a|, 1
  {
    var s := a + gap + b;
    assert s == a + (gap + b);
    assert s[0] == a[0];
    WordLengthExtend(a, gap + b);
    var n := WordLength(a);
    assert n > 0;
    assert s[..n] == a[..n];
    assert s[n..] == a[n..] + gap + b;
    assert Words(s) == [a[..n]] + Words(a[n..] + gap + b);
    WordsSeparated(a[n..], gap, b);
    assert Words(a) == [a[..n]] + Words(a[n..]);
  }

  /** Trailing whitespace does not change the words. */
  lemma WordsTrailingSpace(s: string, gap: string)
    requires AllSpace(gap)
    ensures Words(s + gap) == Words(s)
  {
    if gap != [] {
      WordsSeparated(s, gap, []);
      assert s + gap + [] == s + gap;
      assert Words(s) + Words([]) == Words(s);
    } else {
      assert s + gap == s;
    }
  }

  /** Appending one character starts a new word exactly when it is not whitespace and
      follows whitespace or the start of the text. */
  lemma {:induction false} WordsSnoc(p: string, c: char)
    ensures |Words(p + [c])| ==
      |Words(p)| + if !IsSpace(c) && (p == [] || IsSpace(p[|p| - 1])) then 1 else 0
    decreases |p|, 1
  {
    if IsSpace(c) {
      WordsTrailingSpace(p, [c]);
    } else if p == [] {
      WordsOfRun([c]);
      assert [] + [c] == [c];
    } else if IsSpace(p[|p| - 1]) {
      WordsSnocAfterSpace(p, c);
    } else if IsSpace(p[0]) {
      assert (p + [c])[1..] == p[1..] + [c];
      WordsSnoc(p[1..], c);
    } else {
      WordsSnocInWord(p, c);
    }
  }

  /** `WordsSnoc` when `p` ends with whitespace: the character is a word of its own. */
  lemma WordsSnocAfterSpace(p: string, c: char)
    requires !IsSpace(c) && p != [] && IsSpace(p[|p| - 1])
    ensures |Words(p + [c])| == |Words(p)| + 1
  {
    var q := p[..|p| - 1];
    var sp := [p[|p| - 1]];
    assert p + [c] == q + sp + [c];
    WordsSeparated(q, sp, [c]);
    assert p == q + sp + [];
    WordsSeparated(q, sp, []);
    WordsOfRun([c]);
  }

  /** `WordsSnoc` when `p` starts with a word and ends inside one: the character
      extends the last word. */
  lemma {:induction false} WordsSnocInWord(p: string, c: char)
    requires !IsSpace(c) && p != [] && !IsSpace(p[0]) && !IsSpace(p[|p| - 1])
    ensures |Words(p + [c])| == |Words(p)|
    decreases |p|, 0
  {
    var n := WordLength(p);
    if n < |p| {
      WordLengthExtend(p, [c]);
      assert (p + [c])[..n] == p[..n];
      assert (p + [c])[n..] == p[n..] + [c];
      WordsSnoc(p[n..], c);
    } else {
      assert NoSpace(p + [c]);
      WordsOfRun(p + [c]);
      WordsOfRun(p);
    }
  }
}
