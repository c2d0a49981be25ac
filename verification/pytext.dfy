/** The pieces of Python's `str` behaviour that dockpatrol relies on:
    `strip()` with no argument, `splitlines()` and lower-casing. */
module PyText {

  /** Characters `str.isspace()` accepts, the set `str.strip()` removes by default. */
  predicate IsSpace(c: char) {
    var n := c as int;
    || (0x09 <= n <= 0x0D) || (0x1C <= n <= 0x20)
    || n == 0x85 || n == 0xA0 || n == 0x1680
    || (0x2000 <= n <= 0x200A)
    || n == 0x2028 || n == 0x2029 || n == 0x202F || n == 0x205F || n == 0x3000
  }

  /** Characters `str.splitlines()` treats as line boundaries (`\r\n` counts once). */
  predicate IsLineBreak(c: char) {
    var n := c as int;
    || (0x0A <= n <= 0x0D) || (0x1C <= n <= 0x1E)
    || n == 0x85 || n == 0x2028 || n == 0x2029
  }

  predicate NoLineBreak(s: string) {
    forall k :: 0 <= k < |s| ==> !IsLineBreak(s[k])
  }

  predicate NoSpace(s: string) {
    forall k :: 0 <= k < |s| ==> !IsSpace(s[k])
  }

  predicate AllSpace(s: string) {
    forall k :: 0 <= k < |s| ==> IsSpace(s[k])
  }

  /** Every line boundary is whitespace, so text free of whitespace is free
      of line boundaries. */
  lemma NoSpaceNoLineBreak(s: string)
    requires NoSpace(s)
    ensures NoLineBreak(s)
  {
  }

  /** `s.lstrip()`: the longest suffix of `s` that does not start with whitespace. */
  function LStrip(s: string): (r: string)
    ensures |r| <= |s| && r == s[|s| - |r|..]
    ensures forall k :: 0 <= k < |s| - |r| ==> IsSpace(s[k])
    ensures r != [] ==> !IsSpace(r[0])
  {
    if s != [] && IsSpace(s[0]) then LStrip(s[1..]) else s
  }

  /** `s.rstrip()`: the longest prefix of `s` that does not end with whitespace. */
  function RStrip(s: string): (r: string)
    ensures |r| <= |s| && r == s[..|r|]
    ensures forall k :: |r| <= k < |s| ==> IsSpace(s[k])
    ensures r != [] ==> !IsSpace(r[|r| - 1])
  {
    if s != [] && IsSpace(s[|s| - 1]) then RStrip(s[..|s| - 1]) else s
  }

  /** `r` is the slice of `s` starting at `i`, and everything of `s` outside
      that slice is whitespace. */
  predicate TrimmedAt(s: string, r: string, i: int)
  {
    && 0 <= i && i + |r| <= |s| && r == s[i..i + |r|]
    && (forall k :: 0 <= k < i ==> IsSpace(s[k]))
    && (forall k :: i + |r| <= k < |s| ==> IsSpace(s[k]))
  }

  /** `s.strip()`: the slice of `s` left after removing leading and trailing
      whitespace; it neither starts nor ends with whitespace, and it is empty
      exactly when `s` is all whitespace. */
  function Strip(s: string): (r: string)
    ensures TrimmedAt(s, r, |s| - |LStrip(s)|)
    ensures r != [] ==> !IsSpace(r[0]) && !IsSpace(r[|r| - 1])
    ensures r == [] <==> AllSpace(s)
  {
    var l := LStrip(s);
    var r := RStrip(l);
    StripParts(s, l, r);
    r
  }

  /** What `Strip` promises, from what the left strip `l` and the right strip
      `r` of it promise. */
  lemma StripParts(s: string, l: string, r: string)
    requires |l| <= |s| && l == s[|s| - |l|..]
    requires (forall k :: 0 <= k < |s| - |l| ==> IsSpace(s[k])) && (l != [] ==> !IsSpace(l[0]))
    requires |r| <= |l| && r == l[..|r|]
    requires (forall k :: |r| <= k < |l| ==> IsSpace(l[k])) && (r != [] ==> !IsSpace(r[|r| - 1]))
    ensures TrimmedAt(s, r, |s| - |l|)
    ensures r != [] ==> !IsSpace(r[0]) && !IsSpace(r[|r| - 1])
    ensures r == [] <==> AllSpace(s)
  {
    var i := |s| - |l|;
    forall k | i + |r| <= k < |s|
      ensures IsSpace(s[k])
    {
      assert s[k] == l[k - i];
    }
    if r != [] {
      assert r[0] == l[0];
      assert s[i] == r[0];
    }
  }

  /** Whatever whitespace surrounds a text that neither starts nor ends with
      whitespace, `strip()` gives back exactly that text. */
  lemma StripSurrounded(pre: string, x: string, post: string)
    requires AllSpace(pre) && AllSpace(post)
    requires x != [] ==> !IsSpace(x[0]) && !IsSpace(x[|x| - 1])
    ensures Strip(pre + x + post) == x
  {
    var s := pre + x + post;
    var r := Strip(s);
    var i := |s| - |LStrip(s)|;
    if x != [] {
      assert s[|pre|] == x[0];
      assert s[|pre| + |x| - 1] == x[|x| - 1];
      assert s[i] == r[0];
      assert s[i + |r| - 1] == r[|r| - 1];
      assert i == |pre|;
      assert i + |r| == |pre| + |x|;
      assert s[|pre|..|pre| + |x|] == x;
    }
  }

  /** Index of the first line boundary in `s`, or `|s|` when there is none. */
  function FirstBreak(s: string): (i: nat)
    ensures i <= |s|
    ensures forall k :: 0 <= k < i ==> !IsLineBreak(s[k])
    ensures i < |s| ==> IsLineBreak(s[i])
  {
    if s == [] then 0
    else if IsLineBreak(s[0]) then 0
    else 1 + FirstBreak(s[1..])
  }

  /** The lines of `lines` written one after the other, with nothing between. */
  function Concat(lines: seq<string>): string
  {
    if lines == [] then [] else lines[0] + Concat(lines[1..])
  }

  /** `s` with every line-boundary character removed. */
  function DropBreaks(s: string): string
  {
    if s == [] then [] else (if IsLineBreak(s[0]) then [] else [s[0]]) + DropBreaks(s[1..])
  }

  lemma {:induction false} DropBreaksAppend(a: string, b: string)
    ensures DropBreaks(a + b) == DropBreaks(a) + DropBreaks(b)
    decreases |a|
  {
    if a != [] {
      assert (a + b)[0] == a[0];
      assert (a + b)[1..] == a[1..] + b;
      DropBreaksAppend(a[1..], b);
    } else {
      assert a + b == b;
    }
  }

  lemma {:induction false} DropBreaksOfLine(s: string)
    requires NoLineBreak(s)
    ensures DropBreaks(s) == s
    decreases |s|
  {
    if s != [] {
      DropBreaksOfLine(s[1..]);
      assert s == [s[0]] + s[1..];
    }
  }

  /** Every character of `g` is a line boundary. */
  predicate AllBreaks(g: string) {
    forall k :: 0 <= k < |g| ==> IsLineBreak(g[k])
  }

  lemma {:induction false} DropBreaksOfBoundary(g: string)
    requires AllBreaks(g)
    ensures DropBreaks(g) == []
    decreases |g|
  {
    if g != [] {
      DropBreaksOfBoundary(g[1..]);
    }
  }

  /** Cutting a line and its boundary off the front of a text: what is left
      of the text without boundaries is the line, then the rest without
      boundaries. */
  lemma SplitStep(line: string, gap: string, rest: string)
    requires NoLineBreak(line) && AllBreaks(gap)
    ensures DropBreaks(line + gap + rest) == line + DropBreaks(rest)
  {
    calc {
      DropBreaks(line + gap + rest);
      { DropBreaksAppend(line + gap, rest); }
      DropBreaks(line + gap) + DropBreaks(rest);
      { DropBreaksAppend(line, gap); }
      DropBreaks(line) + DropBreaks(gap) + DropBreaks(rest);
      { DropBreaksOfLine(line); DropBreaksOfBoundary(gap); }
      line + [] + DropBreaks(rest);
      line + DropBreaks(rest);
    }
  }

  lemma ConcatCons(line: string, rest: seq<string>)
    ensures Concat([line] + rest) == line + Concat(rest)
  {
    assert ([line] + rest)[1..] == rest;
  }

  /** The contract of `SplitLines` carries over from the text after the first
      boundary to the whole text, once the first line is put in front. */
  lemma SplitLinesStep(s: string, i: nat, width: nat, rest: seq<string>)
    requires i < |s| && 1 <= width <= 2 && i + width <= |s|
    requires forall k :: 0 <= k < i ==> !IsLineBreak(s[k])
    requires IsLineBreak(s[i]) && (width == 2 ==> s[i + 1] == '\n')
    requires forall k :: 0 <= k < |rest| ==> NoLineBreak(rest[k])
    requires Concat(rest) == DropBreaks(s[i + width..])
    requires |rest| <= |s| - i - width
    ensures var lines := [s[..i]] + rest;
      && (forall k :: 0 <= k < |lines| ==> NoLineBreak(lines[k]))
      && Concat(lines) == DropBreaks(s)
      && |lines| <= |s|
  {
    var line, gap, after := s[..i], s[i..i + width], s[i + width..];
    assert AllBreaks(gap);
    assert s == line + gap + after;
    SplitStep(line, gap, after);
    ConcatCons(line, rest);
    var lines := [line] + rest;
    forall k | 0 <= k < |lines|
      ensures NoLineBreak(lines[k])
    {
      if k > 0 {
        assert lines[k] == rest[k - 1];
      }
    }
  }

  /** `s.splitlines()`: the lines of `s` without their boundaries; a final
      boundary does not open an empty last line, and `\r\n` is one boundary.
      No line holds a boundary, the lines written one after the other are
      `s` with its boundary characters removed, and only the empty text has
      no lines. */
  function SplitLines(s: string): (lines: seq<string>)
    ensures forall k :: 0 <= k < |lines| ==> NoLineBreak(lines[k])
    ensures Concat(lines) == DropBreaks(s)
    ensures lines == [] <==> s == []
    ensures |lines| <= |s|
    decreases |s|
  {
    if s == [] then []
    else
      var i := FirstBreak(s);
      if i == |s| then
        DropBreaksOfLine(s);
        assert Concat([s]) == s + Concat([]);
        [s]
      else
        var width := if s[i] == '\r' && i + 1 < |s| && s[i + 1] == '\n' then 2 else 1;
        var rest := SplitLines(s[i + width..]);
        SplitLinesStep(s, i, width, rest);
        [s[..i]] + rest
  }

  /** `"\n".join(lines)`. */
  function JoinLines(lines: seq<string>): string
  {
    if lines == [] then []
    else if |lines| == 1 then lines[0]
    else lines[0] + "\n" + JoinLines(lines[1..])
  }

  lemma FirstBreakOfJoined(head: string, rest: string)
    requires NoLineBreak(head)
    ensures FirstBreak(head + "\n" + rest) == |head|
  {
    var s := head + "\n" + rest;
    assert s[|head|] == '\n';
  }

  /** Splitting the newline-joined lines gives the lines back, provided no
      line holds a boundary and the last one is not empty. */
  lemma {:induction false} SplitJoinLines(lines: seq<string>)
    requires forall k :: 0 <= k < |lines| ==> NoLineBreak(lines[k])
    requires lines != [] ==> lines[|lines| - 1] != []
    ensures SplitLines(JoinLines(lines)) == lines
    decreases |lines|
  {
    if lines == [] {
    } else if |lines| == 1 {
      assert FirstBreak(lines[0]) == |lines[0]|;
    } else {
      var rest := JoinLines(lines[1..]);
      var s := lines[0] + "\n" + rest;
      FirstBreakOfJoined(lines[0], rest);
      assert s[|lines[0]|] == '\n';
      assert s[..|lines[0]|] == lines[0];
      assert s[|lines[0]| + 1..] == rest;
      SplitJoinLines(lines[1..]);
    }
  }

  /** A line followed by `\n` splits off as the first line. */
  lemma SplitAfterLine(head: string, tail: string)
    requires NoLineBreak(head)
    ensures SplitLines(head + "\n" + tail) == [head] + SplitLines(tail)
  {
    var s := head + "\n" + tail;
    FirstBreakOfJoined(head, tail);
    assert s[|head|] == '\n';
    assert s[..|head|] == head;
    assert s[|head| + 1..] == tail;
  }

  /** Joining the lines of a text that uses only `\n` as boundary and does
      not end with one gives the text back. */
  lemma {:induction false} JoinSplitLines(s: string)
    requires OnlyNewlines(s)
    ensures JoinLines(SplitLines(s)) == s
    decreases |s|
  {
    if s != [] && FirstBreak(s) < |s| {
      var i := FirstBreak(s);
      var head, tail := s[..i], s[i + 1..];
      OnlyNewlinesAfter(s, i);
      JoinSplitLines(tail);
      assert s == head + "\n" + tail;
      JoinAfterLine(head, tail);
    } else if s != [] {
      SplitLinesOfLine(s);
    }
  }

  /** A non-empty text without boundaries is a single line. */
  lemma SplitLinesOfLine(s: string)
    requires s != [] && FirstBreak(s) == |s|
    ensures SplitLines(s) == [s]
  {
  }

  /** `s` uses `\n` as its only line boundary and does not end with one. */
  predicate OnlyNewlines(s: string) {
    && (forall k :: 0 <= k < |s| && IsLineBreak(s[k]) ==> s[k] == '\n')
    && (s != [] ==> !IsLineBreak(s[|s| - 1]))
  }

  lemma OnlyNewlinesAfter(s: string, i: nat)
    requires OnlyNewlines(s) && i < |s| && IsLineBreak(s[i])
    ensures s[i] == '\n' && s[i + 1..] != [] && OnlyNewlines(s[i + 1..])
  {
    var tail := s[i + 1..];
    assert tail[|tail| - 1] == s[|s| - 1];
    forall k | 0 <= k < |tail| && IsLineBreak(tail[k])
      ensures tail[k] == '\n'
    {
      assert tail[k] == s[i + 1 + k];
    }
  }

  lemma JoinAfterLine(head: string, tail: string)
    requires NoLineBreak(head)
    requires tail != [] && JoinLines(SplitLines(tail)) == tail
    ensures JoinLines(SplitLines(head + "\n" + tail)) == head + "\n" + tail
  {
    SplitAfterLine(head, tail);
    JoinLinesCons(head, SplitLines(tail));
  }

  lemma JoinLinesCons(head: string, lines: seq<string>)
    requires lines != []
    ensures JoinLines([head] + lines) == head + "\n" + JoinLines(lines)
  {
    assert ([head] + lines)[1..] == lines;
  }

  /** ASCII lower-casing of one character. */
  function LowerChar(c: char): char
  {
    if 'A' <= c <= 'Z' then (c as int + 32) as char else c
  }

  /** Lower-casing a string character by character, ASCII letters only. */
  function AsciiLower(s: string): string
  {
    seq(|s|, k requires 0 <= k < |s| => LowerChar(s[k]))
  }

  /** `a` and `b` spell the same word when letter case is ignored. */
  predicate EqualsIgnoringCase(a: string, b: string)
  {
    |a| == |b| && forall k :: 0 <= k < |a| ==> LowerChar(a[k]) == LowerChar(b[k])
  }

  predicate IsLowerCase(s: string)
  {
    forall k :: 0 <= k < |s| ==> !('A' <= s[k] <= 'Z')
  }

  /** Comparing the lower-cased `v` with an all-lower-case word is exactly a
      case-insensitive comparison of `v` with that word. */
  lemma LowerMatchesIgnoringCase(v: string, word: string)
    requires IsLowerCase(word)
    ensures AsciiLower(v) == word <==> EqualsIgnoringCase(v, word)
  {
    if EqualsIgnoringCase(v, word) {
      assert forall k :: 0 <= k < |word| ==> LowerChar(word[k]) == word[k];
      assert AsciiLower(v) == word;
    }
  }
}
