/** Python's `str.splitlines`, and how the lines of a text relate to the lines of its suffixes. */
module TextLines {
  import opened Sequences
  import opened Utf8

  predicate IsBreak(c: Point) {
    c in {10, 11, 12, 13, 28, 29, 30, 0x85, 0x2028, 0x2029}
  }

  /** The length of the line break a text starts with; a carriage return takes a line feed with it. */
  function BreakSize(t: Text): (n: nat)
    requires t != []
    ensures 1 <= n <= |t|
  {
    if t[0] == 13 && 1 < |t| && t[1] == 10 then 2 else 1
  }

  function SplitLines(t: Text): (lines: seq<Text>)
    ensures t != [] ==> lines != []
  {
    if t == [] then []
    else if IsBreak(t[0]) then [[]] + SplitLines(t[BreakSize(t)..])
    else if |t| == 1 then [t]
    else
      var rest := SplitLines(t[1..]);
      [[t[0]] + rest[0]] + rest[1..]
  }

  /** Python's white space, which `str.strip` removes. */
  predicate IsWhite(c: Point) {
    9 <= c <= 13 || 28 <= c <= 32 || 0x2000 <= c <= 0x200A ||
    c in {0x85, 0xA0, 0x1680, 0x2028, 0x2029, 0x202F, 0x205F, 0x3000}
  }

  predicate IsBlank(line: Text) {
    forall i | 0 <= i < |line| :: IsWhite(line[i])
  }

  /** The lines of a text once `strip` has taken the blank lines around it. What is left of white space at the
      ends of the first and the last line makes no difference to a reader of JSON. */
  function Trim(lines: seq<Text>): seq<Text> {
    if lines == [] then []
    else if IsBlank(lines[0]) then Trim(lines[1..])
    else if IsBlank(lines[|lines| - 1]) then Trim(lines[..|lines| - 1])
    else lines
  }

  /** Trimming takes blank lines away at both ends, as many as there are, and nothing else. */
  lemma {:induction false} TrimIs(lines: seq<Text>) returns (before: seq<Text>, after: seq<Text>)
    ensures lines == before + Trim(lines) + after
    ensures forall line | line in before || line in after :: IsBlank(line)
    ensures Trim(lines) != [] ==> !IsBlank(Trim(lines)[0]) && !IsBlank(Trim(lines)[|Trim(lines)| - 1])
  {
    before, after := [], [];
    if lines != [] {
      var n := |lines| - 1;
      if IsBlank(lines[0]) {
        before, after := TrimIs(lines[1..]);
        HeadAndTail(lines);
        before := [lines[0]] + before;
      } else if IsBlank(lines[n]) {
        before, after := TrimIs(lines[..n]);
        assert lines == lines[..n] + [lines[n]];
        after := after + [lines[n]];
      }
    }
  }

  predicate HasSuffix(line: Text, piece: Text) {
    |piece| <= |line| && line[|line| - |piece|..] == piece
  }

  /** The m-th line of f was cut: w holds a suffix of it and then all later lines. */
  predicate CutAt(f: seq<Text>, w: seq<Text>, m: nat) {
    0 < m <= |f| && w != [] && f[m..] == w[1..] && HasSuffix(f[m - 1], w[0])
  }

  lemma CutLater(head: Text, f: seq<Text>, w: seq<Text>, m: nat)
    requires CutAt(f, w, m)
    ensures CutAt([head] + f, w, m + 1)
  {
    assert ([head] + f)[m + 1..] == f[m..];
  }

  lemma CutLonger(c: Point, f: seq<Text>, w: seq<Text>, m: nat)
    requires CutAt(f, w, m)
    ensures f != [] && CutAt([[c] + f[0]] + f[1..], w, m)
  {
    assert ([[c] + f[0]] + f[1..])[m..] == f[m..];
  }

  lemma CutNowhere(f: seq<Text>)
    requires f != []
    ensures CutAt(f, f, 1)
  {
  }

  lemma SplitStep(t: Text)
    requires t != []
    ensures IsBreak(t[0]) ==> SplitLines(t) == [[]] + SplitLines(t[BreakSize(t)..])
    ensures !IsBreak(t[0]) && |t| > 1 ==>
              SplitLines(t) == [[t[0]] + SplitLines(t[1..])[0]] + SplitLines(t[1..])[1..]
  {
  }

  /** Cutting a text at p: all lines after the cut one stay lines, and the cut one keeps a suffix. */
  lemma {:induction false} CutLines(t: Text, p: nat) returns (m: nat)
    requires p < |t|
    ensures CutAt(SplitLines(t), SplitLines(t[p..]), m)
    decreases |t|
  {
    hide SplitLines, IsBreak, CutAt;
    if p == 0 {
      assert t[p..] == t;
      m := 1;
      CutNowhere(SplitLines(t));
    } else if !IsBreak(t[0]) {
      SplitStep(t);
      DropDrop(t, 1, p - 1);
      m := CutLines(t[1..], p - 1);
      CutLonger(t[0], SplitLines(t[1..]), SplitLines(t[p..]), m);
    } else if p < BreakSize(t) {
      // Between a carriage return and its line feed.
      BetweenBreak(t);
      m := 1;
      CutNowhere(SplitLines(t));
    } else {
      var n := BreakSize(t);
      SplitStep(t);
      DropDrop(t, n, p - n);
      var m' := CutLines(t[n..], p - n);
      CutLater([], SplitLines(t[n..]), SplitLines(t[p..]), m');
      m := m' + 1;
    }
  }

  lemma BetweenBreak(t: Text)
    requires t != [] && IsBreak(t[0]) && BreakSize(t) == 2
    ensures SplitLines(t[1..]) == SplitLines(t)
  {
    DropDrop(t, 1, 1);
    SplitStep(t);
    SplitStep(t[1..]);
  }

  lemma {:induction false} PlainLine(g: Text)
    requires g != [] && forall i | 0 <= i < |g| :: !IsBreak(g[i])
    ensures SplitLines(g) == [g]
  {
    if |g| > 1 {
      PlainLine(g[1..]);
      HeadAndTail(g);
    }
  }

  lemma SplitPlain(c: Point, t: Text)
    requires t != [] && !IsBreak(c)
    ensures SplitLines([c] + t) == [[c] + SplitLines(t)[0]] + SplitLines(t)[1..]
  {
    assert ([c] + t)[1..] == t;
  }

  /** Text without a line break only lengthens the first line of what follows. */
  lemma {:induction false} PrependPlain(g: Text, b: Text)
    requires b != [] && forall i | 0 <= i < |g| :: !IsBreak(g[i])
    ensures SplitLines(g + b) == [g + SplitLines(b)[0]] + SplitLines(b)[1..]
  {
    hide SplitLines, IsBreak;
    var first, rest := SplitLines(b)[0], SplitLines(b)[1..];
    if g == [] {
      assert g + b == b && g + first == first;
      HeadAndTail(SplitLines(b));
    } else {
      PrependPlain(g[1..], b);
      HeadAndTail(g);
      Regroup([g[0]], g[1..], b);
      SplitPlain(g[0], g[1..] + b);
      Regroup([g[0]], g[1..], first);
      ConsHead(g[1..] + first, rest);
    }
  }

  lemma ConsHead(line: Text, rest: seq<Text>)
    ensures ([line] + rest)[0] == line && ([line] + rest)[1..] == rest
  {
  }

  /** A line, a line feed, and what follows. */
  lemma LineThenFeed(line: Text, rest: Text)
    requires forall i | 0 <= i < |line| :: !IsBreak(line[i])
    ensures SplitLines(line + ([10] + rest)) == [line] + SplitLines(rest)
  {
    var tail := [10] + rest;
    assert tail[1..] == rest;
    assert SplitLines(tail) == [[]] + SplitLines(rest);
    PrependPlain(line, tail);
    assert line + [] == line;
  }

  /** Each of Python's line breaks ends a line, and a carriage return takes a line feed with it. */
  lemma LineThenBreak(line: Text, br: Text, rest: Text)
    requires forall i | 0 <= i < |line| :: !IsBreak(line[i])
    requires || br == [13, 10]
             || (|br| == 1 && br[0] in {10, 11, 12, 13, 28, 29, 30, 0x85, 0x2028, 0x2029})
    requires br == [13] ==> rest == [] || rest[0] != 10
    ensures SplitLines(line + (br + rest)) == [line] + SplitLines(rest)
  {
    var tail := br + rest;
    assert tail[|br|..] == rest;
    SplitStep(tail);
    PrependPlain(line, tail);
    assert line + [] == line;
  }

  lemma JoinFirst(c: Point, rest: seq<Text>, tail: seq<Text>)
    requires rest != []
    ensures [[c] + (rest + tail)[0]] + (rest + tail)[1..] == ([[c] + rest[0]] + rest[1..]) + tail
  {
  }

  /** After a final line feed, more text only adds lines. */
  lemma {:induction false} SplitAppend(a: Text, b: Text)
    requires a == [] || a[|a| - 1] == 10
    ensures SplitLines(a + b) == SplitLines(a) + SplitLines(b)
    decreases |a|
  {
    if a == [] {
      assert a + b == b;
    } else if IsBreak(a[0]) {
      var n := BreakSize(a);
      assert (a + b)[n..] == a[n..] + b;
      SplitAppend(a[n..], b);
      Regroup([[]], SplitLines(a[n..]), SplitLines(b));
    } else {
      assert (a + b)[1..] == a[1..] + b;
      SplitAppend(a[1..], b);
      JoinFirst(a[0], SplitLines(a[1..]), SplitLines(b));
    }
  }
}
