// expand and unexpand (kernel/core/kernel.c:1142-1233): what they do to the
// columns of a text.
module Tabs {
  import opened ModArith

  // ---- Columns ----

  // The next tab stop.
  function Next(col: nat, w: nat): (n: nat)
    requires w > 0
    ensures col < n <= col + w
  {
    StopAfter(col, w);
    (col / w + 1) * w
  }

  lemma StopAfter(col: nat, w: nat)
    requires w > 0
    ensures col < (col / w + 1) * w <= col + w
  {
    var q, r := col / w, col % w;
    assert col == q * w + r;
    Distribute(q, w);
  }

  lemma NextIs(col: nat, w: nat)
    requires w > 0
    ensures col + 1 < Next(col, w) ==> Next(col + 1, w) == Next(col, w)
    ensures Next(col + 1, w) >= Next(col, w)
  {
    var q, r := col / w, col % w;
    assert col == q * w + r;
    Distribute(q, w);
    if r + 1 < w {
      DivModUnique(col + 1, q, r + 1, w);
    } else {
      DivModUnique(col + 1, q + 1, 0, w);
      Distribute(q + 1, w);
    }
  }

  lemma Distribute(q: nat, w: nat)
    ensures (q + 1) * w == q * w + w
  {}

  function Advance(col: nat, c: char, w: nat): nat
    requires w > 0
  {
    if c == '\t' then Next(col, w) else if c == '\n' then 0 else col + 1
  }

  // The column after s.
  function Column(col: nat, s: string, w: nat): nat
    requires w > 0
    decreases |s|
  {
    if s == "" then col else Column(Advance(col, s[0], w), s[1..], w)
  }

  function Spaces(n: nat): (t: string)
    ensures |t| == n && forall i :: 0 <= i < n ==> t[i] == ' '
  {
    seq(n, i => ' ')
  }

  // Every tab becomes the spaces to the next stop.
  function Expand(col: nat, s: string, w: nat): string
    requires w > 0
    decreases |s|
  {
    if s == "" then ""
    else (if s[0] == '\t' then Spaces(Next(col, w) - col) else [s[0]])
         + Expand(Advance(col, s[0], w), s[1..], w)
  }

  predicate IsBlank(c: char) {
    c == ' ' || c == '\t'
  }

  predicate Blanks(s: string) {
    forall i :: 0 <= i < |s| ==> IsBlank(s[i])
  }

  lemma {:induction false} ColumnAppend(col: nat, s: string, t: string, w: nat)
    requires w > 0
    ensures Column(col, s + t, w) == Column(Column(col, s, w), t, w)
    decreases |s|
  {
    if s == "" {
      assert s + t == t;
    } else {
      assert (s + t)[1..] == s[1..] + t;
      ColumnAppend(Advance(col, s[0], w), s[1..], t, w);
    }
  }

  lemma {:induction false} ExpandAppend(col: nat, s: string, t: string, w: nat)
    requires w > 0
    ensures Expand(col, s + t, w) == Expand(col, s, w) + Expand(Column(col, s, w), t, w)
    decreases |s|
  {
    if s == "" {
      assert s + t == t;
    } else {
      assert (s + t)[1..] == s[1..] + t;
      ExpandAppend(Advance(col, s[0], w), s[1..], t, w);
    }
  }

  // A run of blanks is the columns it covers.
  lemma {:induction false} BlankRun(col: nat, b: string, w: nat)
    requires w > 0 && Blanks(b)
    ensures Column(col, b, w) >= col + |b| && Expand(col, b, w) == Spaces(Column(col, b, w) - col)
    decreases |b|
  {
    if b != "" {
      var c := Advance(col, b[0], w);
      BlankRun(c, b[1..], w);
      assert Expand(col, b, w) == Spaces(c - col) + Spaces(Column(c, b[1..], w) - c);
    } else {
      assert Spaces(0) == "";
    }
  }

  // ---- What expanding is ----

  // The characters behind the last newline.
  function LineLength(t: string): nat {
    if t == "" || t[|t| - 1] == '\n' then 0 else LineLength(t[..|t| - 1]) + 1
  }

  lemma {:induction false} LineLengthIs(front: string, line: string)
    requires '\n' !in line && (front == "" || front[|front| - 1] == '\n')
    ensures LineLength(front + line) == |line|
    decreases |line|
  {
    if line == "" {
      assert front + line == front;
    } else {
      assert (front + line)[..|front + line| - 1] == front + line[..|line| - 1];
      LineLengthIs(front, line[..|line| - 1]);
    }
  }

  lemma LineLengthNext(t: string, c: char)
    ensures LineLength(t + [c]) == if c == '\n' then 0 else LineLength(t) + 1
  {
    assert (t + [c])[..|t|] == t;
  }

  lemma {:induction false} LineLengthSpaces(t: string, n: nat)
    ensures LineLength(t + Spaces(n)) == LineLength(t) + n
  {
    if n == 0 {
      assert t + Spaces(0) == t;
    } else {
      assert t + Spaces(n) == t + Spaces(n - 1) + " ";
      LineLengthSpaces(t, n - 1);
      LineLengthNext(t + Spaces(n - 1), ' ');
    }
  }

  lemma ExpandOne(col: nat, c: char, w: nat)
    requires w > 0
    ensures Next(col, w) > col
    ensures Expand(col, [c], w) == (if c == '\t' then Spaces(Next(col, w) - col) else [c]) && Column(col, [c], w) == Advance(col, c, w)
  {
    assert [c][1..] == "" && Expand(Advance(col, c, w), "", w) == "";
  }

  // The column is where the expanded line ends.
  lemma {:induction false} ColumnIs(s: string, w: nat)
    requires w > 0
    ensures Column(0, s, w) == LineLength(Expand(0, s, w))
  {
    hide Next, Expand, Column, LineLength;
    if s == "" {
      NothingYet(w);
    } else {
      var p, c := s[..|s| - 1], s[|s| - 1];
      assert s == p + [c];
      ColumnIs(p, w);
      var col := Column(0, p, w);
      ExpandAppend(0, p, [c], w);
      ColumnAppend(0, p, [c], w);
      ExpandOne(col, c, w);
      if c == '\t' {
        LineLengthSpaces(Expand(0, p, w), Next(col, w) - col);
      } else {
        LineLengthNext(Expand(0, p, w), c);
      }
    }
  }

  lemma NothingYet(w: nat)
    requires w > 0
    ensures Column(0, "", w) == 0 && Expand(0, "", w) == "" && LineLength("") == 0
  {}

  // Character by character: with front + line the output so far and line its
  // last line, a tab adds one to w spaces and ends at a multiple of w; any
  // other character is copied.
  lemma ExpandMeans(p: string, c: char, w: nat, front: string, line: string) returns (k: nat)
    requires w > 0 && Expand(0, p, w) == front + line
    requires '\n' !in line && (front == "" || front[|front| - 1] == '\n')
    ensures c != '\t' ==> Expand(0, p + [c], w) == front + line + [c]
    ensures c == '\t' ==>
              && 1 <= k <= w && (|line| + k) % w == 0
              && Expand(0, p + [c], w) == front + line + seq(k, i => ' ')
    ensures Expand(0, "", w) == ""
  {
    hide Expand, Column, LineLength;
    var col := Column(0, p, w);
    ColumnIs(p, w);
    LineLengthIs(front, line);
    ExpandAppend(0, p, [c], w);
    ExpandOne(col, c, w);
    NothingYet(w);
    StopAfter(col, w);
    k := Next(col, w) - col;
    assert (|line| + k) % w == 0 by { DivModUnique((col / w + 1) * w, col / w + 1, 0, w); }
    assert Spaces(k) == seq(k, i => ' ');
  }

  // ---- The fewest blanks for a run ----

  function Flush(from: nat, to: nat, w: nat): (b: string)
    requires w > 0
    decreases if from <= to then to - from else 0
  {
    if Next(from, w) <= to then
      (if Next(from, w) - from >= 2 then "\t" + Flush(Next(from, w), to, w) else " " + Flush(from + 1, to, w))
    else if from < to then " " + Flush(from + 1, to, w)
    else ""
  }

  lemma {:induction false} FlushCovers(from: nat, to: nat, w: nat)
    requires w > 0 && from <= to
    ensures Blanks(Flush(from, to, w)) && Column(from, Flush(from, to, w), w) == to
    decreases if from <= to then to - from else 0
  {
    hide Next;
    var b := Flush(from, to, w);
    if from < to {
      FlushFirst(from, to, w);
      FlushCovers(Advance(from, b[0], w), to, w);
    }
  }

  // The first character of the run moves to the next stop, if that is not too far.
  lemma FlushFirst(from: nat, to: nat, w: nat)
    requires w > 0 && from < to
    ensures var b := Flush(from, to, w);
            && b != "" && IsBlank(b[0])
            && var c := Advance(from, b[0], w);
               && from < c <= to && c == (if Next(from, w) <= to then Next(from, w) else from + 1)
               && b[1..] == Flush(c, to, w)
  {
    hide Next;
    var b := Flush(from, to, w);
    if Next(from, w) <= to && Next(from, w) - from >= 2 {
      assert b == "\t" + Flush(Next(from, w), to, w);
    } else {
      assert b == " " + Flush(from + 1, to, w);
    }
  }

  // A flushed run has a tab just where the next stop is not past the end and
  // at least two columns away.
  lemma {:induction false} FlushMeans(from: nat, to: nat, w: nat, i: nat)
    requires w > 0 && from <= to && i < |Flush(from, to, w)|
    ensures var b := Flush(from, to, w);
            var c := Column(from, b[..i], w);
            var stop := (c / w + 1) * w;
            b[i] == if stop <= to && stop - c >= 2 then '\t' else ' '
    decreases i
  {
    var b := Flush(from, to, w);
    if from == to { FlushNone(from, w); }
    FlushFirst(from, to, w);
    if i == 0 {
      assert b[..0] == "";
    } else {
      var c := Advance(from, b[0], w);
      FlushMeans(c, to, w, i - 1);
      assert b[..i][1..] == b[1..][..i - 1];
    }
  }

  // Starting later never costs more.
  lemma {:induction false} FlushShrinks(from: nat, to: nat, w: nat)
    requires w > 0 && from < to
    ensures |Flush(from + 1, to, w)| <= |Flush(from, to, w)|
    decreases if from <= to then to - from else 0
  {
    hide Flush, Next;
    NextIs(from, w);
    FlushFirst(from, to, w);
    if Next(from, w) <= to {
      if from + 1 < Next(from, w) {
        FlushFirst(from + 1, to, w);
      }
    } else if from + 1 < to {
      FlushFirst(from + 1, to, w);
    }
  }

  lemma {:induction false} FlushMonotone(a: nat, b: nat, to: nat, w: nat)
    requires w > 0 && a <= b <= to
    ensures |Flush(b, to, w)| <= |Flush(a, to, w)|
    decreases b - a
  {
    if a < b {
      FlushShrinks(a, to, w);
      FlushMonotone(a + 1, b, to, w);
    }
  }

  // No other blanks over the same columns are shorter.
  lemma {:induction false} FlushFewest(from: nat, b: string, w: nat)
    requires w > 0 && Blanks(b)
    ensures |Flush(from, Column(from, b, w), w)| <= |b|
    decreases |b|
  {
    var to := Column(from, b, w);
    if b == "" {
      FlushNone(from, w);
    } else {
      var c := Advance(from, b[0], w);
      BlankRun(c, b[1..], w);
      FlushFewest(c, b[1..], w);
      FlushFirst(from, to, w);
      var first := if Next(from, w) <= to then Next(from, w) else from + 1;
      hide Flush;
      FlushMonotone(c, first, to, w);
    }
  }

  lemma FlushNone(col: nat, w: nat)
    requires w > 0
    ensures Flush(col, col, w) == ""
  {
    hide Next;
  }

  // ---- unexpand ----

  // The length of the blanks that s starts with.
  function Run(s: string): (n: nat)
    ensures n <= |s| && Blanks(s[..n]) && (n < |s| ==> !IsBlank(s[n]))
    ensures s != "" && IsBlank(s[0]) ==> n > 0
  {
    if s != "" && IsBlank(s[0]) then
      var n := 1 + Run(s[1..]);
      assert s[..n] == [s[0]] + s[1..][..n - 1];
      n
    else 0
  }

  // Whether blanks are still converted after c.
  function Converting(convert: bool, c: char, all: bool): bool {
    if c == '\n' then true else if IsBlank(c) then convert else convert && all
  }

  // While convert holds, each maximal run of blanks is flushed as one.
  function Unexpand(s: string, col: nat, convert: bool, all: bool, w: nat): string
    requires w > 0
    decreases |s|
  {
    if s == "" then ""
    else if convert && IsBlank(s[0]) then
      var n := Run(s);
      var to := Column(col, s[..n], w);
      Flush(col, to, w) + Unexpand(s[n..], to, convert, all, w)
    else [s[0]] + Unexpand(s[1..], Advance(col, s[0], w), Converting(convert, s[0], all), all, w)
  }

  // Expanding the output gives what expanding the original gives.
  lemma {:induction false} ExpandUnexpand(s: string, col: nat, convert: bool, all: bool, w: nat)
    requires w > 0
    ensures Expand(col, Unexpand(s, col, convert, all, w), w) == Expand(col, s, w)
    decreases |s|
  {
    hide Next, Flush;
    if s != "" {
      if convert && IsBlank(s[0]) {
        var n := Run(s);
        var to := Column(col, s[..n], w);
        var f, rest := Flush(col, to, w), Unexpand(s[n..], to, convert, all, w);
        BlankRun(col, s[..n], w);
        FlushCovers(col, to, w);
        BlankRun(col, f, w);
        ExpandAppend(col, s[..n], s[n..], w);
        ExpandAppend(col, f, rest, w);
        assert s == s[..n] + s[n..];
        ExpandUnexpand(s[n..], to, convert, all, w);
      } else {
        var rest := Unexpand(s[1..], Advance(col, s[0], w), Converting(convert, s[0], all), all, w);
        ExpandUnexpand(s[1..], Advance(col, s[0], w), Converting(convert, s[0], all), all, w);
        assert ([s[0]] + rest)[1..] == rest;
      }
    }
  }

  // The output is never longer than the input.
  lemma {:induction false} UnexpandShrinks(s: string, col: nat, convert: bool, all: bool, w: nat)
    requires w > 0
    ensures |Unexpand(s, col, convert, all, w)| <= |s|
    decreases |s|
  {
    hide Flush;
    if s != "" {
      if convert && IsBlank(s[0]) {
        var n := Run(s);
        FlushFewest(col, s[..n], w);
        UnexpandShrinks(s[n..], Column(col, s[..n], w), convert, all, w);
      } else {
        UnexpandShrinks(s[1..], Advance(col, s[0], w), Converting(convert, s[0], all), all, w);
      }
    }
  }

  lemma SplitRun(s: string, col: nat, w: nat)
    requires w > 0
    ensures var n := Run(s);
            var to := Column(col, s[..n], w);
            to >= col && Expand(col, s, w) == Spaces(to - col) + Expand(to, s[n..], w)
  {
    var n := Run(s);
    BlankRun(col, s[..n], w);
    ExpandAppend(col, s[..n], s[n..], w);
    assert s == s[..n] + s[n..];
  }

  // What follows a run does not expand to a blank first.
  lemma NoBlankFirst(s: string, col: nat, w: nat)
    requires w > 0 && (s != "" ==> !IsBlank(s[0]))
    ensures Expand(col, s, w) == "" <==> s == ""
    ensures s != "" ==> Expand(col, s, w)[0] == s[0]
    ensures s != "" ==> Expand(col, s, w)[1..] == Expand(Advance(col, s[0], w), s[1..], w)
  {}

  lemma SameSpaces(m: nat, a: string, n: nat, b: string)
    requires Spaces(m) + a == Spaces(n) + b
    requires (a == "" || a[0] != ' ') && (b == "" || b[0] != ' ')
    ensures m == n && a == b
  {
    var t := Spaces(m) + a;
    assert t[m..] == a && t[n..] == b;
    assert m < |t| ==> t[m] == a[0];
    assert n < |t| ==> t[n] == b[0];
    if n < m { SpaceAt(m, a, n); }
    if m < n { SpaceAt(n, b, m); }
  }

  lemma SpaceAt(m: nat, a: string, k: nat)
    requires k < m
    ensures (Spaces(m) + a)[k] == ' '
  {}

  // Texts that expand alike have the same -a output.
  lemma {:induction false} UnexpandCanonical(s: string, t: string, col: nat, w: nat)
    requires w > 0 && Expand(col, s, w) == Expand(col, t, w)
    ensures Unexpand(s, col, true, true, w) == Unexpand(t, col, true, true, w)
    decreases |s| + |t|
  {
    hide Flush, Next, Expand, Unexpand, Column;
    var m, n := Run(s), Run(t);
    var a, b := Column(col, s[..m], w), Column(col, t[..n], w);
    var x, y := s[m..], t[n..];
    SplitRun(s, col, w);
    SplitRun(t, col, w);
    NoBlankFirst(x, a, w);
    NoBlankFirst(y, b, w);
    SameSpaces(a - col, Expand(a, x, w), b - col, Expand(b, y, w));
    AfterRun(s, col, w);
    AfterRun(t, col, w);
    if x != "" {
      UnexpandCanonical(x[1..], y[1..], Advance(a, x[0], w), w);
    }
  }

  // A text is its leading run, flushed, then the first other character.
  lemma AfterRun(s: string, col: nat, w: nat)
    requires w > 0
    ensures var n := Run(s);
            var to := Column(col, s[..n], w);
            var x := s[n..];
            Unexpand(s, col, true, true, w) ==
            Flush(col, to, w) + if x == "" then "" else [x[0]] + Unexpand(x[1..], Advance(to, x[0], w), true, true, w)
  {
    var n := Run(s);
    FlushNone(col, w);
    hide Flush;
    if n == 0 { assert s[..0] == "" && s[0..] == s; }
  }

  // unexpand -a gives the shortest text of all that expand to the same.
  lemma UnexpandShortest(s: string, t: string, w: nat)
    requires w > 0 && Expand(0, s, w) == Expand(0, t, w)
    ensures |Unexpand(s, 0, true, true, w)| <= |t|
  {
    hide Unexpand, Expand;
    UnexpandCanonical(s, t, 0, w);
    UnexpandShrinks(t, 0, true, true, w);
  }

  lemma {:induction false} RunIs(b: string, t: string)
    requires Blanks(b) && (t != "" ==> !IsBlank(t[0]))
    ensures Run(b + t) == |b|
  {
    if b == "" {
      assert b + t == t;
    } else {
      assert (b + t)[1..] == b[1..] + t;
      RunIs(b[1..], t);
    }
  }

  lemma LeadingRun(b: string, x: string, w: nat)
    requires w > 0 && Blanks(b) && (x != "" ==> !IsBlank(x[0]))
    ensures var to := Column(0, b, w);
            Unexpand(b + x, 0, true, false, w) == Flush(0, to, w) + Unexpand(x, to, true, false, w)
  {
    hide Next;
    FlushNone(0, w);
    hide Flush;
    RunIs(b, x);
    assert (b + x)[..|b|] == b && (b + x)[|b|..] == x;
    if b == "" { assert b + x == x; }
  }

  // From the first other character of a line to its end nothing is converted.
  lemma {:induction false} CopyLine(r: string, t: string, col: nat, convert: bool, w: nat)
    requires w > 0 && '\n' !in r && (convert && r != "" ==> !IsBlank(r[0])) && (t != "" ==> t[0] == '\n')
    ensures Unexpand(r + t, col, convert, false, w) ==
            r + if t == "" then "" else "\n" + Unexpand(t[1..], 0, true, false, w)
    decreases |r|
  {
    hide Next;
    if r == "" {
      assert r + t == t;
    } else {
      assert (r + t)[1..] == r[1..] + t;
      CopyLine(r[1..], t, Advance(col, r[0], w), false, w);
    }
  }

  lemma LeadingLine(b: string, r: string, t: string, w: nat)
    requires w > 0 && Blanks(b) && '\n' !in r && (r != "" ==> !IsBlank(r[0])) && (t != "" ==> t[0] == '\n')
    ensures Unexpand(b + (r + t), 0, true, false, w) ==
            Flush(0, Column(0, b, w), w) + (r + if t == "" then "" else "\n" + Unexpand(t[1..], 0, true, false, w))
  {
    hide Flush, Next, Column, Unexpand;
    LeadingRun(b, r + t, w);
    CopyLine(r, t, Column(0, b, w), true, w);
  }

  // By default only the blanks that a line starts with are converted.
  lemma LeadingOnly(b: string, r: string, t: string, w: nat)
    requires w > 0 && Blanks(b) && '\n' !in r && (r != "" ==> !IsBlank(r[0]))
    ensures Unexpand(b + r, 0, true, false, w) == Flush(0, Column(0, b, w), w) + r
    ensures Unexpand(b + r + "\n" + t, 0, true, false, w) ==
            Flush(0, Column(0, b, w), w) + r + "\n" + Unexpand(t, 0, true, false, w)
  {
    hide Flush, Next, Column, Unexpand;
    var f, u := Flush(0, Column(0, b, w), w), Unexpand(t, 0, true, false, w);
    LeadingLine(b, r, "", w);
    assert b + (r + "") == b + r && f + (r + "") == f + r;
    LeadingLine(b, r, "\n" + t, w);
    assert ("\n" + t)[1..] == t;
    Append3(b, r, "\n", t);
    Append3(f, r, "\n", u);
  }

  lemma Append3(a: string, b: string, c: string, d: string)
    ensures a + (b + (c + d)) == a + b + c + d
  {}

  // With -a every run of blanks is, and what stands between is copied.
  lemma RunFlushed(b: string, c: char, t: string, col: nat, w: nat)
    requires w > 0 && Blanks(b) && !IsBlank(c)
    ensures Unexpand(b, col, true, true, w) == Flush(col, Column(col, b, w), w)
    ensures Unexpand(b + [c] + t, col, true, true, w) ==
            Flush(col, Column(col, b, w), w) + [c] +
            Unexpand(t, if c == '\n' then 0 else Column(col, b, w) + 1, true, true, w)
  {
    hide Unexpand, Flush, Column;
    var s := b + [c] + t;
    RunIs(b, [c] + t);
    assert b + ([c] + t) == s;
    AfterRun(s, col, w);
    assert s[|b|..] == [c] + t && s[..|b|] == b && ([c] + t)[1..] == t;
    RunIs(b, "");
    assert b + "" == b && b[..|b|] == b && b[|b|..] == "";
    AfterRun(b, col, w);
  }

  // ---- The commands ----

  // tabw below 1 is taken as 1.
  function Width(tabw: int): (w: nat)
    ensures w >= 1
  {
    if tabw < 1 then 1 else tabw
  }

  // One blank per column up to the next stop.
  method PutSpaces(col: nat, next: nat) returns (out: string)
    requires col <= next
    ensures out == Spaces(next - col)
  {
    out := "";
    var c := col;
    while c < next
      invariant col <= c <= next && out == Spaces(c - col)
    {
      out := out + " ";
      c := c + 1;
    }
  }

  method CmdExpand(buf: string, tab: int) returns (out: string)
    ensures out == Expand(0, buf, if tab < 1 then 1 else tab)
  {
    hide Expand, Next;
    var tabw := Width(tab);
    out := "";
    var col: nat := 0;
    ExpandStart(buf, tabw);
    for i := 0 to |buf|
      invariant out + Expand(col, buf[i..], tabw) == Expand(0, buf, tabw)
    {
      var c := buf[i];
      ExpandNext(col, buf, i, tabw);
      ghost var rest := Expand(Advance(col, c, tabw), buf[i + 1..], tabw);
      if c == '\t' {
        var next := Next(col, tabw);
        var spaces := PutSpaces(col, next);
        Append2(out, spaces, rest);
        out := out + spaces;
        col := next;
      } else if c == '\n' {
        Append(out, c, rest);
        out := out + [c];
        col := 0;
      } else {
        Append(out, c, rest);
        out := out + [c];
        col := col + 1;
      }
    }
    ExpandEnd(col, buf, tabw);
    assert out + "" == out;
  }

  lemma ExpandStart(buf: string, w: nat)
    requires w > 0
    ensures "" + Expand(0, buf[0..], w) == Expand(0, buf, w)
  {
    assert buf[0..] == buf;
  }

  lemma ExpandEnd(col: nat, buf: string, w: nat)
    requires w > 0
    ensures buf[|buf|..] == "" && Expand(col, "", w) == ""
  {}

  lemma ExpandNext(col: nat, buf: string, i: nat, w: nat)
    requires w > 0 && i < |buf|
    ensures Next(col, w) > col
    ensures Expand(col, buf[i..], w) ==
            (if buf[i] == '\t' then Spaces(Next(col, w) - col) else [buf[i]]) + Expand(Advance(col, buf[i], w), buf[i + 1..], w)
  {
    assert buf[i..][1..] == buf[i + 1..];
  }

  lemma FlushStep(c: nat, to: nat, w: nat)
    requires w > 0
    ensures Next(c, w) <= to ==>
              Flush(c, to, w) == if Next(c, w) - c >= 2 then "\t" + Flush(Next(c, w), to, w) else " " + Flush(c + 1, to, w)
    ensures Next(c, w) > to ==> Flush(c, to, w) == if c < to then " " + Flush(c + 1, to, w) else ""
  {
    hide Next;
  }

  lemma Append(a: string, c: char, b: string)
    ensures a + ([c] + b) == (a + [c]) + b
  {}

  // Step from stop to stop, then the columns short of a stop.
  method UnexpandFlush(from: nat, to: nat, tabw: nat) returns (out: string)
    requires tabw > 0
    ensures out == Flush(from, to, tabw)
  {
    hide Next, Flush;
    out := "";
    var c := from;
    while Next(c, tabw) <= to
      invariant out + Flush(c, to, tabw) == Flush(from, to, tabw)
      decreases if c <= to then to - c else 0
    {
      FlushStep(c, to, tabw);
      var nt := Next(c, tabw);
      if nt - c >= 2 {
        Append(out, '\t', Flush(nt, to, tabw));
        out := out + "\t";
        c := nt;
      } else {
        Append(out, ' ', Flush(c + 1, to, tabw));
        out := out + " ";
        c := c + 1;
      }
    }
    while c < to
      invariant out + Flush(c, to, tabw) == Flush(from, to, tabw) && Next(c, tabw) > to
      decreases if c <= to then to - c else 0
    {
      FlushStep(c, to, tabw);
      NextIs(c, tabw);
      Append(out, ' ', Flush(c + 1, to, tabw));
      out := out + " ";
      c := c + 1;
    }
    FlushStep(c, to, tabw);
    assert out + "" == out;
  }

  // The state of the scan: out is final, and a run of blanks from runstart to
  // col is pending.
  ghost predicate Pending(buf: string, i: nat, out: string, col: nat, run: nat, runstart: nat,
                          convert: bool, all: bool, w: nat)
    requires w > 0
  {
    && i <= |buf|
    && (run > 0 ==> convert && runstart + run == col)
    && out + (if run > 0
              then Flush(runstart, Column(col, buf[i..][..Run(buf[i..])], w), w)
                   + Unexpand(buf[i..][Run(buf[i..])..], Column(col, buf[i..][..Run(buf[i..])], w), true, all, w)
              else Unexpand(buf[i..], col, convert, all, w))
       == Unexpand(buf, 0, true, all, w)
  }

  lemma PendingStart(buf: string, all: bool, w: nat)
    requires w > 0
    ensures Pending(buf, 0, "", 0, 0, 0, true, all, w)
  {
    assert buf[0..] == buf;
    hide Unexpand;
    assert "" + Unexpand(buf, 0, true, all, w) == Unexpand(buf, 0, true, all, w);
  }

  // The run of a text that starts with a blank.
  lemma RunNext(s: string, col: nat, w: nat)
    requires w > 0 && s != "" && IsBlank(s[0])
    ensures var n, c := Run(s[1..]), Advance(col, s[0], w);
            Run(s) == n + 1 && s[Run(s)..] == s[1..][n..] && Column(col, s[..Run(s)], w) == Column(c, s[1..][..n], w)
  {
    hide Next;
    var n := Run(s[1..]);
    assert s[..n + 1][1..] == s[1..][..n];
  }

  lemma PendingBlank(buf: string, i: nat, out: string, col: nat, run: nat, runstart: nat, all: bool, w: nat)
    requires w > 0 && i < |buf| && IsBlank(buf[i]) && Pending(buf, i, out, col, run, runstart, true, all, w)
    ensures var c, start := Advance(col, buf[i], w), if run == 0 then col else runstart;
            c > col && Pending(buf, i + 1, out, c, c - start, start, true, all, w)
  {
    var s := buf[i..];
    assert s[1..] == buf[i + 1..];
    RunNext(s, col, w);
    if run == 0 {
      hide Flush, Next;
      assert Unexpand(s, col, true, all, w) ==
             Flush(col, Column(col, s[..Run(s)], w), w) + Unexpand(s[Run(s)..], Column(col, s[..Run(s)], w), true, all, w);
    }
    hide Unexpand, Flush, Next;
  }

  lemma PendingFlush(buf: string, i: nat, out: string, col: nat, run: nat, runstart: nat, convert: bool, all: bool, w: nat)
    requires w > 0 && run > 0 && Pending(buf, i, out, col, run, runstart, convert, all, w) && (i < |buf| ==> !IsBlank(buf[i]))
    ensures Pending(buf, i, out + Flush(runstart, col, w), col, 0, runstart, convert, all, w)
  {
    hide Unexpand, Flush, Next;
    var s := buf[i..];
    assert Run(s) == 0;
    assert s[..0] == "" && s[0..] == s;
    assert Column(col, "", w) == col;
    Append2(out, Flush(runstart, col, w), Unexpand(s, col, true, all, w));
  }

  lemma Append2(a: string, b: string, c: string)
    ensures a + (b + c) == (a + b) + c
  {}

  lemma PendingOther(buf: string, i: nat, out: string, col: nat, runstart: nat, convert: bool, all: bool, w: nat)
    requires w > 0 && i < |buf| && Pending(buf, i, out, col, 0, runstart, convert, all, w) && !(convert && IsBlank(buf[i]))
    ensures Pending(buf, i + 1, out + [buf[i]], Advance(col, buf[i], w), 0, runstart, Converting(convert, buf[i], all), all, w)
  {
    hide Flush, Next;
    var s := buf[i..];
    assert s[1..] == buf[i + 1..];
    var rest := Unexpand(s[1..], Advance(col, s[0], w), Converting(convert, s[0], all), all, w);
    assert Unexpand(s, col, convert, all, w) == [s[0]] + rest;
    Append2(out, [s[0]], rest);
  }

  lemma PendingEnd(buf: string, out: string, col: nat, runstart: nat, convert: bool, all: bool, w: nat)
    requires w > 0 && Pending(buf, |buf|, out, col, 0, runstart, convert, all, w)
    ensures out == Unexpand(buf, 0, true, all, w)
  {
    assert buf[|buf|..] == "";
    assert out + "" == out;
  }

  method CmdUnexpand(buf: string, tab: int, all: bool) returns (out: string)
    ensures var w := if tab < 1 then 1 else tab;
            out == Unexpand(buf, 0, true, all, w) && Expand(0, out, w) == Expand(0, buf, w)
  {
    hide Unexpand, Next, Flush, Pending, Expand;
    var tabw := Width(tab);
    out := "";
    var col: nat, run: nat, runstart: nat, convert := 0, 0, 0, true;
    PendingStart(buf, all, tabw);
    for i := 0 to |buf|
      invariant Pending(buf, i, out, col, run, runstart, convert, all, tabw)
      invariant run > 0 ==> convert && runstart + run == col
    {
      var c := buf[i];
      if convert && (c == ' ' || c == '\t') {
        PendingBlank(buf, i, out, col, run, runstart, all, tabw);
        if run == 0 { runstart := col; }
        col := if c == '\t' then Next(col, tabw) else col + 1;
        run := col - runstart;
      } else {
        if run > 0 {
          PendingFlush(buf, i, out, col, run, runstart, convert, all, tabw);
          var flushed := UnexpandFlush(runstart, col, tabw);
          out := out + flushed;
          run := 0;
        }
        PendingOther(buf, i, out, col, runstart, convert, all, tabw);
        if c == '\n' {
          out := out + "\n";
          col := 0;
          convert := true;
        } else if c == '\t' {
          out := out + "\t";
          col := Next(col, tabw);
        } else if c == ' ' {
          out := out + " ";
          col := col + 1;
        } else {
          out := out + [c];
          col := col + 1;
          if !all { convert := false; }
        }
      }
    }
    if run > 0 {
      PendingFlush(buf, |buf|, out, col, run, runstart, convert, all, tabw);
      var flushed := UnexpandFlush(runstart, col, tabw);
      out := out + flushed;
    }
    PendingEnd(buf, out, col, runstart, convert, all, tabw);
    ExpandUnexpand(buf, 0, true, all, tabw);
  }
}
