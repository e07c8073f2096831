// The line diff program (user/diff.c:23-104).
module Diff {
  import opened DiffModel

  const MAX_LINES: nat := 200
  const BUF_CAP: nat := 32768

  newtype int16 = x: int | -0x8000 <= x < 0x8000

  type Line = string

  // ---- Loading ----

  function LineEnd(s: string): (e: nat)
    ensures e <= |s| && '\n' !in s[..e] && (e < |s| ==> s[e] == '\n')
  {
    if s == [] || s[0] == '\n' then 0
    else
      var k := LineEnd(s[1..]);
      assert s[..1 + k] == [s[0]] + s[1..][..k];
      1 + k
  }

  function Lines(s: string): seq<Line>
    decreases |s|
  {
    if s == [] then []
    else
      var e := LineEnd(s);
      [s[..e]] + Lines(if e < |s| then s[e + 1..] else [])
  }

  // The lines written out again, each with its newline.
  function Unlines(ls: seq<Line>): string {
    if ls == [] then [] else ls[0] + "\n" + Unlines(ls[1..])
  }

  function Terminated(s: string): string {
    if s == [] || s[|s| - 1] == '\n' then s else s + "\n"
  }

  function Rest(s: string): string {
    var e := LineEnd(s);
    if e < |s| then s[e + 1..] else []
  }

  lemma LinesStep(s: string)
    requires s != []
    ensures Lines(s) == [s[..LineEnd(s)]] + Lines(Rest(s)) && |Rest(s)| < |s|
  {}

  lemma JoinTerminated(x: string, rest: string)
    ensures Terminated(x + "\n" + rest) == x + "\n" + Terminated(rest)
  {
    var s := x + "\n" + rest;
    if rest == [] {
      assert s[|s| - 1] == '\n';
    } else {
      assert s[|s| - 1] == rest[|rest| - 1];
      assert s + "\n" == x + "\n" + (rest + "\n");
    }
  }

  lemma LastLineTerminated(s: string)
    requires s != [] && '\n' !in s
    ensures Terminated(s) == s + "\n" + Terminated([])
  {
    assert s[|s| - 1] in s;
  }

  lemma TerminatedStep(s: string)
    requires s != []
    ensures Terminated(s) == s[..LineEnd(s)] + "\n" + Terminated(Rest(s))
  {
    hide Terminated;
    var e, rest := LineEnd(s), Rest(s);
    hide LineEnd;
    if e < |s| {
      assert s == s[..e] + "\n" + rest;
      JoinTerminated(s[..e], rest);
    } else {
      assert s[..e] == s;
      LastLineTerminated(s);
    }
  }

  lemma {:induction false} UnlinesLines(s: string)
    ensures Unlines(Lines(s)) == Terminated(s)
    decreases |s|
  {
    hide LineEnd, Terminated, Rest;
    if s == [] {
      NothingTerminated();
    } else {
      LinesStep(s);
      TerminatedStep(s);
      hide Lines;
      UnlinesLines(Rest(s));
      assert Lines(s)[1..] == Lines(Rest(s));
    }
  }

  lemma NothingTerminated()
    ensures Terminated([]) == []
  {}

  lemma LineEndIs(s: string, e: nat)
    requires e <= |s| && '\n' !in s[..e] && (e < |s| ==> s[e] == '\n')
    ensures LineEnd(s) == e
  {
    var k := LineEnd(s);
    hide LineEnd;
    if k < e { NotNewline(s, e, k); }
    if e < k { NotNewline(s, k, e); }
  }

  lemma NotNewline(s: string, e: int, k: int)
    requires 0 <= k < e <= |s| && '\n' !in s[..e]
    ensures s[k] != '\n'
  {
    assert s[..e][k] == s[k];
  }

  lemma {:induction false} LinesTerminated(s: string)
    ensures Lines(Terminated(s)) == Lines(s)
    decreases |s|
  {
    if s == [] {
      NothingTerminated();
    } else {
      var t, e := Terminated(s), LineEnd(s);
      TerminatedStep(s);
      hide Terminated;
      assert t[..e] == s[..e];
      LineEndIs(t, e);
      LinesStep(s);
      LinesStep(t);
      hide Lines, LineEnd;
      assert t[e + 1..] == Terminated(Rest(s));
      LinesTerminated(Rest(s));
    }
  }

  // Two files have the same lines exactly when they differ in nothing but a
  // missing final newline.
  lemma SameLines(s: string, t: string)
    ensures Lines(s) == Lines(t) <==> Terminated(s) == Terminated(t)
  {
    UnlinesLines(s);
    UnlinesLines(t);
    LinesTerminated(s);
    LinesTerminated(t);
  }

  function Min(x: nat, y: nat): nat {
    if x <= y then x else y
  }

  // The lines diff compares: those of the first BUF_CAP bytes, at most MAX_LINES.
  function Loaded(file: string): seq<Line> {
    var ls := Lines(file[..Min(|file|, BUF_CAP)]);
    ls[..Min(|ls|, MAX_LINES)]
  }

  // The line that starts at i and ends before e.
  lemma LinesFrom(buf: string, i: nat, e: nat)
    requires i < |buf| && i <= e <= |buf| && '\n' !in buf[i..e] && (e < |buf| ==> buf[e] == '\n')
    ensures Lines(buf[i..]) == [buf[i..e]] + Lines(buf[if e < |buf| then e + 1 else e..])
  {
    var s := buf[i..];
    assert s[..e - i] == buf[i..e];
    LineEndIs(s, e - i);
    LinesStep(s);
    assert Rest(s) == buf[if e < |buf| then e + 1 else e..];
  }

  // The program's search for the end of a line.
  method ScanLine(buf: string, s: nat) returns (i: nat)
    requires s <= |buf|
    ensures s <= i <= |buf| && '\n' !in buf[s..i] && (i < |buf| ==> buf[i] == '\n')
  {
    i := s;
    while i < |buf| && buf[i] != '\n'
      invariant s <= i <= |buf| && '\n' !in buf[s..i]
    {
      assert buf[s..i + 1] == buf[s..i] + [buf[i]];
      i := i + 1;
    }
  }

  // The record o, l stands for the line.
  predicate Record(buf: string, o: int, l: int, line: Line) {
    0 <= o <= o + l <= |buf| && buf[o..o + l] == line
  }

  // Line records as offset and length into the buffer.
  method Load(file: string) returns (buf: string, off: array<int>, len: array<int>, nl: nat)
    ensures fresh(off) && fresh(len) && off.Length == len.Length == MAX_LINES
    ensures nl == |Loaded(file)| <= MAX_LINES
    ensures forall k :: 0 <= k < nl ==> Record(buf, off[k], len[k], Loaded(file)[k])
  {
    hide Lines, Record, Loaded, LineEnd, LoadedTo;
    off, len := new int[MAX_LINES], new int[MAX_LINES];
    buf := file[..Min(|file|, BUF_CAP)];
    var total := |buf|;
    nl := 0;
    var i := 0;
    ghost var got: seq<Line> := [];
    LoadStart(buf);
    while i < total && nl < MAX_LINES
      invariant i <= total && nl == |got| <= MAX_LINES
      invariant forall k :: 0 <= k < nl ==> Record(buf, off[k], len[k], got[k])
      invariant LoadedTo(buf, got, i)
      decreases total - i
    {
      var s := i;
      i := ScanLine(buf, s);
      LoadStep(buf, got, s, i);
      off[nl] := s;
      len[nl] := i - s;
      got := got + [buf[s..i]];
      nl := nl + 1;
      if i < total { i := i + 1; }
    }
    LoadedIs(file, buf, got, i);
  }

  ghost predicate LoadedTo(buf: string, got: seq<Line>, i: nat) {
    i <= |buf| && Lines(buf) == got + Lines(buf[i..])
  }

  lemma LoadStart(buf: string)
    ensures LoadedTo(buf, [], 0)
  {
    assert buf[0..] == buf;
  }

  lemma LoadStep(buf: string, got: seq<Line>, s: nat, i: nat)
    requires LoadedTo(buf, got, s) && s < |buf| && s <= i <= |buf|
    requires '\n' !in buf[s..i] && (i < |buf| ==> buf[i] == '\n')
    ensures LoadedTo(buf, got + [buf[s..i]], if i < |buf| then i + 1 else i) && Record(buf, s, i - s, buf[s..i])
  {
    hide Lines;
    LinesFrom(buf, s, i);
    var rest := Lines(buf[if i < |buf| then i + 1 else i..]);
    assert got + ([buf[s..i]] + rest) == (got + [buf[s..i]]) + rest;
  }

  lemma LoadedIs(file: string, buf: string, got: seq<Line>, i: nat)
    requires buf == file[..Min(|file|, BUF_CAP)] && i <= |buf| && |got| <= MAX_LINES
    requires LoadedTo(buf, got, i) && (i == |buf| || |got| == MAX_LINES)
    ensures got == Loaded(file)
  {
    LinesEnd(buf, i);
  }

  lemma LinesEnd(buf: string, i: nat)
    requires i <= |buf|
    ensures Lines(buf[i..]) == [] <==> i == |buf|
  {}

  // ---- Comparing ----

  method Eq(a: Line, b: Line) returns (same: bool)
    ensures same <==> a == b
  {
    if |a| != |b| { return false; }
    for i := 0 to |a|
      invariant a[..i] == b[..i]
    {
      if a[i] != b[i] { return false; }
    }
    return true;
  }

  ghost predicate Filled(a: seq<Line>, b: seq<Line>, lcs: array2<int16>, i: nat, j: nat)
    requires lcs.Length0 == lcs.Length1 == MAX_LINES + 1 && |a| <= MAX_LINES && |b| <= MAX_LINES
    reads lcs
  {
    forall x: nat, y: nat :: x <= |a| && y <= |b| && (x > i || (x == i && y >= j) || x == |a| || y == |b|) ==>
      lcs[x, y] as int == Lcs(a, b, x, y)
  }

  method FillTable(a: seq<Line>, b: seq<Line>) returns (lcs: array2<int16>)
    requires |a| <= MAX_LINES && |b| <= MAX_LINES
    ensures fresh(lcs) && lcs.Length0 == lcs.Length1 == MAX_LINES + 1
    ensures forall i: nat, j: nat :: i <= |a| && j <= |b| ==> lcs[i, j] as int == Lcs(a, b, i, j)
  {
    hide Lcs;
    lcs := new int16[MAX_LINES + 1, MAX_LINES + 1]((i, j) => 0);
    LcsEdges(a, b);
    var i := |a| - 1;
    while i >= 0
      invariant -1 <= i < |a|
      invariant Filled(a, b, lcs, i + 1, 0)
    {
      var j := |b| - 1;
      while j >= 0
        invariant -1 <= j < |b|
        invariant Filled(a, b, lcs, i, j + 1)
      {
        var same := Eq(a[i], b[j]);
        LcsStep(a, b, i, j);
        if same {
          lcs[i, j] := lcs[i + 1, j + 1] + 1;
        } else {
          lcs[i, j] := if lcs[i + 1, j] >= lcs[i, j + 1] then lcs[i + 1, j] else lcs[i, j + 1];
        }
        j := j - 1;
      }
      i := i - 1;
    }
  }

  lemma LcsEdges(a: seq<Line>, b: seq<Line>)
    ensures forall x: nat, y: nat :: x <= |a| && y <= |b| && (x == |a| || y == |b|) ==> Lcs(a, b, x, y) == 0
  {}

  // The step the path takes from i and j.
  method Choose(a: seq<Line>, b: seq<Line>, lcs: array2<int16>, i: nat, j: nat) returns (e: Edit)
    requires |a| <= MAX_LINES && |b| <= MAX_LINES && lcs.Length0 == lcs.Length1 == MAX_LINES + 1
    requires forall i: nat, j: nat :: i <= |a| && j <= |b| ==> lcs[i, j] as int == Lcs(a, b, i, j)
    requires i <= |a| && j <= |b| && (i < |a| || j < |b|)
    ensures e.Keep? ==> i < |a| && j < |b| && a[i] == b[j] && Lcs(a, b, i, j) == Lcs(a, b, i + 1, j + 1) + 1
    ensures e.Add? ==> j < |b| && Lcs(a, b, i, j) == Lcs(a, b, i, j + 1)
    ensures e.Delete? ==> i < |a| && Lcs(a, b, i, j) == Lcs(a, b, i + 1, j)
    ensures AddsFirstAt(a, b, i, j, e)
  {
    hide Lcs;
    LcsStep(a, b, i, j);
    var same := false;
    if i < |a| && j < |b| { same := Eq(a[i], b[j]); }
    if same {
      return Keep;
    } else if j < |b| && (i == |a| || lcs[i, j + 1] >= lcs[i + 1, j]) {
      return Add;
    } else {
      return Delete;
    }
  }

  // Follow an optimal path, recording keep, delete and add.
  method Walk(a: seq<Line>, b: seq<Line>, lcs: array2<int16>) returns (ops: array<Edit>, no: nat)
    requires |a| <= MAX_LINES && |b| <= MAX_LINES && lcs.Length0 == lcs.Length1 == MAX_LINES + 1
    requires forall i: nat, j: nat :: i <= |a| && j <= |b| ==> lcs[i, j] as int == Lcs(a, b, i, j)
    ensures fresh(ops) && no <= ops.Length
    ensures Complete(a, b, ops[..no]) && Count(ops[..no], Keep) == Lcs(a, b, 0, 0)
    ensures AddsFirst(a, b, ops[..no])
  {
    hide Reaches, Count, Lcs, AddsFirstAt;
    ops := new Edit[2 * MAX_LINES];
    var i, j := 0, 0;
    no := 0;
    StartScript(a, b);
    ghost var script: seq<Edit> := [];
    while i < |a| || j < |b|
      invariant i <= |a| && j <= |b| && no <= i + j
      invariant ops[..no] == script
      invariant Reaches(a, b, script, i, j) && AddsFirst(a, b, script)
      invariant Count(script, Keep) + Lcs(a, b, i, j) == Lcs(a, b, 0, 0)
      decreases |a| + |b| - i - j
    {
      var e := Choose(a, b, lcs, i, j);
      ops[no] := e;
      no := no + 1;
      Extend(a, b, script, e, i, j);
      FirstMore(a, b, script, e, i, j);
      script := script + [e];
      if e != Add { i := i + 1; }
      if e != Delete { j := j + 1; }
    }
    LcsEnd(a, b);
  }

  lemma FirstMore(a: seq<Line>, b: seq<Line>, script: seq<Edit>, e: Edit, i: nat, j: nat)
    requires i <= |a| && j <= |b| && Reaches(a, b, script, i, j) && AddsFirst(a, b, script)
    requires AddsFirstAt(a, b, i, j, e)
    ensures AddsFirst(a, b, script + [e])
  {
    hide AddsFirstAt, Reaches, Count;
    ReachesCounts(a, b, script, i, j);
    var more := script + [e];
    forall k | 0 <= k < |more| ensures AddsFirstAt(a, b, Used1(more[..k]), Used2(more[..k]), more[k]) {
      assert more[..k] == script[..k];
      if k == |script| { assert script[..k] == script; }
    }
  }

  lemma StartScript(a: seq<Line>, b: seq<Line>)
    ensures Reaches(a, b, [], 0, 0) && Count([], Keep) == 0
  {}

  lemma LcsEnd(a: seq<Line>, b: seq<Line>)
    ensures Lcs(a, b, |a|, |b|) == 0
  {}

  lemma LcsStep(a: seq<Line>, b: seq<Line>, i: nat, j: nat)
    requires i <= |a| && j <= |b|
    ensures i < |a| && j < |b| && a[i] == b[j] ==> Lcs(a, b, i, j) == Lcs(a, b, i + 1, j + 1) + 1
    ensures i < |a| && j < |b| && a[i] != b[j] ==>
              Lcs(a, b, i, j) == if Lcs(a, b, i, j + 1) >= Lcs(a, b, i + 1, j) then Lcs(a, b, i, j + 1) else Lcs(a, b, i + 1, j)
    ensures i == |a| && j < |b| ==> Lcs(a, b, i, j) == Lcs(a, b, i, j + 1)
    ensures i < |a| && j == |b| ==> Lcs(a, b, i, j) == Lcs(a, b, i + 1, j)
  {}

  lemma Extend(a: seq<Line>, b: seq<Line>, script: seq<Edit>, e: Edit, i: nat, j: nat)
    requires i <= |a| && j <= |b| && Reaches(a, b, script, i, j)
    ensures e.Keep? && i < |a| && j < |b| && a[i] == b[j] ==> Reaches(a, b, script + [e], i + 1, j + 1)
    ensures e.Delete? && i < |a| ==> Reaches(a, b, script + [e], i + 1, j)
    ensures e.Add? && j < |b| ==> Reaches(a, b, script + [e], i, j + 1)
    ensures Count(script + [e], Keep) == Count(script, Keep) + if e.Keep? then 1 else 0
  {
    assert (script + [e])[..|script|] == script;
  }

  // ---- Printing ----

  // Lines lo to hi, counted from 1.
  method Collect(lines: seq<Line>, lo: int, hi: int) returns (r: seq<Line>)
    requires 1 <= lo <= hi + 1 && hi <= |lines|
    ensures r == lines[lo - 1..hi]
  {
    r := [];
    var x := lo;
    while x <= hi
      invariant lo <= x <= hi + 1 && r == lines[lo - 1..x - 1]
    {
      r := r + [lines[x - 1]];
      x := x + 1;
    }
  }

  // A change, a deletion or an addition.
  method PrintHunk(a: seq<Line>, b: seq<Line>, dStart: int, dEnd: int, aStart: int, aEnd: int) returns (h: Hunk<Line>)
    requires 1 <= dStart <= dEnd + 1 && dEnd <= |a| && 1 <= aStart <= aEnd + 1 && aEnd <= |b|
    requires dStart <= dEnd || aStart <= aEnd
    ensures Before1(h) == dStart - 1 && Covers1(h) == dEnd - dStart + 1 && Removed(h) == a[dStart - 1..dEnd]
    ensures Before2(h) == aStart - 1 && Covers2(h) == aEnd - aStart + 1 && Inserted(h) == b[aStart - 1..aEnd]
    ensures WellFormed(h)
  {
    var nd, na := dEnd - dStart + 1, aEnd - aStart + 1;
    var dels := Collect(a, dStart, dEnd);
    var adds := Collect(b, aStart, aEnd);
    if nd > 0 && na > 0 {
      h := ChangeHunk(dStart, dEnd, aStart, aEnd, dels, adds);
    } else if nd > 0 {
      h := DeleteHunk(dStart, dEnd, aStart - 1, dels);
    } else {
      h := AddHunk(dStart - 1, aStart, aEnd, adds);
    }
  }

  // Group the script into runs without a keep, and print each.
  method Hunks(a: seq<Line>, b: seq<Line>, ops: seq<Edit>) returns (hs: seq<Hunk<Line>>, changed: bool)
    requires Complete(a, b, ops)
    ensures Applies(a, hs) && Patch(a, hs) == b
    ensures Applies(b, ReverseAll(hs)) && Patch(b, ReverseAll(hs)) == a
    ensures changed <==> hs != []
    ensures changed <==> Count(ops, Keep) < |ops|
    ensures Prints(ops, hs) && Separate(hs)
    ensures TotalRemoved(hs) == Count(ops, Delete) && TotalInserted(hs) == Count(ops, Add)
  {
    hide Reaches, Count, Complete, Balanced, Used1, Used2, Before1, Before2, Covers1, Covers2, Removed, Inserted,
         Applies, Patch, Prints, Separate, WellFormed;
    hs, changed := [], false;
    var k, l1, l2 := 0, 0, 0;
    NothingYet(a, b, ops);
    NothingPrinted<Line>();
    assert ops[..0] == [];
    while k < |ops|
      invariant k <= |ops| && l1 == Used1(ops[..k]) <= |a| && l2 == Used2(ops[..k]) <= |b|
      invariant Balanced(a, b, hs, l1, l2)
      invariant (changed <==> hs != []) && (changed <==> Count(ops[..k], Keep) < k) && Count(ops[..k], Keep) <= k
      invariant Prints(ops[..k], hs) && Separate(hs)
      invariant hs != [] ==> EndsBy(hs[|hs| - 1], l1, l2, k < |ops| && ops[k] != Keep)
      decreases |ops| - k
    {
      StepAt(a, b, ops, k);
      NextUsed(ops, k);
      if ops[k] == Keep {
        BalancedKeep(a, b, hs, l1, l2);
        KeepPrinted(ops, hs, k);
        l1, l2, k := l1 + 1, l2 + 1, k + 1;
      } else {
        var dStart, aStart := l1 + 1, l2 + 1;
        var nd, na, next := CountRun(a, b, ops, k);
        ghost var k0 := k;
        l1, l2, k := l1 + nd, l2 + na, next;
        var dEnd, aEnd := dStart + nd - 1, aStart + na - 1;
        changed := true;
        var h := PrintHunk(a, b, dStart, dEnd, aStart, aEnd);
        BalancedHunk(a, b, hs, dStart - 1, aStart - 1, h, l1, l2);
        RunPrinted(ops, hs, h, k0, k);
        if hs != [] { GapBy(hs[|hs| - 1], h, dStart - 1, aStart - 1); }
        SeparateMore(hs, h);
        EndsThere(h, l1, l2);
        hs := hs + [h];
      }
    }
    assert ops[..|ops|] == ops;
    AtEnd(a, b, ops);
    BalancedAll(a, b, hs);
    PrintsMeans(ops, hs);
  }

  // The hunk ends at or before lines i and j, before both if a change follows.
  predicate EndsBy(h: Hunk<Line>, i: int, j: int, follows: bool) {
    && Before1(h) + Covers1(h) <= i && Before2(h) + Covers2(h) <= j
    && (follows ==> Before1(h) + Covers1(h) < i && Before2(h) + Covers2(h) < j)
  }

  lemma GapBy(g: Hunk<Line>, h: Hunk<Line>, i: int, j: int)
    requires EndsBy(g, i, j, true) && Before1(h) == i && Before2(h) == j
    ensures Gap(g, h)
  {}

  lemma EndsThere(h: Hunk<Line>, i: int, j: int)
    requires Before1(h) + Covers1(h) == i && Before2(h) + Covers2(h) == j
    ensures EndsBy(h, i, j, false)
  {}

  lemma KeepPrinted(ops: seq<Edit>, hs: seq<Hunk<Line>>, k: nat)
    requires k < |ops| && ops[k] == Keep && Prints(ops[..k], hs)
    ensures Prints(ops[..k + 1], hs)
  {
    hide Count, Deletes, Adds, Removes, Inserts, TotalRemoved, TotalInserted, Used1, Used2;
    CountNext(ops, k, Delete);
    CountNext(ops, k, Add);
    forall x ensures Deletes(ops[..k + 1], x) == Deletes(ops[..k], x) && Adds(ops[..k + 1], x) == Adds(ops[..k], x) {
      DeletesNext(ops, k, x);
    }
  }

  // The hunk of the run from k to next.
  lemma RunPrinted(ops: seq<Edit>, hs: seq<Hunk<Line>>, h: Hunk<Line>, k: nat, next: nat)
    requires k <= next <= |ops| && Prints(ops[..k], hs) && RunIs(ops, k, next)
    requires Before1(h) == Used1(ops[..k]) && Covers1(h) == |Removed(h)| == Used1(ops[..next]) - Used1(ops[..k])
    requires Before2(h) == Used2(ops[..k]) && Covers2(h) == |Inserted(h)| == Used2(ops[..next]) - Used2(ops[..k])
    requires Count(ops[..next], Keep) == Count(ops[..k], Keep)
    ensures Prints(ops[..next], hs + [h])
  {
    hide Count, Deletes, Adds, Removes, Inserts, TotalRemoved, TotalInserted, Before1, Before2, Covers1, Covers2, Removed, Inserted;
    OneMore(hs, h);
  }

  // Between k and next the script deletes and adds everything it passes.
  ghost predicate RunIs(ops: seq<Edit>, k: nat, next: nat)
    requires k <= next <= |ops|
  {
    forall x ::
      && (Deletes(ops[..next], x) <==> Deletes(ops[..k], x) || Used1(ops[..k]) <= x < Used1(ops[..next]))
      && (Adds(ops[..next], x) <==> Adds(ops[..k], x) || Used2(ops[..k]) <= x < Used2(ops[..next]))
  }

  lemma RunStarts(ops: seq<Edit>, k: nat)
    requires k <= |ops|
    ensures RunIs(ops, k, k)
  {}

  lemma RunGoesOn(ops: seq<Edit>, k: nat, next: nat)
    requires k <= next < |ops| && ops[next] != Keep && RunIs(ops, k, next)
    requires Used1(ops[..k]) <= Used1(ops[..next]) && Used2(ops[..k]) <= Used2(ops[..next])
    ensures RunIs(ops, k, next + 1)
  {
    hide Count, Deletes, Adds;
    NextUsed(ops, next);
    forall x ensures
      && (Deletes(ops[..next + 1], x) <==> Deletes(ops[..k], x) || Used1(ops[..k]) <= x < Used1(ops[..next + 1]))
      && (Adds(ops[..next + 1], x) <==> Adds(ops[..k], x) || Used2(ops[..k]) <= x < Used2(ops[..next + 1]))
    {
      DeletesNext(ops, next, x);
    }
  }

  lemma NothingYet(a: seq<Line>, b: seq<Line>, ops: seq<Edit>)
    ensures Used1(ops[..0]) == 0 && Used2(ops[..0]) == 0 && Count(ops[..0], Keep) == 0
    ensures Balanced(a, b, [], 0, 0)
  {
    AccountsNone(a, b);
    AccountsNone(b, a);
    assert ReverseAll<Line>([]) == [];
  }

  // The inner loop: the run of deletes and adds that starts at k.
  method CountRun(a: seq<Line>, b: seq<Line>, ops: seq<Edit>, k: nat) returns (nd: nat, na: nat, next: nat)
    requires Complete(a, b, ops) && k < |ops| && ops[k] != Keep
    ensures k < next <= |ops| && nd + na == next - k
    ensures Used1(ops[..next]) == Used1(ops[..k]) + nd <= |a|
    ensures Used2(ops[..next]) == Used2(ops[..k]) + na <= |b|
    ensures Count(ops[..next], Keep) == Count(ops[..k], Keep)
    ensures next < |ops| ==> ops[next] == Keep
    ensures RunIs(ops, k, next)
  {
    hide Reaches, Count, Complete, RunIs;
    nd, na, next := 0, 0, k;
    StepAt(a, b, ops, k);
    RunStarts(ops, k);
    while next < |ops| && ops[next] != Keep
      invariant k <= next <= |ops| && nd + na == next - k
      invariant Used1(ops[..next]) == Used1(ops[..k]) + nd <= |a|
      invariant Used2(ops[..next]) == Used2(ops[..k]) + na <= |b|
      invariant Count(ops[..next], Keep) == Count(ops[..k], Keep)
      invariant RunIs(ops, k, next)
    {
      RunGoesOn(ops, k, next);
      StepAt(a, b, ops, next);
      NextUsed(ops, next);
      if ops[next] == Delete { nd := nd + 1; } else { na := na + 1; }
      next := next + 1;
    }
  }

  // The program on the lines it has loaded: the exit status, and hunks
  // that patch one file into the other, in both directions, with the fewest
  // possible deleted and added lines.
  method Compare(a: seq<Line>, b: seq<Line>) returns (hs: seq<Hunk<Line>>, status: int, ghost script: seq<Edit>)
    requires |a| <= MAX_LINES && |b| <= MAX_LINES
    ensures Complete(a, b, script) && Count(script, Keep) == Lcs(a, b, 0, 0) && AddsFirst(a, b, script)
    ensures Prints(script, hs) && Separate(hs)
    ensures Turns(a, b, hs) && Turns(b, a, ReverseAll(hs))
    ensures status == if a == b then 0 else 1
    ensures a == b <==> hs == []
  {
    hide Lcs, Complete, Applies, Patch, Count, Prints, Separate, AddsFirst;
    var lcs := FillTable(a, b);
    var ops, no := Walk(a, b, lcs);
    script := ops[..no];
    var changed;
    hs, changed := Hunks(a, b, ops[..no]);
    OnlyKeeps(a, b, script);
    CountBound(script, Keep);
    status := if changed then 1 else 0;
  }

  // The lines behind the records of a loaded file.
  method LoadLines(file: string) returns (lines: seq<Line>)
    ensures lines == Loaded(file)
  {
    hide Loaded;
    var buf, off, len, nl := Load(file);
    lines := [];
    for k := 0 to nl
      invariant lines == Loaded(file)[..k]
    {
      assert Record(buf, off[k], len[k], Loaded(file)[k]);
      lines := lines + [buf[off[k]..off[k] + len[k]]];
    }
  }

  // The hunks turn each file into the other, no hunks do so with fewer lines
  // removed or inserted, and at least one kept line stands between two of them.
  method DiffFiles(file1: string, file2: string) returns (hs: seq<Hunk<Line>>, status: int)
    ensures Turns(Loaded(file1), Loaded(file2), hs) && Turns(Loaded(file2), Loaded(file1), ReverseAll(hs))
    ensures forall other :: Turns(Loaded(file1), Loaded(file2), other) ==>
              TotalRemoved(hs) <= TotalRemoved(other) && TotalInserted(hs) <= TotalInserted(other)
    ensures Separate(hs)
    ensures forall k :: 0 <= k < |hs| ==> |Removed(hs[k])| + |Inserted(hs[k])| > 0
    ensures forall k :: 0 <= k < |hs| - 1 ==>
              && Before1(hs[k]) + Covers1(hs[k]) < Before1(hs[k + 1])
              && Before2(hs[k]) + Covers2(hs[k]) < Before2(hs[k + 1])
    ensures status == if Loaded(file1) == Loaded(file2) then 0 else 1
  {
    hide Lcs, Complete, Turns, Count, Prints, Separate, AddsFirst, TotalRemoved, TotalInserted;
    var a := LoadLines(file1);
    var b := LoadLines(file2);
    ghost var script;
    hs, status, script := Compare(a, b);
    SeparateMeans(hs);
    forall other | Turns(a, b, other)
      ensures TotalRemoved(hs) <= TotalRemoved(other) && TotalInserted(hs) <= TotalInserted(other)
    {
      FewestLines(a, b, script, hs, other);
    }
  }

  // ---- What status 0 means ----

  // The beginning of s up to its n-th newline.
  function Cut(s: string, n: nat): string
    decreases |s|
  {
    if s == [] || n == 0 then []
    else
      var e := LineEnd(s);
      if e < |s| then s[..e + 1] + Cut(s[e + 1..], n - 1) else s
  }

  // The part of a file that diff looks at, its last line ended.
  function Seen(file: string): string {
    Terminated(Cut(file[..Min(|file|, BUF_CAP)], MAX_LINES))
  }

  lemma CutFirst(s: string, n: nat)
    requires s != [] && n > 0
    ensures var e, t := LineEnd(s), Cut(s, n);
            && t != [] && LineEnd(t) == e && e <= |t| && t[..e] == s[..e] && Rest(t) == Cut(Rest(s), n - 1)
  {
    var e, t := LineEnd(s), Cut(s, n);
    if e < |s| {
      assert t[..e] == s[..e] && t[e] == '\n' && t[e + 1..] == Cut(s[e + 1..], n - 1);
    } else {
      assert Rest(s) == [];
    }
    LineEndIs(t, e);
  }

  lemma LinesNone()
    ensures Lines([]) == []
  {}

  lemma CutNone(s: string, n: nat)
    ensures s == [] || n == 0 ==> Cut(s, n) == []
  {}

  lemma TakeLines(x: Line, ls: seq<Line>, n: nat)
    requires n > 0
    ensures [x] + ls[..Min(|ls|, n - 1)] == ([x] + ls)[..Min(|[x] + ls|, n)]
  {}

  lemma {:induction false} CutLines(s: string, n: nat)
    ensures Lines(Cut(s, n)) == Lines(s)[..Min(|Lines(s)|, n)]
    decreases |s|
  {
    hide LineEnd, Rest, Cut, Lines;
    CutNone(s, n);
    LinesNone();
    if s != [] && n > 0 {
      CutFirst(s, n);
      LinesStep(s);
      LinesStep(Cut(s, n));
      CutLines(Rest(s), n - 1);
      TakeLines(s[..LineEnd(s)], Lines(Rest(s)), n);
    }
  }

  lemma LoadedCut(file: string)
    ensures Loaded(file) == Lines(Cut(file[..Min(|file|, BUF_CAP)], MAX_LINES))
  {
    CutLines(file[..Min(|file|, BUF_CAP)], MAX_LINES);
  }

  // Status 0 means that what diff looks at is identical: the first BUF_CAP
  // bytes up to the MAX_LINES-th newline, a missing final newline not counted.
  lemma StatusZeroExactly(file1: string, file2: string)
    ensures Loaded(file1) == Loaded(file2) <==> Seen(file1) == Seen(file2)
  {
    hide Lines, Loaded, Terminated, Cut;
    LoadedCut(file1);
    LoadedCut(file2);
    SameLines(Cut(file1[..Min(|file1|, BUF_CAP)], MAX_LINES), Cut(file2[..Min(|file2|, BUF_CAP)], MAX_LINES));
  }

  lemma {:induction false} CutNothing(s: string, n: nat)
    requires |Lines(s)| <= n
    ensures Cut(s, n) == s
    decreases |s|
  {
    hide LineEnd, Lines, Cut;
    CutNone(s, n);
    if s != [] {
      LinesStep(s);
      CutStep(s, n);
      var e := LineEnd(s);
      if e < |s| {
        CutNothing(s[e + 1..], n - 1);
        assert s == s[..e + 1] + s[e + 1..];
      }
    }
  }

  lemma CutStep(s: string, n: nat)
    requires s != [] && n > 0
    ensures var e := LineEnd(s); Cut(s, n) == if e < |s| then s[..e + 1] + Cut(s[e + 1..], n - 1) else s
  {
    hide LineEnd;
  }

  // For files within the limits that is the whole file.
  lemma SeesAll(file: string)
    requires |file| <= 32768 && |Lines(file)| <= 200
    ensures Seen(file) == Terminated(file)
  {
    hide Lines, Terminated, Cut;
    assert file[..|file|] == file;
    CutNothing(file, MAX_LINES);
  }

  // Two different files that diff calls identical.
  lemma MissesFinalNewline()
    ensures "a" != "a\n" && Seen("a") == Seen("a\n") && Loaded("a") == Loaded("a\n")
  {
    assert Terminated("a") == "a\n" == Terminated("a\n");
    assert LineEnd("a") == 1 && LineEnd("a\n") == 1;
    LinesStep("a");
    LinesStep("a\n");
    assert Rest("a") == "" && Rest("a\n") == "" && Lines("") == [];
    SeesAll("a");
    SeesAll("a\n");
    StatusZeroExactly("a", "a\n");
  }

  // What follows the first 32768 bytes is never noticed.
  lemma MissesPastBytes(file: string, more: string)
    requires |file| >= 32768
    ensures Loaded(file + more) == Loaded(file)
  {
    assert (file + more)[..BUF_CAP] == file[..BUF_CAP];
  }

  lemma JoinFirst(s: string, t: string)
    requires s != [] && Terminated(s) == s
    ensures LineEnd(s + t) == LineEnd(s) && (s + t)[..LineEnd(s)] == s[..LineEnd(s)] && Rest(s + t) == Rest(s) + t
    ensures Terminated(Rest(s)) == Rest(s)
  {
    hide Terminated;
    EndsWithNewline(s);
    var e := LineEnd(s);
    hide LineEnd;
    assert (s + t)[..e] == s[..e] && (s + t)[e] == '\n';
    LineEndIs(s + t, e);
  }

  lemma {:induction false} LinesJoin(s: string, t: string)
    requires Terminated(s) == s
    ensures Lines(s + t) == Lines(s) + Lines(t)
    decreases |s|
  {
    hide Terminated, LineEnd, Rest, Lines;
    if s == [] {
      assert s + t == t;
      LinesNone();
    } else {
      JoinFirst(s, t);
      LinesStep(s);
      LinesStep(s + t);
      LinesJoin(Rest(s), t);
    }
  }

  lemma EndsWithNewline(s: string)
    requires s != [] && Terminated(s) == s
    ensures LineEnd(s) < |s| && Terminated(Rest(s)) == Rest(s)
  {
    var e := LineEnd(s);
    assert s[|s| - 1] == '\n';
    if e == |s| { NotNewline(s, e, |s| - 1); }
  }

  // Nor is what follows 200 lines.
  lemma MissesPastLines(file: string, more: string)
    requires Terminated(file) == file && |Lines(file)| >= 200
    ensures Loaded(file + more) == Loaded(file)
  {
    hide Lines, Terminated;
    if |file| >= BUF_CAP {
      MissesPastBytes(file, more);
    } else {
      var t := more[..Min(|more|, BUF_CAP - |file|)];
      assert (file + more)[..Min(|file + more|, BUF_CAP)] == file + t && file[..Min(|file|, BUF_CAP)] == file;
      LinesJoin(file, t);
    }
  }

  // Two different over-long files that diff calls identical.
  lemma MissesPastLimits() returns (file1: string, file2: string)
    ensures file1 != file2 && Loaded(file1) == Loaded(file2)
  {
    file1 := seq(BUF_CAP, _ => 'x');
    file2 := file1 + "y";
    MissesPastBytes(file1, "y");
    assert |file2| != |file1|;
  }
}
