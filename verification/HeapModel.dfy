// The libc heap as a list of blocks (user/libc.c:88-201), and the kernel's
// sbrk beneath it (kernel/core/syscall.c:760-784): what every sequence of legal
// calls keeps.
module HeapModel {
  const HEADER: nat := 24
  const LIMIT: nat := 0x3000_0000 // the heap may not grow into the shared libc
  const WORD: nat := 0x1_0000_0000_0000_0000
  const MAX_REQUEST: nat := 0x8000_0000_0000_0000 - 8216

  datatype Block = Block(addr: nat, size: nat, free: bool)

  function Payload(b: Block): nat {
    b.addr + HEADER
  }

  function End(b: Block): nat {
    b.addr + HEADER + b.size
  }

  // start is the initial break; live maps each pointer the program holds to
  // the size it asked for.
  datatype State = State(start: nat, blocks: seq<Block>, brk: nat, live: map<nat, nat>)

  // ---- Sizes, in 64-bit arithmetic ----

  function Rounded(size: nat): nat {
    ((if size == 0 then 1 else size) + 7) % WORD / 8 * 8
  }

  function PageSize(min: nat): nat {
    var page := if (min + HEADER) % WORD > 4096 then (min + HEADER + 4096) % WORD else 4096;
    (page + 0xfff) % WORD / 4096 * 4096
  }

  // A grown block holds the request, and the increment is positive as a
  // signed number, exactly for requests up to MAX_REQUEST.
  lemma GrowthHoldsRequest(size: nat)
    requires size < WORD
    ensures PageSize(Rounded(size)) < WORD / 2 && PageSize(Rounded(size)) >= HEADER + size <==> size <= MAX_REQUEST
  {
    if size <= MAX_REQUEST {
      PageBounds(size);
    }
  }

  lemma RoundTo8(x: nat)
    ensures x <= (x + 7) / 8 * 8 < x + 8 && (x + 7) / 8 * 8 % 8 == 0
  {}

  lemma RoundToPage(x: nat)
    ensures x <= (x + 0xfff) / 4096 * 4096 < x + 4096 && (x + 0xfff) / 4096 * 4096 % 4096 == 0
  {}

  lemma PageBounds(size: nat)
    requires size <= MAX_REQUEST
    ensures size <= Rounded(size) && 8 <= Rounded(size) <= MAX_REQUEST && Rounded(size) % 8 == 0
    ensures HEADER + Rounded(size) <= PageSize(Rounded(size)) < WORD / 2
    ensures PageSize(Rounded(size)) % 4096 == 0
  {
    RoundedBounds(size);
    hide Rounded;
    PageSizeBounds(Rounded(size));
  }

  lemma RoundedBounds(size: nat)
    requires size <= MAX_REQUEST
    ensures size <= Rounded(size) && 8 <= Rounded(size) <= MAX_REQUEST && Rounded(size) % 8 == 0
  {
    RoundTo8(if size == 0 then 1 else size);
  }

  lemma PageSizeBounds(m: nat)
    requires m <= MAX_REQUEST
    ensures HEADER + m <= PageSize(m) < WORD / 2 && PageSize(m) % 4096 == 0
  {
    RoundToPage(if m + HEADER > 4096 then m + HEADER + 4096 else 4096);
  }

  // The break after sbrk(inc), and whether the call succeeds.
  function NewBreak(start: nat, brk: nat, inc: int): (r: int)
  {
    if inc < 0 then (if -inc > brk - start then start else brk + inc)
    else if brk + inc > LIMIT then brk
    else brk + inc
  }

  predicate SbrkFails(brk: nat, inc: int) {
    inc > 0 && brk + inc > LIMIT
  }

  function Signed(x: nat): int {
    if x < WORD / 2 then x else x - WORD
  }

  // The largest request wraps to none at all, and one above 2^63 gives memory back while
  // sbrk reports success.
  lemma HugeRequestsMisbehave(start: nat, brk: nat)
    requires start <= brk <= LIMIT
    ensures Rounded(WORD - 1) == 0
    ensures !SbrkFails(brk, Signed(PageSize(Rounded(WORD / 2))))
    ensures NewBreak(start, brk, Signed(PageSize(Rounded(WORD / 2)))) == start
  {
    assert Rounded(WORD / 2) == WORD / 2;
    assert PageSize(WORD / 2) == WORD / 2 + 8192;
  }

  // ---- Block lists ----

  // The blocks cover [lo, hi) in address order without gap or overlap.
  ghost predicate Tiles(bs: seq<Block>, lo: nat, hi: nat) {
    if bs == [] then lo == hi
    else bs[0].addr == lo && Tiles(bs[1..], End(bs[0]), hi)
  }

  // No two neighbours are both free.
  ghost predicate Spaced(bs: seq<Block>) {
    |bs| < 2 || (!(bs[0].free && bs[1].free) && Spaced(bs[1..]))
  }

  lemma {:induction false} TilesJoin(a: seq<Block>, b: seq<Block>, lo: nat, mid: nat, hi: nat)
    requires Tiles(a, lo, mid) && Tiles(b, mid, hi)
    ensures Tiles(a + b, lo, hi)
  {
    if a == [] {
      assert a + b == b;
    } else {
      assert (a + b)[1..] == a[1..] + b;
      TilesJoin(a[1..], b, End(a[0]), mid, hi);
    }
  }

  lemma {:induction false} TilesSplit(bs: seq<Block>, i: nat, lo: nat, hi: nat)
    requires Tiles(bs, lo, hi) && i < |bs|
    ensures Tiles(bs[..i], lo, bs[i].addr) && Tiles(bs[i + 1..], End(bs[i]), hi)
  {
    if i > 0 {
      TilesSplit(bs[1..], i - 1, End(bs[0]), hi);
      assert bs[..i][1..] == bs[1..][..i - 1];
      assert bs[1..][i..] == bs[i + 1..];
    }
  }

  lemma {:induction false} TilesNext(bs: seq<Block>, i: nat, lo: nat, hi: nat)
    requires Tiles(bs, lo, hi) && i < |bs|
    ensures if i + 1 < |bs| then bs[i + 1].addr == End(bs[i]) else End(bs[i]) == hi
  {
    if i > 0 { TilesNext(bs[1..], i - 1, End(bs[0]), hi); }
  }

  lemma {:induction false} TilesWithin(bs: seq<Block>, i: nat, lo: nat, hi: nat)
    requires Tiles(bs, lo, hi) && i < |bs|
    ensures lo <= bs[i].addr && End(bs[i]) <= hi && (i > 0 ==> lo < bs[i].addr)
  {
    if i > 0 {
      TilesWithin(bs[1..], i - 1, End(bs[0]), hi);
    } else {
      TilesBound(bs[1..], End(bs[0]), hi);
    }
  }

  lemma {:induction false} TilesBound(bs: seq<Block>, lo: nat, hi: nat)
    requires Tiles(bs, lo, hi)
    ensures lo <= hi && (lo == hi <==> bs == [])
  {
    if bs != [] { TilesBound(bs[1..], End(bs[0]), hi); }
  }

  // Blocks at different positions do not overlap, headers included.
  lemma {:induction false} TilesApart(bs: seq<Block>, i: nat, j: nat, lo: nat, hi: nat)
    requires Tiles(bs, lo, hi) && i < j < |bs|
    ensures End(bs[i]) <= bs[j].addr
  {
    if i == 0 {
      TilesWithin(bs[1..], j - 1, End(bs[0]), hi);
    } else {
      TilesApart(bs[1..], i - 1, j - 1, End(bs[0]), hi);
    }
  }

  lemma {:induction false} SpacedJoin(a: seq<Block>, b: seq<Block>)
    requires Spaced(a) && Spaced(b)
    requires a != [] && b != [] ==> !(a[|a| - 1].free && b[0].free)
    ensures Spaced(a + b)
  {
    if a == [] {
      assert a + b == b;
    } else {
      assert (a + b)[1..] == a[1..] + b;
      SpacedJoin(a[1..], b);
    }
  }

  lemma {:induction false} SpacedSplit(bs: seq<Block>, i: nat)
    requires Spaced(bs) && i <= |bs|
    ensures Spaced(bs[..i]) && Spaced(bs[i..])
    ensures 0 < i < |bs| ==> !(bs[i - 1].free && bs[i].free)
  {
    if i == 0 {
      assert bs[0..] == bs;
    } else {
      SpacedSplit(bs[1..], i - 1);
      assert bs[1..][..i - 1] == bs[..i][1..];
      assert bs[1..][i - 1..] == bs[i..];
    }
  }

  // ---- The operations on block lists ----

  // The lowest free block that is large enough, or |bs|.
  function FirstFit(bs: seq<Block>, m: nat): (i: nat)
    ensures i <= |bs|
    ensures i < |bs| ==> bs[i].free && bs[i].size >= m
    ensures forall j :: 0 <= j < i ==> !(bs[j].free && bs[j].size >= m)
  {
    if bs == [] then 0
    else if bs[0].free && bs[0].size >= m then 0
    else
      var k := FirstFit(bs[1..], m);
      assert forall j :: 0 < j <= k ==> bs[j] == bs[1..][j - 1] || j > k || j == k;
      1 + k
  }

  // Take m bytes of b, splitting the rest off when it is worth a block.
  function Carve(b: Block, m: nat): seq<Block> {
    if b.size >= m + HEADER + 16
    then [Block(b.addr, m, false), Block(b.addr + HEADER + m, b.size - m - HEADER, true)]
    else [b.(free := false)]
  }

  function Place(bs: seq<Block>, i: nat, m: nat): seq<Block>
    requires i < |bs|
  {
    bs[..i] + Carve(bs[i], m) + bs[i + 1..]
  }

  function MergeNext(bs: seq<Block>, i: nat): seq<Block>
    requires i < |bs|
  {
    if i + 1 < |bs| && bs[i + 1].free
    then bs[..i] + [Block(bs[i].addr, bs[i].size + HEADER + bs[i + 1].size, true)] + bs[i + 2..]
    else bs[..i] + [bs[i].(free := true)] + bs[i + 1..]
  }

  function MergePrev(bs: seq<Block>, i: nat): seq<Block>
    requires i < |bs|
  {
    if i > 0 && bs[i - 1].free
    then bs[..i - 1] + [Block(bs[i - 1].addr, bs[i - 1].size + HEADER + bs[i].size, true)] + bs[i + 1..]
    else bs
  }

  function Release(bs: seq<Block>, i: nat): seq<Block>
    requires i < |bs|
  {
    MergePrev(MergeNext(bs, i), i)
  }

  lemma Cut3(bs: seq<Block>, i: nat)
    requires i < |bs|
    ensures bs == bs[..i] + [bs[i]] + bs[i + 1..]
  {}

  // Replacing block i by blocks that tile the same bytes keeps the tiling.
  lemma TilesReplace(bs: seq<Block>, i: nat, mid: seq<Block>, lo: nat, hi: nat)
    requires Tiles(bs, lo, hi) && i < |bs| && Tiles(mid, bs[i].addr, End(bs[i]))
    ensures Tiles(bs[..i] + mid + bs[i + 1..], lo, hi)
  {
    TilesSplit(bs, i, lo, hi);
    TilesJoin(bs[..i], mid, lo, bs[i].addr, End(bs[i]));
    TilesJoin(bs[..i] + mid, bs[i + 1..], lo, End(bs[i]), hi);
  }

  lemma CarveTiles(b: Block, m: nat)
    requires b.size >= m
    ensures Tiles(Carve(b, m), b.addr, End(b))
  {
    var c := Carve(b, m);
    if |c| == 2 {
      assert Tiles(c[1..][1..], End(c[1]), End(b));
      assert Tiles(c[1..], End(c[0]), End(b));
    }
  }

  // Two neighbours merged into one block.
  lemma TilesMerge(bs: seq<Block>, i: nat, free: bool, lo: nat, hi: nat)
    requires Tiles(bs, lo, hi) && i + 1 < |bs|
    ensures Tiles(bs[..i] + [Block(bs[i].addr, bs[i].size + HEADER + bs[i + 1].size, free)] + bs[i + 2..], lo, hi)
  {
    var b := Block(bs[i].addr, bs[i].size + HEADER + bs[i + 1].size, free);
    TilesSplit(bs, i, lo, hi);
    TilesNext(bs, i, lo, hi);
    TilesSplit(bs, i + 1, lo, hi);
    assert bs[i + 1 + 1..] == bs[i + 2..];
    assert End(b) == End(bs[i + 1]);
    assert Tiles([b], b.addr, End(b)) by { assert [b][1..] == []; }
    TilesJoin(bs[..i], [b], lo, b.addr, End(b));
    TilesJoin(bs[..i] + [b], bs[i + 2..], lo, End(b), hi);
  }

  lemma PlaceTiles(bs: seq<Block>, i: nat, m: nat, lo: nat, hi: nat)
    requires Tiles(bs, lo, hi) && i < |bs| && bs[i].size >= m
    ensures Tiles(Place(bs, i, m), lo, hi)
  {
    CarveTiles(bs[i], m);
    TilesReplace(bs, i, Carve(bs[i], m), lo, hi);
  }

  lemma ReleaseTiles(bs: seq<Block>, i: nat, lo: nat, hi: nat)
    requires Tiles(bs, lo, hi) && i < |bs|
    ensures Tiles(Release(bs, i), lo, hi)
  {
    var c := MergeNext(bs, i);
    if i + 1 < |bs| && bs[i + 1].free {
      TilesMerge(bs, i, true, lo, hi);
    } else {
      var b := bs[i].(free := true);
      assert Tiles([b], bs[i].addr, End(bs[i])) by { assert [b][1..] == []; }
      TilesReplace(bs, i, [b], lo, hi);
    }
    if i > 0 && c[i - 1].free {
      TilesMerge(c, i - 1, true, lo, hi);
    }
  }

  // Carving a free block leaves no two free neighbours: the block after it is
  // used.
  lemma PlaceSpaced(bs: seq<Block>, i: nat, m: nat)
    requires Spaced(bs) && i < |bs|
    requires i + 1 < |bs| ==> !bs[i + 1].free
    ensures Spaced(Place(bs, i, m))
  {
    var c := Carve(bs[i], m);
    SpacedSplit(bs, i);
    SpacedSplit(bs, i + 1);
    SpacedJoin(bs[..i], c);
    SpacedJoin(bs[..i] + c, bs[i + 1..]);
  }

  lemma NeighbourUsed(bs: seq<Block>, i: nat)
    requires Spaced(bs) && i + 1 < |bs|
    ensures !(bs[i].free && bs[i + 1].free)
  {
    SpacedSplit(bs, i + 1);
  }

  // What follows the freed block after the first merge starts with a used block.
  lemma MergeNextSpaced(bs: seq<Block>, i: nat)
    requires Spaced(bs) && i < |bs| && !bs[i].free
    ensures var c := MergeNext(bs, i);
            |c| > i && c[..i] == bs[..i] && c[i].free && Spaced(c[i + 1..]) && (i + 1 < |c| ==> !c[i + 1].free)
  {
    var c := MergeNext(bs, i);
    if i + 1 < |bs| && bs[i + 1].free {
      SpacedSplit(bs, i + 2);
      if i + 2 < |bs| { NeighbourUsed(bs, i + 1); }
      assert c[i + 1..] == bs[i + 2..];
    } else {
      SpacedSplit(bs, i + 1);
      assert c[i + 1..] == bs[i + 1..];
    }
  }

  lemma SpacedAround(a: seq<Block>, b: Block, rest: seq<Block>)
    requires Spaced(a) && Spaced(rest)
    requires a != [] ==> !a[|a| - 1].free
    requires rest != [] ==> !rest[0].free
    ensures Spaced(a + [b] + rest)
  {
    SpacedJoin(a, [b]);
    SpacedJoin(a + [b], rest);
  }

  lemma ReleaseSpaced(bs: seq<Block>, i: nat)
    requires Spaced(bs) && i < |bs| && !bs[i].free
    ensures Spaced(Release(bs, i))
  {
    hide Spaced, MergeNext;
    var c := MergeNext(bs, i);
    MergeNextSpaced(bs, i);
    SpacedSplit(bs, i);
    if i > 0 && bs[i - 1].free {
      SpacedSplit(bs, i - 1);
      if i > 1 { NeighbourUsed(bs, i - 2); }
      assert c[..i - 1] == bs[..i - 1] && c[i - 1] == c[..i][i - 1];
      SpacedAround(bs[..i - 1], Block(c[i - 1].addr, c[i - 1].size + HEADER + c[i].size, true), c[i + 1..]);
    } else {
      Cut3(c, i);
      if i > 0 { assert c[i - 1] == c[..i][i - 1]; }
      SpacedAround(bs[..i], c[i], c[i + 1..]);
    }
  }

  // ---- Used blocks ----

  ghost function Used(bs: seq<Block>): set<Block> {
    set b | b in bs && !b.free
  }

  ghost function Others(bs: seq<Block>, i: nat): seq<Block>
    requires i < |bs|
  {
    bs[..i] + bs[i + 1..]
  }

  lemma PlaceUsed(bs: seq<Block>, i: nat, m: nat)
    requires i < |bs| && bs[i].size >= m
    ensures Used(Place(bs, i, m)) == Used(Others(bs, i)) + {Carve(bs[i], m)[0]}
    ensures bs[i].free ==> Used(Others(bs, i)) == Used(bs)
  {
    Cut3(bs, i);
    var a, r := bs[..i], bs[i + 1..];
    forall b | b in bs && !b.free && bs[i].free ensures b in a + r {}
  }

  lemma ReleaseUsed(bs: seq<Block>, i: nat, lo: nat, hi: nat)
    requires Tiles(bs, lo, hi) && i < |bs| && !bs[i].free
    ensures Used(Release(bs, i)) == Used(bs) - {bs[i]}
  {
    forall j: nat | j < |bs| && j != i ensures bs[j] != bs[i] {
      if j < i { TilesApart(bs, j, i, lo, hi); } else { TilesApart(bs, i, j, lo, hi); }
    }
    var c := MergeNext(bs, i);
    MergeNextUsed(bs, i);
    MergePrevUsed(c, i);
  }

  lemma MergeNextUsed(bs: seq<Block>, i: nat)
    requires i < |bs| && !bs[i].free
    requires forall j :: 0 <= j < |bs| && j != i ==> bs[j] != bs[i]
    ensures var c := MergeNext(bs, i); |c| > i && c[i].free && Used(c) == Used(bs) - {bs[i]}
  {
    var c := MergeNext(bs, i);
    var skip := if i + 1 < |bs| && bs[i + 1].free then 2 else 1;
    assert c == bs[..i] + [c[i]] + bs[i + skip..];
    assert forall b :: b in c && !b.free ==> b in bs[..i] || b in bs[i + skip..];
    forall b | b in bs && !b.free && b != bs[i] ensures b in c {
      var j :| 0 <= j < |bs| && bs[j] == b;
      if j < i { assert c[j] == b; } else { assert c[j - skip + 1] == b; }
    }
  }

  lemma UsedJoin(a: seq<Block>, b: seq<Block>)
    ensures Used(a + b) == Used(a) + Used(b)
  {}

  lemma UsedOne(b: Block)
    ensures Used([b]) == if b.free then {} else {b}
  {}

  lemma MergePrevUsed(bs: seq<Block>, i: nat)
    requires i < |bs| && bs[i].free
    ensures Used(MergePrev(bs, i)) == Used(bs)
  {
    hide Used;
    if i > 0 && bs[i - 1].free {
      var a, r := bs[..i - 1], bs[i + 1..];
      var b := Block(bs[i - 1].addr, bs[i - 1].size + HEADER + bs[i].size, true);
      assert bs == a + [bs[i - 1]] + [bs[i]] + r;
      UsedOne(b);
      UsedOne(bs[i - 1]);
      UsedOne(bs[i]);
      UsedJoin(a, [b]);
      UsedJoin(a + [b], r);
      UsedJoin(a, [bs[i - 1]]);
      UsedJoin(a + [bs[i - 1]], [bs[i]]);
      UsedJoin(a + [bs[i - 1]] + [bs[i]], r);
    }
  }

  // ---- The allocator's invariant ----

  ghost predicate Holds(bs: seq<Block>, p: nat, size: nat) {
    exists b :: b in Used(bs) && Payload(b) == p && b.size >= size
  }

  ghost predicate Aligned(bs: seq<Block>) {
    forall b :: b in bs ==> b.addr % 8 == 0 && b.size % 8 == 0
  }

  // Live pointers are payloads of used blocks that are large enough.  The
  // block of the very first growth is used but never handed out.
  ghost predicate Inv(s: State) {
    && 0 < s.start && s.start % 4096 == 0
    && s.brk <= LIMIT
    && Tiles(s.blocks, s.start, s.brk)
    && Spaced(s.blocks)
    && Aligned(s.blocks)
    && (forall p :: p in s.live ==> Holds(s.blocks, p, s.live[p]))
    && (s.blocks != [] ==> !s.blocks[0].free && Payload(s.blocks[0]) !in s.live)
  }

  // Two live allocations are disjoint, with a header's room between them.
  lemma LiveDisjoint(s: State, p: nat, q: nat)
    requires Inv(s) && p in s.live && q in s.live && p < q
    ensures p + s.live[p] + HEADER <= q && q + s.live[q] <= s.brk
  {
    var b :| b in Used(s.blocks) && Payload(b) == p && b.size >= s.live[p];
    var c :| c in Used(s.blocks) && Payload(c) == q && c.size >= s.live[q];
    var i :| 0 <= i < |s.blocks| && s.blocks[i] == b;
    var j :| 0 <= j < |s.blocks| && s.blocks[j] == c;
    if i < j {
      TilesApart(s.blocks, i, j, s.start, s.brk);
    } else if j < i {
      TilesApart(s.blocks, j, i, s.start, s.brk);
    }
    TilesWithin(s.blocks, j, s.start, s.brk);
  }

  // What becomes of a larger request: no block holds it, and none is even looked
  // at unless it rounds to 0; growth adds one or two pages, or adds nothing and
  // may take memory back, and only a grown page can be refused.
  lemma HugeRequestsUnmet(s: State, size: nat)
    requires Inv(s) && MAX_REQUEST < size < WORD
    ensures forall b :: b in s.blocks ==> b.size < size && (b.size >= Rounded(size) ==> Rounded(size) == 0)
    ensures var inc := Signed(PageSize(Rounded(size)));
            inc == 4096 || inc == 8192 ||
            (inc <= 0 && !SbrkFails(s.brk, inc) && NewBreak(s.start, s.brk, inc) <= s.brk)
  {
    hide Rounded, PageSize, Tiles;
    HugeSizes(size);
    forall b | b in s.blocks ensures b.size < LIMIT {
      var i :| 0 <= i < |s.blocks| && s.blocks[i] == b;
      TilesWithin(s.blocks, i, s.start, s.brk);
    }
    TilesForward(s.blocks, s.start, s.brk);
  }

  lemma {:induction false} TilesForward(bs: seq<Block>, lo: nat, hi: nat)
    requires Tiles(bs, lo, hi)
    ensures lo <= hi
  {
    if bs != [] { TilesForward(bs[1..], End(bs[0]), hi); }
  }

  lemma HugeSizes(size: nat)
    requires MAX_REQUEST < size < WORD
    ensures var m := Rounded(size);
            (m == 0 || m >= LIMIT) &&
            var inc := Signed(PageSize(m)); inc <= 0 || inc == 4096 || inc == 8192
  {
    var m := Rounded(size);
    RoundTo8((size + 7) % WORD);
    if m + HEADER < WORD && m != 0 {
      HugePage(m);
    }
  }

  lemma HugePage(m: nat)
    requires MAX_REQUEST < m < WORD - HEADER
    ensures PageSize(m) <= 4096 || PageSize(m) >= WORD / 2
  {
    var page := (m + HEADER + 4096) % WORD;
    RoundToPage((page + 0xfff) % WORD);
  }

  // ---- The calls ----

  predicate CanGrow(s: State, m: nat) {
    s.brk + PageSize(m) <= LIMIT
  }

  function Grown(s: State, m: nat): State
    requires PageSize(m) >= HEADER
  {
    s.(blocks := s.blocks + [Block(s.brk, PageSize(m) - HEADER, false)], brk := s.brk + PageSize(m))
  }

  function Allocated(s: State, i: nat, m: nat, size: nat): (State, nat)
    requires i < |s.blocks|
  {
    var p := Payload(s.blocks[i]);
    (s.(blocks := Place(s.blocks, i, m), live := s.live[p := size]), p)
  }

  // malloc on a heap that has been grown at least once.
  function Search(s: State, m: nat, size: nat): (State, nat)
    requires PageSize(m) >= HEADER
  {
    var i := FirstFit(s.blocks, m);
    if i < |s.blocks| then Allocated(s, i, m, size)
    else if CanGrow(s, m) then Allocated(Grown(s, m), |s.blocks|, m, size)
    else (s, 0)
  }

  function Malloc(s: State, size: nat): (State, nat)
    requires size <= MAX_REQUEST
  {
    PageBounds(size);
    var m := Rounded(size);
    if s.blocks == [] then (if CanGrow(s, m) then Search(Grown(s, m), m, size) else (s, 0))
    else Search(s, m, size)
  }

  function IndexOf(bs: seq<Block>, p: nat): (i: nat)
    ensures i <= |bs| && (i < |bs| ==> Payload(bs[i]) == p)
  {
    if bs == [] then 0 else if Payload(bs[0]) == p then 0 else 1 + IndexOf(bs[1..], p)
  }

  function Free(s: State, p: nat): State {
    var i := IndexOf(s.blocks, p);
    if i < |s.blocks| then s.(blocks := Release(s.blocks, i), live := s.live - {p}) else s
  }

  function Realloc(s: State, p: nat, size: nat): (State, nat)
    requires size <= MAX_REQUEST && (p == 0 || p in s.live)
  {
    if p == 0 then Malloc(s, size)
    else if size == 0 then (Free(s, p), 0)
    else
      var i := IndexOf(s.blocks, p);
      if i < |s.blocks| && s.blocks[i].size >= size then (s.(live := s.live[p := size]), p)
      else
        var (t, q) := Malloc(s, size);
        if q == 0 then (t, 0) else (Free(t, p), q)
  }

  // ---- Every call keeps the invariant ----

  lemma GrownKeeps(s: State, m: nat)
    requires Inv(s) && CanGrow(s, m) && HEADER <= PageSize(m) && PageSize(m) % 8 == 0
    ensures Inv(Grown(s, m)) && Used(Grown(s, m).blocks) == Used(s.blocks) + {Block(s.brk, PageSize(m) - HEADER, false)}
  {
    hide PageSize, Used, Holds, Tiles, Spaced;
    GrownLists(s, PageSize(m));
    GrownHolds(s, Block(s.brk, PageSize(m) - HEADER, false));
    GrownFirst(s);
  }

  lemma GrownLists(s: State, page: nat)
    requires Inv(s) && HEADER <= page && page % 8 == 0
    ensures var bs := s.blocks + [Block(s.brk, page - HEADER, false)];
            Tiles(bs, s.start, s.brk + page) && Spaced(bs) && Aligned(bs)
  {
    hide Tiles, Spaced, Aligned;
    var b := Block(s.brk, page - HEADER, false);
    OneTiles(b);
    TilesJoin(s.blocks, [b], s.start, s.brk, s.brk + page);
    OneSpaced(b);
    SpacedJoin(s.blocks, [b]);
    PageMultiple(s.start);
    BreakAligned(s.blocks, s.start, s.brk);
    LessHeader(page);
    hide Inv;
    AlignedAppend(s.blocks, b);
  }

  lemma LessHeader(page: nat)
    requires page % 8 == 0
    ensures (page - HEADER) % 8 == 0
  {}

  lemma AlignedAppend(bs: seq<Block>, b: Block)
    requires Aligned(bs) && b.addr % 8 == 0 && b.size % 8 == 0
    ensures Aligned(bs + [b])
  {}

  lemma OneTiles(b: Block)
    ensures Tiles([b], b.addr, End(b))
  {
    assert [b][1..] == [];
  }

  lemma OneSpaced(b: Block)
    ensures Spaced([b])
  {}

  lemma GrownHolds(s: State, b: Block)
    requires Inv(s) && !b.free
    ensures Used(s.blocks + [b]) == Used(s.blocks) + {b}
    ensures forall p :: p in s.live ==> Holds(s.blocks + [b], p, s.live[p])
  {
    hide Tiles, Spaced, Aligned;
    forall p | p in s.live ensures Holds(s.blocks + [b], p, s.live[p]) {
      var c :| c in Used(s.blocks) && Payload(c) == p && c.size >= s.live[p];
      assert c in Used(s.blocks + [b]);
    }
  }

  lemma GrownFirst(s: State)
    requires Inv(s)
    ensures s.blocks == [] ==> s.live == map[]
  {
    if s.blocks == [] {
      assert Used(s.blocks) == {};
    }
  }

  lemma {:induction false} BreakAligned(bs: seq<Block>, lo: nat, hi: nat)
    requires Tiles(bs, lo, hi) && Aligned(bs) && lo % 8 == 0
    ensures hi % 8 == 0
  {
    if bs != [] { BreakAligned(bs[1..], End(bs[0]), hi); }
  }

  lemma SamePayload(bs: seq<Block>, i: nat, j: nat, lo: nat, hi: nat)
    requires Tiles(bs, lo, hi) && i < |bs| && j < |bs| && Payload(bs[i]) == Payload(bs[j])
    ensures i == j
  {
    if i < j { TilesApart(bs, i, j, lo, hi); }
    if j < i { TilesApart(bs, j, i, lo, hi); }
  }

  lemma FreeNotLive(s: State, i: nat)
    requires Inv(s) && i < |s.blocks| && s.blocks[i].free
    ensures i > 0 && Payload(s.blocks[i]) !in s.live
    ensures forall b :: b in Used(s.blocks) ==> Payload(b) != Payload(s.blocks[i])
  {
    forall b | b in Used(s.blocks) ensures Payload(b) != Payload(s.blocks[i]) {
      var j :| 0 <= j < |s.blocks| && s.blocks[j] == b;
      if Payload(b) == Payload(s.blocks[i]) { SamePayload(s.blocks, i, j, s.start, s.brk); }
    }
  }

  lemma CarveFacts(b: Block, m: nat)
    requires b.size >= m && b.addr % 8 == 0 && b.size % 8 == 0 && m % 8 == 0
    ensures var c := Carve(b, m);
            |c| > 0 && Payload(c[0]) == Payload(b) && c[0].size >= m && !c[0].free && Aligned(c)
  {}

  // Handing out block i, which nobody holds.
  lemma AllocatedKeeps(s: State, i: nat, m: nat, size: nat)
    requires Inv(s) && 0 < i < |s.blocks| && s.blocks[i].size >= m >= size && m % 8 == 0
    requires Payload(s.blocks[i]) !in s.live
    requires i + 1 < |s.blocks| ==> !s.blocks[i + 1].free
    ensures Inv(Allocated(s, i, m, size).0)
    ensures var t := Allocated(s, i, m, size).0; t.blocks != [] && t.blocks[0] == s.blocks[0]
    ensures s.blocks[i].free ==> Used(s.blocks) <= Used(Allocated(s, i, m, size).0.blocks)
    ensures forall b :: b in Used(Allocated(s, i, m, size).0.blocks) ==> Payload(b) == Payload(s.blocks[i]) || b in Used(Others(s.blocks, i))
  {
    var bs := s.blocks;
    var (t, p) := Allocated(s, i, m, size);
    PlaceTiles(bs, i, m, s.start, s.brk);
    PlaceSpaced(bs, i, m);
    CarveFacts(bs[i], m);
    PlaceUsed(bs, i, m);
    var c := Carve(bs[i], m);
    Cut3(bs, i);
    assert Aligned(t.blocks);
    assert Holds(t.blocks, p, size) by { assert c[0] in Used(t.blocks); }
    forall q | q in t.live && q != p ensures Holds(t.blocks, q, t.live[q]) {
      var b :| b in Used(bs) && Payload(b) == q && b.size >= s.live[q];
      assert b in Others(bs, i);
    }
    assert t.blocks[0] == bs[0];
    TilesApart(bs, 0, i, s.start, s.brk);
  }

  // What the caller of malloc may rely on.
  ghost predicate MallocOk(s: State, size: nat, t: State, p: nat) {
    && Inv(t) && t.start == s.start
    && Used(s.blocks) <= Used(t.blocks)
    && (p == 0 ==> t.live == s.live)
    && (p != 0 ==> p !in s.live && p % 8 == 0 && t.live == s.live[p := size])
    && (forall b :: b in Used(s.blocks) && p != 0 ==> Payload(b) != p)
    && (s.blocks != [] ==> t.blocks != [] && t.blocks[0] == s.blocks[0])
    && (forall b :: b in Used(t.blocks) && b !in Used(s.blocks) ==> Payload(b) == p || (t.blocks != [] && b == t.blocks[0]))
  }

  lemma FoundAllocated(s: State, i: nat, m: nat, size: nat)
    requires Inv(s) && i < |s.blocks| && s.blocks[i].free && s.blocks[i].size >= m >= size && m % 8 == 0
    ensures var (t, p) := Allocated(s, i, m, size); MallocOk(s, size, t, p) && p != 0
  {
    hide Tiles, Spaced, Carve, Place;
    FreeNotLive(s, i);
    if i + 1 < |s.blocks| { NeighbourUsed(s.blocks, i); }
    AllocatedKeeps(s, i, m, size);
    PlaceUsed(s.blocks, i, m);
    assert s.blocks[i].addr % 8 == 0;
  }

  lemma SearchKeeps(s: State, m: nat, size: nat)
    requires Inv(s) && s.blocks != [] && m % 8 == 0 && m >= size
    requires HEADER + m <= PageSize(m) && PageSize(m) % 8 == 0
    ensures MallocOk(s, size, Search(s, m, size).0, Search(s, m, size).1)
    ensures Search(s, m, size).1 == 0 <==> FirstFit(s.blocks, m) == |s.blocks| && !CanGrow(s, m)
  {
    hide Place, Inv, MallocOk, Grown, Allocated;
    var i := FirstFit(s.blocks, m);
    if i < |s.blocks| {
      FoundAllocated(s, i, m, size);
    } else if CanGrow(s, m) {
      GrownKeeps(s, m);
      GrownAllocated(s, m, size);
    } else {
      Unchanged(s, size);
    }
  }

  lemma Unchanged(s: State, size: nat)
    requires Inv(s)
    ensures MallocOk(s, size, s, 0)
  {}

  lemma UsedBelowBreak(s: State)
    requires Inv(s)
    ensures forall b :: b in Used(s.blocks) ==> Payload(b) <= s.brk
    ensures forall p :: p in s.live ==> p <= s.brk
  {
    forall b | b in Used(s.blocks) ensures Payload(b) <= s.brk {
      var j :| 0 <= j < |s.blocks| && s.blocks[j] == b;
      TilesWithin(s.blocks, j, s.start, s.brk);
    }
  }

  lemma GrownAllocated(s: State, m: nat, size: nat)
    requires Inv(s) && s.blocks != [] && m % 8 == 0 && m >= size
    requires HEADER + m <= PageSize(m) && Inv(Grown(s, m)) && CanGrow(s, m)
    ensures var (t, p) := Allocated(Grown(s, m), |s.blocks|, m, size); MallocOk(s, size, t, p) && p != 0
  {
    hide Tiles, Spaced, Carve, PageSize, Place, Used;
    var g, i := Grown(s, m), |s.blocks|;
    UsedBelowBreak(s);
    assert g.blocks[i].addr % 8 == 0 && g.blocks[i].addr == s.brk;
    assert Others(g.blocks, i) == s.blocks;
    AllocatedKeeps(g, i, m, size);
    hide Inv;
    PlaceUsed(g.blocks, i, m);
    AboveAll(s, Payload(g.blocks[i]));
  }

  lemma AboveAll(s: State, p: nat)
    requires (forall b :: b in Used(s.blocks) ==> Payload(b) <= s.brk) && p > s.brk
    ensures forall b :: b in Used(s.blocks) ==> Payload(b) != p
  {}

  // malloc returns fresh, aligned, disjoint memory or null, and takes nothing
  // from anyone.
  lemma MallocKeeps(s: State, size: nat)
    requires Inv(s) && size <= MAX_REQUEST
    ensures MallocOk(s, size, Malloc(s, size).0, Malloc(s, size).1)
  {
    hide Inv, Search, Used, PageSize, Rounded, CanGrow, Grown, MallocOk;
    PageBounds(size);
    var m := Rounded(size);
    PageMultiple(PageSize(m));
    if s.blocks == [] {
      if CanGrow(s, m) {
        GrownKeeps(s, m);
        GrownShape(s, m);
        SearchKeeps(Grown(s, m), m, size);
        FirstCall(s, m, size, Malloc(s, size).0, Malloc(s, size).1);
      } else {
        Unchanged(s, size);
      }
    } else {
      SearchKeeps(s, m, size);
    }
  }

  lemma FirstCall(s: State, m: nat, size: nat, t: State, p: nat)
    requires s.blocks == [] && PageSize(m) >= HEADER && MallocOk(Grown(s, m), size, t, p)
    ensures MallocOk(s, size, t, p)
  {
    hide Inv, PageSize;
    var g := Grown(s, m);
    assert Used(g.blocks) == {g.blocks[0]};
  }

  lemma PageMultiple(x: nat)
    requires x % 4096 == 0
    ensures x % 8 == 0
  {
    Eights(512 * (x / 4096), x);
  }

  lemma Eights(k: nat, x: nat)
    requires x == 8 * k
    ensures x % 8 == 0
  {}

  lemma GrownShape(s: State, m: nat)
    requires PageSize(m) >= HEADER
    ensures Grown(s, m).blocks != [] && Grown(s, m).live == s.live && Grown(s, m).start == s.start
  {}

  lemma {:induction false} IndexOfIs(bs: seq<Block>, i: nat, lo: nat, hi: nat)
    requires Tiles(bs, lo, hi) && i < |bs|
    ensures IndexOf(bs, Payload(bs[i])) == i
  {
    if i > 0 {
      TilesApart(bs, 0, i, lo, hi);
      IndexOfIs(bs[1..], i - 1, End(bs[0]), hi);
    }
  }

  // The block behind a live pointer.
  lemma LiveBlock(s: State, p: nat) returns (i: nat)
    requires Inv(s) && p in s.live
    ensures 0 < i < |s.blocks| && IndexOf(s.blocks, p) == i && Payload(s.blocks[i]) == p
    ensures !s.blocks[i].free && s.blocks[i].size >= s.live[p]
  {
    var b :| b in Used(s.blocks) && Payload(b) == p && b.size >= s.live[p];
    i :| 0 <= i < |s.blocks| && s.blocks[i] == b;
    IndexOfIs(s.blocks, i, s.start, s.brk);
  }

  lemma ReleaseAligned(bs: seq<Block>, i: nat)
    requires Aligned(bs) && i < |bs|
    ensures Aligned(Release(bs, i))
  {
    var c := MergeNext(bs, i);
    MergedAligned(bs, i);
    hide MergeNext;
    if i > 0 && c[i - 1].free {
      MergedAligned(c, i - 1);
    }
  }

  lemma MergedAligned(bs: seq<Block>, i: nat)
    requires Aligned(bs) && i < |bs|
    ensures |MergeNext(bs, i)| > i && Aligned(MergeNext(bs, i))
    ensures i + 1 < |bs| ==>
            Aligned(bs[..i] + [Block(bs[i].addr, bs[i].size + HEADER + bs[i + 1].size, true)] + bs[i + 2..])
  {
    if i + 1 < |bs| {
      assert bs[i] in bs && bs[i + 1] in bs;
      AlignedAround(bs[..i], Block(bs[i].addr, bs[i].size + HEADER + bs[i + 1].size, true), bs[i + 2..]);
    }
  }

  lemma AlignedAround(a: seq<Block>, b: Block, c: seq<Block>)
    requires Aligned(a) && Aligned(c) && b.addr % 8 == 0 && b.size % 8 == 0
    ensures Aligned(a + [b] + c)
  {}

  lemma ReleaseFirst(bs: seq<Block>, i: nat)
    requires 0 < i < |bs| && !bs[0].free
    ensures Release(bs, i) != [] && Release(bs, i)[0] == bs[0]
  {}

  // free takes back exactly the block behind p.
  lemma FreeKeeps(s: State, p: nat)
    requires Inv(s) && p in s.live
    ensures Inv(Free(s, p)) && Free(s, p).live == s.live - {p} && Free(s, p).brk == s.brk
    ensures Used(Free(s, p).blocks) == Used(s.blocks) - {s.blocks[IndexOf(s.blocks, p)]}
  {
    hide Release, Tiles, Spaced, Aligned;
    var i := LiveBlock(s, p);
    var t := Free(s, p);
    ReleaseTiles(s.blocks, i, s.start, s.brk);
    ReleaseSpaced(s.blocks, i);
    ReleaseUsed(s.blocks, i, s.start, s.brk);
    ReleaseAligned(s.blocks, i);
    ReleaseFirst(s.blocks, i);
    forall q | q in t.live ensures Holds(t.blocks, q, t.live[q]) {
      var b :| b in Used(s.blocks) && Payload(b) == q && b.size >= s.live[q];
      assert b in Used(t.blocks);
    }
  }

  // malloc fails exactly when no free block fits and the heap cannot be grown
  // (twice, for the very first call).
  lemma NullExactly(s: State, size: nat)
    requires Inv(s) && size <= MAX_REQUEST
    ensures var m := Rounded(size);
            Malloc(s, size).1 == 0 <==>
            (forall b :: b in s.blocks ==> !(b.free && b.size >= m))
            && s.brk + (if s.blocks == [] then 2 else 1) * PageSize(m) > 0x3000_0000
  {
    hide PageSize, Rounded, Place, Tiles, Spaced;
    PageBounds(size);
    var m := Rounded(size);
    PageMultiple(PageSize(m));
    var i := FirstFit(s.blocks, m);
    if s.blocks == [] {
      if CanGrow(s, m) {
        GrownKeeps(s, m);
        SearchKeeps(Grown(s, m), m, size);
        assert Grown(s, m).blocks == [Block(s.brk, PageSize(m) - HEADER, false)];
      }
    } else {
      SearchKeeps(s, m, size);
      assert i < |s.blocks| ==> s.blocks[i] in s.blocks;
    }
  }

  // ---- Which block is handed out, and how much of it ----

  // Requests are rounded up to eight bytes, growth to whole pages of 4096 with up
  // to two pages to spare.
  lemma SizesMean(size: nat, m: nat)
    requires size <= MAX_REQUEST && m <= MAX_REQUEST
    ensures Rounded(size) % 8 == 0 && size <= Rounded(size) && 1 <= Rounded(size) && (size > 0 ==> Rounded(size) < size + 8)
    ensures size == 0 ==> Rounded(size) == 8
    ensures PageSize(m) % 4096 == 0
    ensures if m + 24 <= 4096 then PageSize(m) == 4096 else m + 24 + 4096 <= PageSize(m) < m + 24 + 8192
  {
    RoundingMeans(size);
    hide Rounded;
    RoundToPage(if m + HEADER > 4096 then m + HEADER + 4096 else 4096);
  }

  lemma RoundingMeans(size: nat)
    requires size <= MAX_REQUEST
    ensures Rounded(size) % 8 == 0 && size <= Rounded(size) && 1 <= Rounded(size) && (size > 0 ==> Rounded(size) < size + 8)
    ensures size == 0 ==> Rounded(size) == 8
  {
    RoundTo8(if size == 0 then 1 else size);
  }

  // Only the part of block i that is asked for is taken, unless the rest is too
  // small for a header and sixteen bytes.
  lemma PlaceMeans(bs: seq<Block>, i: nat, m: nat)
    requires i < |bs| && bs[i].size >= m
    ensures i < |Place(bs, i, m)| && Place(bs, i, m)[..i] == bs[..i]
    ensures var b := bs[i];
            if b.size >= m + 40 then
              Place(bs, i, m)[i..] == [Block(b.addr, m, false), Block(b.addr + 24 + m, b.size - m - 24, true)] + bs[i + 1..]
            else Place(bs, i, m)[i..] == [Block(b.addr, b.size, false)] + bs[i + 1..]
  {}

  // malloc takes the first free block that is large enough, and otherwise grows
  // the heap at its end; the very first call grows it once more before that.
  lemma MallocMeans(s: State, size: nat, i: nat)
    requires Inv(s) && size <= MAX_REQUEST && i <= |s.blocks|
    requires forall j :: 0 <= j < i ==> !(s.blocks[j].free && s.blocks[j].size >= Rounded(size))
    requires i < |s.blocks| ==> s.blocks[i].free && s.blocks[i].size >= Rounded(size)
    ensures var m, (t, p) := Rounded(size), Malloc(s, size);
            var page := PageSize(m);
            var grown := Block(s.brk, page - 24, false);
            && page >= 24
            && (i < |s.blocks| ==> p == s.blocks[i].addr + 24 && t.blocks == Place(s.blocks, i, m) && t.brk == s.brk)
            && (i == |s.blocks| > 0 && s.brk + page <= 0x3000_0000 ==>
                  p == s.brk + 24 && t.blocks == Place(s.blocks + [grown], i, m) && t.brk == s.brk + page)
            && (s.blocks == [] && s.brk + 2 * page <= 0x3000_0000 ==>
                  p == s.brk + page + 24 && t.brk == s.brk + 2 * page &&
                  t.blocks == Place([grown, Block(s.brk + page, page - 24, false)], 1, m))
  {
    hide Place, Rounded, PageSize;
    PageBounds(size);
    var m := Rounded(size);
    FitUnique(s.blocks, m, i);
    if s.blocks == [] && s.brk + 2 * PageSize(m) <= LIMIT {
      FirstMalloc(s, m, size);
    }
  }

  lemma FirstMalloc(s: State, m: nat, size: nat)
    requires s.blocks == [] && PageSize(m) >= HEADER && s.brk + 2 * PageSize(m) <= LIMIT
    ensures var page := PageSize(m);
            var (t, p) := Search(Grown(s, m), m, size);
            && CanGrow(s, m) && p == s.brk + page + 24 && t.brk == s.brk + 2 * page
            && t.blocks == Place([Block(s.brk, page - 24, false), Block(s.brk + page, page - 24, false)], 1, m)
  {
    hide Place, PageSize;
    var g, page := Grown(s, m), PageSize(m);
    assert g.blocks == [Block(s.brk, page - 24, false)];
    FitUnique(g.blocks, m, 1);
    assert Grown(g, m).blocks == [Block(s.brk, page - 24, false), Block(s.brk + page, page - 24, false)];
  }

  lemma FitUnique(bs: seq<Block>, m: nat, i: nat)
    requires i <= |bs| && (forall j :: 0 <= j < i ==> !(bs[j].free && bs[j].size >= m))
    requires i < |bs| ==> bs[i].free && bs[i].size >= m
    ensures FirstFit(bs, m) == i
  {
    var k := FirstFit(bs, m);
    hide FirstFit;
  }

  // realloc stays where it is exactly if the block holds the new size.
  lemma ReallocStays(s: State, p: nat, size: nat)
    requires Inv(s) && 0 < size <= MAX_REQUEST && p in s.live
    ensures var i, (t, q) := IndexOf(s.blocks, p), Realloc(s, p, size);
            i < |s.blocks| && s.blocks[i].addr + 24 == p &&
            if s.blocks[i].size >= size then q == p && t.blocks == s.blocks && t.brk == s.brk
            else q != p && (q == 0 ==> t.blocks == Malloc(s, size).0.blocks)
  {
    hide Malloc, Free, Tiles, Spaced;
    var i := LiveBlock(s, p);
    MallocKeeps(s, size);
    NullNotLive(s);
  }

  // The break moves by the increment, up to the shared libc and down to the
  // start.
  lemma BreakMeans(start: nat, brk: nat, inc: int)
    requires start <= brk <= 0x3000_0000
    ensures inc >= 0 && brk + inc <= 0x3000_0000 ==> NewBreak(start, brk, inc) == brk + inc && !SbrkFails(brk, inc)
    ensures brk + inc > 0x3000_0000 ==> NewBreak(start, brk, inc) == brk && SbrkFails(brk, inc)
    ensures inc < 0 && brk + inc >= start ==> NewBreak(start, brk, inc) == brk + inc && !SbrkFails(brk, inc)
    ensures inc < 0 && brk + inc < start ==> NewBreak(start, brk, inc) == start && !SbrkFails(brk, inc)
  {}

  lemma NullNotLive(s: State)
    requires Inv(s)
    ensures 0 !in s.live
  {}

  // realloc moves, shrinks in place, or fails and leaves the old block alone.
  lemma ReallocKeeps(s: State, p: nat, size: nat)
    requires Inv(s) && size <= MAX_REQUEST && (p == 0 || p in s.live)
    ensures var (t, q) := Realloc(s, p, size);
            && Inv(t) && t.start == s.start
            && (q != 0 ==> t.live == (s.live - {p})[q := size] && (q == p || q !in s.live))
            && (q == 0 ==> t.live == if size == 0 then s.live - {p} else s.live)
            && forall b :: b in Used(s.blocks) && Payload(b) != p ==> b in Used(t.blocks)
  {
    hide Tiles, Spaced, Release, Malloc, Rounded, PageSize;
    if p == 0 {
      MallocKeeps(s, size);
      NullNotLive(s);
    } else {
      var i := LiveBlock(s, p);
      if size == 0 {
        FreeKeeps(s, p);
      } else if s.blocks[i].size >= size {
        InPlaceKeeps(s, p, size, i);
      } else {
        MallocKeeps(s, size);
        var (t, q) := Malloc(s, size);
        if q != 0 {
          MovedKeeps(s, p, size, t, q);
        }
      }
    }
  }

  lemma InPlaceKeeps(s: State, p: nat, size: nat, i: nat)
    requires Inv(s) && p in s.live && i < |s.blocks| && Payload(s.blocks[i]) == p && !s.blocks[i].free
    requires s.blocks[i].size >= size
    ensures Inv(s.(live := s.live[p := size])) && s.live[p := size] == (s.live - {p})[p := size]
  {
    assert s.blocks[i] in Used(s.blocks);
  }

  lemma MovedKeeps(s: State, p: nat, size: nat, t: State, q: nat)
    requires Inv(s) && p in s.live && MallocOk(s, size, t, q) && q != 0
    ensures Inv(Free(t, p)) && Free(t, p).start == s.start
    ensures Free(t, p).live == (s.live - {p})[q := size]
    ensures forall b :: b in Used(s.blocks) && Payload(b) != p ==> b in Used(Free(t, p).blocks)
  {
    hide Tiles, Spaced, Release, Holds;
    FreeKeeps(t, p);
    var i := LiveBlock(t, p);
  }

  // ---- Runs ----

  datatype Call = CallMalloc(size: nat) | CallFree(p: nat) | CallRealloc(p: nat, size: nat)

  // The program passes back only null or pointers it holds.
  predicate Legal(s: State, c: Call) {
    match c
    case CallMalloc(size) => size <= MAX_REQUEST
    case CallFree(p) => p == 0 || p in s.live
    case CallRealloc(p, size) => size <= MAX_REQUEST && (p == 0 || p in s.live)
  }

  function After(s: State, c: Call): State
    requires Legal(s, c)
  {
    match c
    case CallMalloc(size) => Malloc(s, size).0
    case CallFree(p) => Free(s, p)
    case CallRealloc(p, size) => Realloc(s, p, size).0
  }

  ghost predicate Run(states: seq<State>, calls: seq<Call>) {
    && |states| == |calls| + 1
    && states[0].blocks == [] && states[0].brk == states[0].start <= LIMIT && states[0].live == map[]
    && 0 < states[0].start && states[0].start % 4096 == 0
    && forall i :: 0 <= i < |calls| ==> Legal(states[i], calls[i]) && states[i + 1] == After(states[i], calls[i])
  }

  // The allocator's invariant holds after any sequence of legal calls.
  lemma {:induction false} RunKeeps(states: seq<State>, calls: seq<Call>, i: nat)
    requires Run(states, calls) && i < |states|
    ensures Inv(states[i]) && states[i].start == states[0].start
  {
    hide Malloc, Realloc, Tiles;
    if i == 0 {
      assert Tiles([], states[0].start, states[0].brk) by { TilesNone(states[0].start); }
    } else {
      RunKeeps(states, calls, i - 1);
      var s, c := states[i - 1], calls[i - 1];
      assert states[i - 1 + 1] == After(s, c);
      match c {
        case CallMalloc(size) => MallocKeeps(s, size);
        case CallFree(p) =>
          if p == 0 { NullNotPayload(s.blocks); } else { FreeKeeps(s, p); }
        case CallRealloc(p, size) => ReallocKeeps(s, p, size);
      }
    }
  }

  lemma TilesNone(lo: nat)
    ensures Tiles([], lo, lo)
  {}

  lemma NullNotPayload(bs: seq<Block>)
    ensures IndexOf(bs, 0) == |bs|
  {}

  // ---- Nothing is lost but the first growth ----

  // Every used block is live, but for the first.
  ghost predicate NoLeak(s: State) {
    forall b :: b in Used(s.blocks) ==> Payload(b) in s.live || (s.blocks != [] && b == s.blocks[0])
  }

  lemma MallocNoLeak(s: State, size: nat)
    requires Inv(s) && NoLeak(s) && size <= MAX_REQUEST
    ensures NoLeak(Malloc(s, size).0)
  {
    hide Malloc, Inv;
    MallocKeeps(s, size);
    if s.blocks == [] { assert Used(s.blocks) == {}; }
  }

  lemma FreeNoLeak(s: State, p: nat)
    requires Inv(s) && NoLeak(s) && p in s.live
    ensures NoLeak(Free(s, p))
  {
    hide Release, Inv;
    FreeKeeps(s, p);
    var i := LiveBlock(s, p);
    OnePayload(s, i);
    FirstKept(s, p);
  }

  lemma OnePayload(s: State, i: nat)
    requires Inv(s) && i < |s.blocks|
    ensures forall b :: b in s.blocks && Payload(b) == Payload(s.blocks[i]) ==> b == s.blocks[i]
  {
    forall b | b in s.blocks && Payload(b) == Payload(s.blocks[i]) ensures b == s.blocks[i] {
      var j :| 0 <= j < |s.blocks| && s.blocks[j] == b;
      SamePayload(s.blocks, i, j, s.start, s.brk);
    }
  }

  lemma FirstKept(s: State, p: nat)
    requires Inv(s) && p in s.live
    ensures s.blocks != [] && Free(s, p).blocks != [] && Free(s, p).blocks[0] == s.blocks[0]
  {
    hide Release;
    var i := LiveBlock(s, p);
    ReleaseFirst(s.blocks, i);
  }

  lemma CallNoLeak(s: State, c: Call)
    requires Inv(s) && NoLeak(s) && Legal(s, c)
    ensures NoLeak(After(s, c))
  {
    hide NoLeak, Inv, Malloc, Free;
    match c {
      case CallMalloc(size) => MallocNoLeak(s, size);
      case CallFree(p) => if p == 0 { NullFree(s); } else { FreeNoLeak(s, p); }
      case CallRealloc(p, size) =>
        if p == 0 {
          MallocNoLeak(s, size);
        } else if size == 0 {
          FreeNoLeak(s, p);
        } else {
          var i := LiveBlock(s, p);
          if s.blocks[i].size >= size {
            ResizedNoLeak(s, p, size);
          } else {
            MallocKeeps(s, size);
            MallocNoLeak(s, size);
            if Malloc(s, size).1 != 0 { FreeNoLeak(Malloc(s, size).0, p); }
          }
        }
    }
  }

  lemma NullFree(s: State)
    ensures Free(s, 0) == s
  {
    NullNotPayload(s.blocks);
  }

  lemma ResizedNoLeak(s: State, p: nat, size: nat)
    requires NoLeak(s) && p in s.live
    ensures NoLeak(s.(live := s.live[p := size]))
  {}

  // In every run the used blocks are exactly the live ones and the block of
  // the first growth, which stays where it is and is never handed out.
  lemma {:induction false} RunLosesOnlyFirst(states: seq<State>, calls: seq<Call>, i: nat)
    requires Run(states, calls) && i < |states|
    ensures NoLeak(states[i])
    ensures states[i].blocks != [] ==> !states[i].blocks[0].free && Payload(states[i].blocks[0]) !in states[i].live
  {
    RunKeeps(states, calls, i);
    hide Inv, After, NoLeak;
    if i == 0 {
      assert NoLeak(states[0]) by { NothingUsed(states[0]); }
    } else {
      RunKeeps(states, calls, i - 1);
      RunLosesOnlyFirst(states, calls, i - 1);
      assert states[i - 1 + 1] == After(states[i - 1], calls[i - 1]);
      CallNoLeak(states[i - 1], calls[i - 1]);
    }
    if states[i].blocks != [] { FirstUsed(states[i]); }
  }

  lemma NothingUsed(s: State)
    requires s.blocks == []
    ensures NoLeak(s)
  {}

  lemma FirstUsed(s: State)
    requires Inv(s) && s.blocks != []
    ensures !s.blocks[0].free && Payload(s.blocks[0]) !in s.live
  {}
}
