// The libc allocator as it runs (user/libc.c:88-201): headers linked by address
// inside the memory they describe, each operation against its meaning in
// HeapModel.
module Heap {
  import opened Words
  import opened HeapModel

  // A byte the program wrote, a whole header starting here, or the inside of
  // a header.
  datatype Cell = Byte(b: byte) | Header(size: nat, free: bool, next: nat) | Inside

  // The header of b in a heap that ends at brk.
  function HeaderOf(b: Block, brk: nat): Cell {
    Header(b.size, b.free, if End(b) < brk then End(b) else 0)
  }

  ghost predicate Linked(mem: seq<Cell>, bs: seq<Block>, brk: nat) {
    |mem| == LIMIT && forall b :: b in bs ==> b.addr < LIMIT && mem[b.addr] == HeaderOf(b, brk)
  }

  ghost predicate InUsed(bs: seq<Block>, a: nat) {
    exists b :: b in Used(bs) && Payload(b) <= a < End(b)
  }

  // The bytes of every block used in bs are the same in both memories.
  ghost predicate SameUsed(bs: seq<Block>, m: seq<Cell>, m': seq<Cell>) {
    |m| == |m'| && forall a :: 0 <= a < |m| && InUsed(bs, a) ==> m'[a] == m[a]
  }

  function AddrAt(bs: seq<Block>, i: nat): nat
    requires i <= |bs|
  {
    if i < |bs| then bs[i].addr else 0
  }

  ghost function Stored(m: seq<Cell>, a: nat, h: Cell): seq<Cell>
    requires a + HEADER <= |m|
  {
    seq(|m|, j requires 0 <= j < |m| => if a < j < a + HEADER then Inside else if j == a then h else m[j])
  }

  // ---- What each write does to the list ----

  lemma NotUsedHere(bs: seq<Block>, i: nat, a: nat, lo: nat, hi: nat)
    requires Tiles(bs, lo, hi) && i < |bs| && bs[i].addr <= a < End(bs[i])
    requires a < Payload(bs[i]) || bs[i].free
    ensures !InUsed(bs, a)
  {
    forall b | b in Used(bs) && Payload(b) <= a < End(b) ensures false {
      var j :| 0 <= j < |bs| && bs[j] == b;
      if j < i { TilesApart(bs, j, i, lo, hi); }
      if i < j { TilesApart(bs, i, j, lo, hi); }
    }
  }

  lemma NotUsedAbove(bs: seq<Block>, a: nat, lo: nat, hi: nat)
    requires Tiles(bs, lo, hi) && hi <= a
    ensures !InUsed(bs, a)
  {
    forall b | b in Used(bs) && Payload(b) <= a < End(b) ensures false {
      var j :| 0 <= j < |bs| && bs[j] == b;
      TilesWithin(bs, j, lo, hi);
    }
  }

  // The link stored in block i leads to block i + 1.
  lemma NextAddr(m: seq<Cell>, bs: seq<Block>, i: nat, lo: nat, hi: nat)
    requires Tiles(bs, lo, hi) && Linked(m, bs, hi) && i < |bs| && hi <= LIMIT
    ensures bs[i].addr + HEADER <= LIMIT
    ensures m[bs[i].addr] == Header(bs[i].size, bs[i].free, AddrAt(bs, i + 1))
    ensures AddrAt(bs, i + 1) == if End(bs[i]) < hi then End(bs[i]) else 0
  {
    TilesNext(bs, i, lo, hi);
    TilesWithin(bs, i, lo, hi);
    if i + 1 < |bs| { TilesWithin(bs, i + 1, lo, hi); }
  }

  lemma AddrPositive(bs: seq<Block>, i: nat, lo: nat, hi: nat)
    requires Tiles(bs, lo, hi) && i <= |bs| && lo > 0
    ensures AddrAt(bs, i) == 0 <==> i == |bs|
  {
    if i < |bs| { TilesWithin(bs, i, lo, hi); }
  }

  // m' has the new headers of mid and keeps the cells outside block i.
  lemma LinkedReplace(m: seq<Cell>, m': seq<Cell>, bs: seq<Block>, i: nat, k: nat, mid: seq<Block>, lo: nat, hi: nat)
    requires Tiles(bs, lo, hi) && hi <= LIMIT && Linked(m, bs, hi) && i < k <= |bs| && |m'| == |m|
    requires forall b :: b in mid ==> b.addr < LIMIT && m'[b.addr] == HeaderOf(b, hi)
    requires forall a :: 0 <= a < |m| && !(bs[i].addr <= a < End(bs[k - 1])) ==> m'[a] == m[a]
    ensures Linked(m', bs[..i] + mid + bs[k..], hi)
  {
    var c := bs[..i] + mid + bs[k..];
    forall b | b in c ensures b.addr < LIMIT && m'[b.addr] == HeaderOf(b, hi) {
      if b !in mid {
        var j :| 0 <= j < |bs| && bs[j] == b && (j < i || k <= j);
        if j < i { TilesApart(bs, j, i, lo, hi); } else { TilesApart(bs, k - 1, j, lo, hi); }
        TilesWithin(bs, j, lo, hi);
      }
    }
  }

  class Allocator {
    const start: nat
    var brk: nat
    var base: nat
    const mem: array<Cell>
    ghost var blocks: seq<Block>
    ghost var live: map<nat, nat>

    ghost function View(): State
      reads this
    {
      State(start, blocks, brk, live)
    }

    ghost predicate Shape()
      reads this, mem
    {
      && Tiles(blocks, start, brk) && 0 < start && brk <= LIMIT
      && Linked(mem[..], blocks, brk)
      && base == AddrAt(blocks, 0)
    }

    ghost predicate Valid()
      reads this, mem
    {
      Inv(View()) && Shape()
    }

    constructor (start: nat)
      requires 0 < start <= LIMIT && start % 4096 == 0
      ensures Valid() && fresh(mem) && View() == State(start, [], start, map[])
    {
      this.start := start;
      brk := start;
      base := 0;
      mem := new Cell[LIMIT];
      blocks := [];
      live := map[];
    }

    // The system call: the old break, or -1.
    method Sbrk(inc: int) returns (r: int)
      requires start <= brk <= LIMIT
      modifies this`brk
      ensures r == if SbrkFails(old(brk), inc) then -1 else old(brk)
      ensures brk == NewBreak(start, old(brk), inc) && start <= brk <= LIMIT
    {
      var old_ := brk;
      if inc == 0 { return old_; }
      if inc < 0 {
        var dec := -inc;
        brk := if dec > old_ - start then start else old_ - dec;
        return old_;
      }
      if old_ + inc > LIMIT { return -1; }
      brk := old_ + inc;
      return old_;
    }

    // Store a header, over whatever bytes were there.
    method SetHeader(a: nat, size: nat, free: bool, next: nat)
      requires mem.Length == LIMIT && a + HEADER <= LIMIT
      modifies mem
      ensures mem[..] == Stored(old(mem[..]), a, Header(size, free, next))
    {
      ghost var m := mem[..];
      mem[a] := Header(size, free, next);
      for k := a + 1 to a + HEADER
        invariant forall j :: 0 <= j < LIMIT ==> mem[j] == if a < j < k then Inside else if j == a then Header(size, free, next) else m[j]
      {
        mem[k] := Inside;
      }
    }

    // The last block, found by following the links.
    method LastBlock(ghost bs: seq<Block>, ghost end: nat) returns (b: nat)
      requires Tiles(bs, start, end) && Linked(mem[..], bs, end) && 0 < start && end <= LIMIT
      requires bs != [] && base == bs[0].addr
      ensures b == bs[|bs| - 1].addr < mem.Length && mem[b].Header?
    {
      hide Tiles, Linked;
      LinkedLength(mem[..], bs, end);
      b := base;
      ghost var i := 0;
      NextAddr(mem[..], bs, i, start, end);
      AddrPositive(bs, i + 1, start, end);
      while mem[b].next != 0
        invariant i < |bs| && b == bs[i].addr && b < LIMIT && mem[b] == Header(bs[i].size, bs[i].free, AddrAt(bs, i + 1))
        invariant AddrAt(bs, i + 1) == 0 <==> i + 1 == |bs|
        decreases |bs| - i
      {
        b := mem[b].next;
        i := i + 1;
        NextAddr(mem[..], bs, i, start, end);
        AddrPositive(bs, i + 1, start, end);
      }
    }

    // Ask for whole pages and append them as one used block.
    method GrowHeap(min: nat) returns (r: nat)
      requires Shape() && HEADER <= PageSize(min) < WORD / 2
      modifies this, mem
      ensures Shape() && SameUsed(old(blocks), old(mem[..]), mem[..])
      ensures CanGrow(old(View()), min) ==> r == old(brk) && View() == Grown(old(View()), min)
      ensures !CanGrow(old(View()), min) ==> r == 0 && View() == old(View())
    {
      hide Tiles, Linked, InUsed;
      var page := 4096;
      if (min + HEADER) % WORD > page {
        page := (min + HEADER + 4096) % WORD;
      }
      page := (page + 0xfff) % WORD / 4096 * 4096;
      assert page == PageSize(min);
      ghost var m0, bs, end := mem[..], blocks, brk;
      TilesBound(bs, start, end);
      var at := Sbrk(Signed(page));
      if at < 0 { return 0; }
      hide PageSize;
      LinkedLength(m0, bs, end);
      SetHeader(at, page - HEADER, false, 0);
      AddrPositive(bs, 0, start, end);
      ghost var last := 0;
      if base == 0 {
        base := at;
      } else {
        LinkedStored(m0, bs, start, end, Header(page - HEADER, false, 0));
        var b := LastBlock(bs, end);
        mem[b] := mem[b].(next := at);
        last := b;
      }
      blocks := bs + [Block(at, page - HEADER, false)];
      GrownLinked(m0, mem[..], bs, start, end, page, last);
      return at;
    }

    // Give away m bytes of block i, making a free block of a large enough rest.
    method CarveAt(b: nat, m: nat, next: nat, ghost i: nat)
      requires Shape() && i < |blocks| && b == blocks[i].addr && blocks[i].size >= m && next == AddrAt(blocks, i + 1)
      modifies this`blocks, mem
      ensures Shape() && blocks == Place(old(blocks), i, m)
      ensures SameUsed(Others(old(blocks), i), old(mem[..]), mem[..])
    {
      hide Tiles, Linked, SameUsed, Place;
      ghost var m0, bs := mem[..], blocks;
      NextAddr(m0, bs, i, start, brk);
      TilesWithin(bs, i, start, brk);
      LinkedLength(m0, bs, brk);
      if mem[b].size >= m + HEADER + 16 {
        var rest := b + HEADER + m;
        SetHeader(rest, mem[b].size - m - HEADER, true, next);
        mem[b] := mem[b].(size := m, next := rest);
      }
      mem[b] := mem[b].(free := false);
      Carved(m0, mem[..], bs, i, m, start, brk);
      blocks := Place(bs, i, m);
    }

    // First fit, then growth.
    method SearchFrom(size: nat, request: nat) returns (p: nat)
      requires Shape() && blocks != [] && HEADER + size <= PageSize(size) < WORD / 2
      modifies this, mem
      ensures (View(), p) == Search(old(View()), size, request) && Shape()
      ensures SameUsed(old(blocks), old(mem[..]), mem[..])
    {
      hide Tiles, Linked, SameUsed, Place, PageSize;
      ghost var bs, m1, s1, base0 := blocks, mem[..], View(), base;
      var block := base;
      ghost var i := 0;
      AddrPositive(bs, 0, start, brk);
      TilesBound(bs, start, brk);
      LinkedLength(m1, bs, brk);
      while block != 0
        invariant i <= |bs| && block == AddrAt(bs, i)
        invariant FirstFit(bs, size) >= i
        invariant block == 0 ==> i == |bs|
        invariant mem[..] == m1 && View() == s1 && base == base0
        decreases |bs| - i
      {
        AddrPositive(bs, i, start, brk);
        NextAddr(mem[..], bs, i, start, brk);
        AddrPositive(bs, i + 1, start, brk);
        FirstFitAt(bs, size, i);
        if mem[block].free && mem[block].size >= size {
          PlaceUsed(bs, i, size);
          CarveAt(block, size, mem[block].next, i);
          live := live[block + HEADER := request];
          OthersUsed(bs, i, m1, mem[..]);
          return block + HEADER;
        }
        block := mem[block].next;
        i := i + 1;
      }
      block := GrowHeap(size);
      if block == 0 { return 0; }
      ghost var m2, grown := mem[..], blocks;
      CarveAt(block, size, 0, |bs|);
      live := live[block + HEADER := request];
      OthersLast(bs, grown, m2, mem[..]);
      SameTrans(bs, bs, m1, m2, mem[..]);
      return block + HEADER;
    }

    method Malloc(request: nat) returns (p: nat)
      requires Valid() && request <= MAX_REQUEST
      modifies this, mem
      ensures Valid() && (View(), p) == HeapModel.Malloc(old(View()), request)
      ensures SameUsed(old(blocks), old(mem[..]), mem[..])
    {
      hide Tiles, Linked, SameUsed, Place, Inv, PageSize;
      ghost var s0, m0 := View(), mem[..];
      MallocKeeps(s0, request);
      PageBounds(request);
      var size := request;
      if size == 0 { size := 1; }
      size := (size + 7) % WORD / 8 * 8;
      SameRefl(blocks, m0);
      AddrPositive(blocks, 0, start, brk);
      TilesBound(blocks, start, brk);
      if base == 0 {
        var hb := GrowHeap(size);
        if hb == 0 { return 0; }
      }
      ghost var bs, m1 := blocks, mem[..];
      p := SearchFrom(size, request);
      SameTrans(s0.blocks, bs, m0, m1, mem[..]);
    }

    // Mark block i free and swallow a free successor.
    method MergeNextAt(block: nat, ghost i: nat)
      requires Shape() && i < |blocks| && block == blocks[i].addr
      modifies this`blocks, mem
      ensures Shape() && blocks == MergeNext(old(blocks), i)
      ensures SameUsed(old(blocks), old(mem[..]), mem[..])
    {
      hide Tiles, Linked, SameUsed;
      ghost var m0, bs := mem[..], blocks;
      LinkedLength(m0, bs, brk);
      NextAddr(m0, bs, i, start, brk);
      AddrPositive(bs, i + 1, start, brk);
      mem[block] := mem[block].(free := true);
      var next := mem[block].next;
      if next != 0 {
        NextAddr(m0, bs, i + 1, start, brk);
        NextApart(bs, i, start, brk);
        if mem[next].free {
          mem[block] := mem[block].(size := mem[block].size + HEADER + mem[next].size);
          mem[block] := mem[block].(next := mem[next].next);
        }
      }
      NextMerged(m0, mem[..], bs, i, start, brk);
      blocks := MergeNext(bs, i);
    }

    // Let a free predecessor swallow block i.
    method MergePrevAt(block: nat, ghost i: nat)
      requires Shape() && i < |blocks| && block == blocks[i].addr
      modifies this`blocks, mem
      ensures Shape() && blocks == MergePrev(old(blocks), i)
      ensures SameUsed(old(blocks), old(mem[..]), mem[..])
    {
      hide Tiles, Linked, SameUsed;
      ghost var m0, bs := mem[..], blocks;
      LinkedLength(m0, bs, brk);
      AddrPositive(bs, 0, start, brk);
      NextAddr(m0, bs, i, start, brk);
      SameRefl(bs, m0);
      var prev := base;
      ghost var j := 0;
      NextAddr(m0, bs, 0, start, brk);
      while prev != 0 && mem[prev].next != block
        invariant j <= |bs| && prev == AddrAt(bs, j) && (prev != 0 ==> prev < LIMIT && mem[prev].Header?)
        invariant prev != 0 <==> j < |bs|
        invariant j < i || (i == 0 && j <= |bs|) || j == |bs|
        invariant i > 0 ==> j < i
        decreases |bs| - j
        modifies {}
      {
        NextAddr(m0, bs, j, start, brk);
        LinkUnique(bs, i, j, start, brk);
        prev := mem[prev].next;
        j := j + 1;
        AddrPositive(bs, j, start, brk);
        if j < |bs| { NextAddr(m0, bs, j, start, brk); }
      }
      assert mem[..] == m0;
      if prev != 0 {
        NextAddr(m0, bs, j, start, brk);
        LinkUnique(bs, i, j, start, brk);
        NextApart(bs, j, start, brk);
        if mem[prev].free {
          mem[prev] := mem[prev].(size := mem[prev].size + HEADER + mem[block].size);
          mem[prev] := mem[prev].(next := mem[block].next);
          PrevMerged(m0, mem[..], bs, i, start, brk);
        }
      }
      blocks := MergePrev(bs, i);
    }

    method Free(ptr: nat)
      requires Valid() && (ptr == 0 || ptr in live)
      modifies this, mem
      ensures Valid() && View() == HeapModel.Free(old(View()), ptr)
      ensures SameUsed(blocks, old(mem[..]), mem[..])
    {
      hide Tiles, Linked, SameUsed, Inv, MergeNext, MergePrev, Used;
      ghost var s0, m0 := View(), mem[..];
      SameRefl(blocks, m0);
      if ptr == 0 {
        NullNotPayload(blocks);
        return;
      }
      FreeKeeps(s0, ptr);
      ghost var i := LiveBlock(s0, ptr);
      var block := ptr - HEADER;
      MergeNextAt(block, i);
      ghost var m1, bs1 := mem[..], blocks;
      MergeNextIndex(s0.blocks, i);
      MergePrevAt(block, i);
      live := live - {ptr};
      SameFewer(s0.blocks, blocks, m0, m1);
      ReleasedUsed(s0, i);
      SameFewer(bs1, blocks, m1, mem[..]);
      SameTrans(blocks, blocks, m0, m1, mem[..]);
    }

    // Copy n bytes into the payload of block i.
    method MemCopy(dst: nat, src: nat, n: nat, ghost i: nat)
      requires Shape() && i < |blocks| && dst == Payload(blocks[i]) && n <= blocks[i].size
      requires src + n <= LIMIT && (src + n <= dst || dst + n <= src)
      modifies mem
      ensures Shape() && SameUsed(Others(blocks, i), old(mem[..]), mem[..])
      ensures KeptBytes(old(mem[..]), src, mem[..], dst, n)
    {
      hide Tiles, SameUsed;
      ghost var m0 := mem[..];
      TilesWithin(blocks, i, start, brk);
      for k := 0 to n
        invariant |m0| == LIMIT == mem.Length
        invariant forall a :: 0 <= a < LIMIT && !(dst <= a < dst + k) ==> mem[a] == m0[a]
        invariant mem[dst..dst + k] == m0[src..src + k]
      {
        mem[dst + k] := mem[src + k];
        assert mem[dst..dst + k + 1] == mem[dst..dst + k] + [m0[src + k]];
      }
      SliceEnds(m0, src, n);
      SliceEnds(mem[..], dst, n);
      OthersSame(m0, mem[..], blocks, i, start, brk);
      PayloadChange(m0, mem[..], blocks, i, start, brk);
    }

    method Realloc(ptr: nat, size: nat) returns (q: nat)
      requires Valid() && size <= MAX_REQUEST && (ptr == 0 || ptr in live)
      modifies this, mem
      ensures Valid() && (View(), q) == HeapModel.Realloc(old(View()), ptr, size)
      ensures var i := IndexOf(old(blocks), ptr);
              if i < |old(blocks)| then
                && SameUsed(Others(old(blocks), i), old(mem[..]), mem[..])
                && (q != 0 ==> KeptBytes(old(mem[..]), ptr, mem[..], q, if size < old(blocks)[i].size then size else old(blocks)[i].size))
              else SameUsed(old(blocks), old(mem[..]), mem[..])
    {
      hide Tiles, Linked, SameUsed, Inv, MergeNext, MergePrev, HeapModel.Malloc, HeapModel.Free, Used;
      ghost var s0, m0 := View(), mem[..];
      if ptr == 0 {
        NullNotPayload(blocks);
        q := Malloc(size);
        return;
      }
      ReallocKeeps(s0, ptr, size);
      ghost var i := LiveBlock(s0, ptr);
      if size == 0 {
        Free(ptr);
        FreedOthers(s0, ptr, i, m0, mem[..]);
        return 0;
      }
      var block := ptr - HEADER;
      NextAddr(m0, blocks, i, start, brk);
      LinkedLength(m0, blocks, brk);
      TilesWithin(blocks, i, start, brk);
      var capacity := mem[block].size;
      SameRefl(Others(blocks, i), m0);
      if capacity >= size {
        live := live[ptr := size];
        return ptr;
      }
      MallocKeeps(s0, size);
      q := Malloc(size);
      ghost var s1, m1 := View(), mem[..];
      OthersFewer(s0.blocks, i);
      SameFewer(s0.blocks, Others(s0.blocks, i), m0, m1);
      if q == 0 { return; }
      Moved(s0, s1, ptr, i, q, size);
      ghost var j := LiveBlock(s1, q);
      MovedOthers(s0, s1, ptr, i, q, j, size);
      MemCopy(q, ptr, capacity, j);
      ghost var m2 := mem[..];
      Free(ptr);
      SameFewer(Others(s1.blocks, j), Others(s0.blocks, i), m1, m2);
      SameFewer(blocks, Others(s0.blocks, i), m2, mem[..]);
      SameTrans(Others(s0.blocks, i), Others(s0.blocks, i), m0, m1, m2);
      SameTrans(Others(s0.blocks, i), Others(s0.blocks, i), m0, m2, mem[..]);
      BytesStay(s0.blocks, s0.blocks[i], capacity, m0, m1);
      BytesStay(blocks, s1.blocks[j], capacity, m2, mem[..]);
    }

    // The program stores a byte in memory it holds.
    method Poke(p: nat, k: nat, v: byte)
      requires Valid() && p in live && k < live[p]
      modifies mem
      ensures Valid() && p + k < mem.Length && mem[..] == old(mem[..])[p + k := Byte(v)]
    {
      hide Tiles, Linked, Inv;
      ghost var i := LiveBlock(View(), p);
      LinkedLength(mem[..], blocks, brk);
      TilesWithin(blocks, i, start, brk);
      ghost var m0 := mem[..];
      mem[p + k] := Byte(v);
      PayloadChange(m0, mem[..], blocks, i, start, brk);
    }
  }

  // n bytes at q are now what n bytes at p were.
  ghost predicate KeptBytes(m: seq<Cell>, p: nat, m': seq<Cell>, q: nat, n: nat) {
    p + n <= |m| && q + n <= |m'| && m'[q..][..n] == m[p..][..n]
  }

  lemma SliceEnds(m: seq<Cell>, p: nat, n: nat)
    requires p + n <= |m|
    ensures m[p..][..n] == m[p..p + n]
  {}

  // Writing inside a payload touches no header.
  lemma PayloadChange(m: seq<Cell>, m': seq<Cell>, bs: seq<Block>, i: nat, lo: nat, hi: nat)
    requires Tiles(bs, lo, hi) && Linked(m, bs, hi) && hi <= LIMIT && i < |bs| && |m'| == |m|
    requires forall a :: 0 <= a < |m| && !(Payload(bs[i]) <= a < End(bs[i])) ==> m'[a] == m[a]
    ensures Linked(m', bs, hi)
  {
    TilesWithin(bs, i, lo, hi);
    LinkedReplace(m, m', bs, i, i + 1, [bs[i]], lo, hi);
    Cut3(bs, i);
  }

  lemma OthersFewer(bs: seq<Block>, i: nat)
    requires i < |bs|
    ensures Used(Others(bs, i)) <= Used(bs)
  {}

  lemma OthersExact(s: State, i: nat)
    requires Inv(s) && i < |s.blocks| && !s.blocks[i].free
    ensures Used(Others(s.blocks, i)) == Used(s.blocks) - {s.blocks[i]}
  {
    Cut3(s.blocks, i);
    forall b | b in Others(s.blocks, i) ensures b != s.blocks[i] {
      var j :| 0 <= j < |s.blocks| && j != i && s.blocks[j] == b;
      if b == s.blocks[i] { SamePayload(s.blocks, i, j, s.start, s.brk); }
    }
  }

  lemma BytesStay(bs: seq<Block>, b: Block, n: nat, m: seq<Cell>, m': seq<Cell>)
    requires SameUsed(bs, m, m') && b in Used(bs) && n <= b.size && End(b) <= |m|
    ensures m'[Payload(b)..][..n] == m[Payload(b)..][..n]
  {
    var p := Payload(b);
    forall k: nat | k < n ensures m'[p..][..n][k] == m[p..][..n][k] {
      assert InUsed(bs, p + k);
    }
  }

  lemma FreedOthers(s: State, p: nat, i: nat, m: seq<Cell>, m': seq<Cell>)
    requires Inv(s) && p in s.live && i < |s.blocks| && IndexOf(s.blocks, p) == i && !s.blocks[i].free
    requires SameUsed(HeapModel.Free(s, p).blocks, m, m')
    ensures SameUsed(Others(s.blocks, i), m, m')
  {
    hide HeapModel.Free, Inv, SameUsed;
    FreeKeeps(s, p);
    OthersExact(s, i);
    SameFewer(HeapModel.Free(s, p).blocks, Others(s.blocks, i), m, m');
  }

  // After malloc the old block is still there, apart from the new one.
  lemma Moved(s: State, t: State, p: nat, i: nat, q: nat, size: nat)
    requires Inv(s) && MallocOk(s, size, t, q) && q != 0
    requires p in s.live && i < |s.blocks| && Payload(s.blocks[i]) == p && !s.blocks[i].free
    ensures p in t.live && q in t.live && t.live[q] == size && p != q
    ensures End(s.blocks[i]) <= t.brk && (End(s.blocks[i]) <= q || q + size <= p)
  {
    hide Tiles;
    var b := s.blocks[i];
    assert b in Used(t.blocks);
    var k :| 0 <= k < |t.blocks| && t.blocks[k] == b;
    var j := LiveBlock(t, q);
    TilesWithin(t.blocks, k, t.start, t.brk);
    if j < k { TilesApart(t.blocks, j, k, t.start, t.brk); } else if k < j { TilesApart(t.blocks, k, j, t.start, t.brk); }
  }

  // The blocks s held, other than p's, through malloc, copy and free.
  lemma MovedOthers(s: State, t: State, p: nat, i: nat, q: nat, j: nat, size: nat)
    requires Inv(s) && MallocOk(s, size, t, q) && q != 0
    requires p in s.live && i < |s.blocks| && Payload(s.blocks[i]) == p && !s.blocks[i].free
    requires j < |t.blocks| && Payload(t.blocks[j]) == q && !t.blocks[j].free
    ensures Used(Others(s.blocks, i)) <= Used(Others(t.blocks, j))
    ensures p in t.live && Used(Others(s.blocks, i)) <= Used(HeapModel.Free(t, p).blocks)
    ensures t.blocks[j] in Used(HeapModel.Free(t, p).blocks) && End(t.blocks[j]) <= LIMIT
    ensures s.blocks[i] in Used(s.blocks) && End(s.blocks[i]) <= LIMIT
  {
    hide HeapModel.Free, Tiles;
    OthersExact(s, i);
    OthersExact(t, j);
    TilesWithin(s.blocks, i, s.start, s.brk);
    TilesWithin(t.blocks, j, t.start, t.brk);
    FreeKeeps(t, p);
    var k := LiveBlock(t, p);
    assert s.blocks[i] in Used(t.blocks);
    var k' :| 0 <= k' < |t.blocks| && t.blocks[k'] == s.blocks[i];
    SamePayload(t.blocks, k, k', t.start, t.brk);
  }

  // Block i + 1 starts where block i ends.
  lemma NextApart(bs: seq<Block>, i: nat, lo: nat, hi: nat)
    requires Tiles(bs, lo, hi) && i + 1 < |bs|
    ensures bs[i + 1].addr == End(bs[i])
  {
    TilesNext(bs, i, lo, hi);
  }

  // Only block i - 1 links to block i.
  lemma LinkUnique(bs: seq<Block>, i: nat, j: nat, lo: nat, hi: nat)
    requires Tiles(bs, lo, hi) && i < |bs| && j < |bs| && lo > 0
    ensures AddrAt(bs, j + 1) == bs[i].addr <==> j + 1 == i
  {
    TilesWithin(bs, i, lo, hi);
    if j + 1 < |bs| && j + 1 != i {
      if j + 1 < i { TilesApart(bs, j + 1, i, lo, hi); } else { TilesApart(bs, i, j + 1, lo, hi); }
    }
  }

  // Writes inside blocks i to k - 1 leave the others alone.
  lemma OthersSame(m: seq<Cell>, m': seq<Cell>, bs: seq<Block>, i: nat, lo: nat, hi: nat)
    requires Tiles(bs, lo, hi) && i < |bs| && |m'| == |m|
    requires forall a :: 0 <= a < |m| && !(bs[i].addr <= a < End(bs[i])) ==> m'[a] == m[a]
    ensures SameUsed(Others(bs, i), m, m')
  {
    forall a: nat | a < |m| && InUsed(Others(bs, i), a) ensures m'[a] == m[a] {
      var b :| b in Used(Others(bs, i)) && Payload(b) <= a < End(b);
      var j :| 0 <= j < |bs| && j != i && bs[j] == b;
      if j < i { TilesApart(bs, j, i, lo, hi); } else { TilesApart(bs, i, j, lo, hi); }
    }
  }

  ghost predicate IsCarved(m: seq<Cell>, m': seq<Cell>, b: Block, n: nat, next: nat)
    requires End(b) <= |m| && n <= b.size
  {
    if b.size >= n + HEADER + 16 then
      var rest := b.addr + HEADER + n;
      m' == Stored(m, rest, Header(b.size - n - HEADER, true, next))[b.addr := Header(n, false, rest)]
    else m' == m[b.addr := Header(b.size, false, next)]
  }

  lemma Carved(m: seq<Cell>, m': seq<Cell>, bs: seq<Block>, i: nat, n: nat, lo: nat, hi: nat)
    requires Tiles(bs, lo, hi) && Linked(m, bs, hi) && hi <= LIMIT && 0 < lo && i < |bs| && n <= bs[i].size
    requires End(bs[i]) <= |m| && IsCarved(m, m', bs[i], n, AddrAt(bs, i + 1))
    ensures Linked(m', Place(bs, i, n), hi) && Tiles(Place(bs, i, n), lo, hi)
    ensures SameUsed(Others(bs, i), m, m') && AddrAt(Place(bs, i, n), 0) == AddrAt(bs, 0)
  {
    hide Tiles, Linked, SameUsed, Stored;
    PlaceTiles(bs, i, n, lo, hi);
    NextAddr(m, bs, i, lo, hi);
    TilesWithin(bs, i, lo, hi);
    LinkedLength(m, bs, hi);
    CarvedCells(m, m', bs[i], n, AddrAt(bs, i + 1), hi);
    TilesNext(bs, i, lo, hi);
    OthersSame(m, m', bs, i, lo, hi);
    LinkedReplace(m, m', bs, i, i + 1, Carve(bs[i], n), lo, hi);
  }

  lemma CarvedCells(m: seq<Cell>, m': seq<Cell>, b: Block, n: nat, next: nat, hi: nat)
    requires |m| == LIMIT && End(b) <= hi <= LIMIT && n <= b.size && IsCarved(m, m', b, n, next)
    requires next == if End(b) < hi then End(b) else 0
    ensures |m'| == |m| && forall a :: 0 <= a < |m| && !(b.addr <= a < End(b)) ==> m'[a] == m[a]
    ensures forall c :: c in Carve(b, n) ==> c.addr < LIMIT && m'[c.addr] == HeaderOf(c, hi)
  {}

  lemma {:induction false} FirstFitAt(bs: seq<Block>, m: nat, i: nat)
    requires i < |bs| && FirstFit(bs, m) >= i
    ensures FirstFit(bs, m) == i <==> bs[i].free && bs[i].size >= m
  {
    if i > 0 { FirstFitAt(bs[1..], m, i - 1); }
  }

  lemma OthersUsed(bs: seq<Block>, i: nat, m: seq<Cell>, m': seq<Cell>)
    requires i < |bs| && bs[i].free && SameUsed(Others(bs, i), m, m')
    ensures SameUsed(bs, m, m')
  {
    Cut3(bs, i);
    assert Used(bs) == Used(Others(bs, i));
    forall a: nat | a < |m| && InUsed(bs, a) ensures InUsed(Others(bs, i), a) {}
  }

  lemma OthersLast(bs: seq<Block>, grown: seq<Block>, m: seq<Cell>, m': seq<Cell>)
    requires |grown| == |bs| + 1 && grown[..|bs|] == bs && SameUsed(Others(grown, |bs|), m, m')
    ensures SameUsed(bs, m, m')
  {
    assert Others(grown, |bs|) == bs;
  }

  lemma SameRefl(bs: seq<Block>, m: seq<Cell>)
    ensures SameUsed(bs, m, m)
  {}

  lemma SameFewer(bs: seq<Block>, cs: seq<Block>, m: seq<Cell>, m': seq<Cell>)
    requires SameUsed(bs, m, m') && Used(cs) <= Used(bs)
    ensures SameUsed(cs, m, m')
  {
    forall a: nat | a < |m| && InUsed(cs, a) ensures InUsed(bs, a) {}
  }

  lemma ReleasedUsed(s: State, i: nat)
    requires Inv(s) && i < |s.blocks| && !s.blocks[i].free
    ensures Used(MergePrev(MergeNext(s.blocks, i), i)) <= Used(MergeNext(s.blocks, i))
  {
    hide Used;
    forall j: nat | j < |s.blocks| && j != i ensures s.blocks[j] != s.blocks[i] {
      if s.blocks[j] == s.blocks[i] { SamePayload(s.blocks, i, j, s.start, s.brk); }
    }
    MergeNextUsed(s.blocks, i);
    hide MergeNext;
    MergePrevUsed(MergeNext(s.blocks, i), i);
  }

  lemma SameTrans(bs: seq<Block>, cs: seq<Block>, m: seq<Cell>, m': seq<Cell>, m'': seq<Cell>)
    requires SameUsed(bs, m, m') && SameUsed(cs, m', m'') && Used(bs) <= Used(cs)
    ensures SameUsed(bs, m, m'')
  {
    forall a: nat | a < |m| && InUsed(bs, a) ensures InUsed(cs, a) {}
  }

  lemma LinkedLength(m: seq<Cell>, bs: seq<Block>, brk: nat)
    requires Linked(m, bs, brk)
    ensures |m| == LIMIT
  {}

  // A header stored above the break disturbs no block.
  lemma LinkedStored(m: seq<Cell>, bs: seq<Block>, lo: nat, hi: nat, h: Cell)
    requires Tiles(bs, lo, hi) && Linked(m, bs, hi) && hi + HEADER <= LIMIT
    ensures Linked(Stored(m, hi, h), bs, hi)
  {
    forall b | b in bs ensures b.addr < hi {
      var j :| 0 <= j < |bs| && bs[j] == b;
      TilesWithin(bs, j, lo, hi);
    }
  }

  ghost predicate Appended(m: seq<Cell>, m': seq<Cell>, bs: seq<Block>, hi: nat, page: nat, last: nat)
    requires |m| == LIMIT && HEADER <= page && hi + page <= LIMIT
  {
    var m1 := Stored(m, hi, Header(page - HEADER, false, 0));
    if bs == [] then m' == m1
    else last == bs[|bs| - 1].addr < LIMIT && m1[last].Header? && m' == m1[last := m1[last].(next := hi)]
  }

  lemma GrownLinked(m: seq<Cell>, m': seq<Cell>, bs: seq<Block>, lo: nat, hi: nat, page: nat, last: nat)
    requires Tiles(bs, lo, hi) && Linked(m, bs, hi) && 0 < lo && HEADER <= page && hi + page <= LIMIT
    requires Appended(m, m', bs, hi, page, last)
    ensures var bs' := bs + [Block(hi, page - HEADER, false)];
            Tiles(bs', lo, hi + page) && Linked(m', bs', hi + page) && SameUsed(bs, m, m')
  {
    var nb := Block(hi, page - HEADER, false);
    assert Tiles([nb], hi, hi + page) by { assert [nb][1..] == []; }
    TilesJoin(bs, [nb], lo, hi, hi + page);
    GrownHeaders(m, m', bs, lo, hi, page, last);
    GrownSameUsed(m, m', bs, lo, hi, page, last);
  }

  lemma GrownHeaders(m: seq<Cell>, m': seq<Cell>, bs: seq<Block>, lo: nat, hi: nat, page: nat, last: nat)
    requires Tiles(bs, lo, hi) && Linked(m, bs, hi) && 0 < lo && HEADER <= page && hi + page <= LIMIT
    requires Appended(m, m', bs, hi, page, last)
    ensures Linked(m', bs + [Block(hi, page - HEADER, false)], hi + page)
  {
    hide Tiles;
    forall j: nat | j < |bs| ensures m'[bs[j].addr] == HeaderOf(bs[j], hi + page) {
      TilesWithin(bs, j, lo, hi);
      TilesNext(bs, j, lo, hi);
      if j < |bs| - 1 { TilesApart(bs, j, |bs| - 1, lo, hi); TilesWithin(bs, j + 1, lo, hi); }
    }
    if bs != [] { TilesWithin(bs, |bs| - 1, lo, hi); }
  }

  lemma GrownSameUsed(m: seq<Cell>, m': seq<Cell>, bs: seq<Block>, lo: nat, hi: nat, page: nat, last: nat)
    requires Tiles(bs, lo, hi) && Linked(m, bs, hi) && 0 < lo && HEADER <= page && hi + page <= LIMIT
    requires Appended(m, m', bs, hi, page, last)
    ensures SameUsed(bs, m, m')
  {
    hide Tiles, InUsed, Linked;
    LinkedLength(m, bs, hi);
    forall a: nat | a < |m| && InUsed(bs, a) ensures m'[a] == m[a] {
      if hi <= a { NotUsedAbove(bs, a, lo, hi); }
      if bs != [] && a == last { NotUsedHere(bs, |bs| - 1, a, lo, hi); }
    }
  }

  // A change to one header is a change to no block's bytes.
  lemma HeaderOnly(m: seq<Cell>, m': seq<Cell>, bs: seq<Block>, i: nat, lo: nat, hi: nat)
    requires Tiles(bs, lo, hi) && i < |bs| && bs[i].addr < |m| == |m'| && m' == m[bs[i].addr := m'[bs[i].addr]]
    ensures SameUsed(bs, m, m')
  {
    hide InUsed, Tiles;
    forall a: nat | a < |m| && InUsed(bs, a) ensures m'[a] == m[a] {
      if a == bs[i].addr { NotUsedHere(bs, i, a, lo, hi); }
    }
  }

  lemma NextMerged(m: seq<Cell>, m': seq<Cell>, bs: seq<Block>, i: nat, lo: nat, hi: nat)
    requires Tiles(bs, lo, hi) && Linked(m, bs, hi) && hi <= LIMIT && 0 < lo && i < |bs|
    requires |m'| == |m| == LIMIT && bs[i].addr < LIMIT && m' == m[bs[i].addr := m'[bs[i].addr]]
    requires m'[bs[i].addr] == if i + 1 < |bs| && bs[i + 1].free
                               then Header(bs[i].size + HEADER + bs[i + 1].size, true, AddrAt(bs, i + 2))
                               else Header(bs[i].size, true, AddrAt(bs, i + 1))
    ensures Tiles(MergeNext(bs, i), lo, hi) && Linked(m', MergeNext(bs, i), hi) && SameUsed(bs, m, m')
    ensures AddrAt(MergeNext(bs, i), 0) == AddrAt(bs, 0)
  {
    hide Tiles, Linked, SameUsed;
    HeaderOnly(m, m', bs, i, lo, hi);
    NextAddr(m, bs, i, lo, hi);
    if i + 1 < |bs| && bs[i + 1].free {
      TilesMerge(bs, i, true, lo, hi);
      NextApart(bs, i, lo, hi);
      NextAddr(m, bs, i + 1, lo, hi);
      LinkedReplace(m, m', bs, i, i + 2, [Block(bs[i].addr, bs[i].size + HEADER + bs[i + 1].size, true)], lo, hi);
    } else {
      FreedTiles(bs, i, lo, hi);
      LinkedReplace(m, m', bs, i, i + 1, [bs[i].(free := true)], lo, hi);
    }
  }

  lemma FreedTiles(bs: seq<Block>, i: nat, lo: nat, hi: nat)
    requires Tiles(bs, lo, hi) && i < |bs|
    ensures Tiles(bs[..i] + [bs[i].(free := true)] + bs[i + 1..], lo, hi)
  {
    var b := bs[i].(free := true);
    assert Tiles([b], bs[i].addr, End(bs[i])) by { assert [b][1..] == []; }
    TilesReplace(bs, i, [b], lo, hi);
  }

  lemma PrevMerged(m: seq<Cell>, m': seq<Cell>, bs: seq<Block>, i: nat, lo: nat, hi: nat)
    requires Tiles(bs, lo, hi) && Linked(m, bs, hi) && hi <= LIMIT && 0 < lo && 0 < i < |bs| && bs[i - 1].free
    requires |m'| == |m| == LIMIT && bs[i - 1].addr < LIMIT && m' == m[bs[i - 1].addr := m'[bs[i - 1].addr]]
    requires m'[bs[i - 1].addr] == Header(bs[i - 1].size + HEADER + bs[i].size, true, AddrAt(bs, i + 1))
    ensures Tiles(MergePrev(bs, i), lo, hi) && Linked(m', MergePrev(bs, i), hi) && SameUsed(bs, m, m')
    ensures AddrAt(MergePrev(bs, i), 0) == AddrAt(bs, 0)
  {
    hide Tiles, Linked, SameUsed;
    HeaderOnly(m, m', bs, i - 1, lo, hi);
    NextAddr(m, bs, i - 1, lo, hi);
    TilesMerge(bs, i - 1, true, lo, hi);
    NextApart(bs, i - 1, lo, hi);
    NextAddr(m, bs, i, lo, hi);
    assert i - 1 + 2 == i + 1;
    LinkedReplace(m, m', bs, i - 1, i + 1, [Block(bs[i - 1].addr, bs[i - 1].size + HEADER + bs[i].size, true)], lo, hi);
  }

  lemma MergeNextIndex(bs: seq<Block>, i: nat)
    requires i < |bs|
    ensures i < |MergeNext(bs, i)| && MergeNext(bs, i)[i].addr == bs[i].addr
  {}
}
