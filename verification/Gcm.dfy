// GHASH, the hash of AES-128-GCM (kernel/crypto/aes_gcm.c; NIST SP 800-38D).
module Gcm {
  import opened Words
  import opened ModArith
  import opened Gf2
  import opened GcmField

  type Cipher = (Block, Block) -> Block

  // ---- GHASH ----

  function Pad16(s: seq<bv8>): Block
    requires |s| <= 16
  {
    s + seq(16 - |s|, _ => 0)
  }

  // The zero-padded 16-byte blocks of a string, as polynomials.
  function Blocks(s: seq<bv8>): seq<nat> {
    if |s| == 0 then []
    else if |s| <= 16 then [Poly(Pad16(s))]
    else [Poly(s[..16])] + Blocks(s[16..])
  }

  // The Horner loop from an initial value.
  function Horner(y: nat, h: nat, bs: seq<nat>): nat
    decreases |bs|
  {
    if bs == [] then y else Horner(GMul(Add(y, bs[0]), h), h, bs[1..])
  }

  // 64-bit big-endian encoding.
  function Be64(n: nat): seq<bv8> {
    seq(8, j requires 0 <= j < 8 => ByteOf(n, 7 - j))
  }

  function ByteOf(n: nat, k: nat): bv8 {
    PowPos(256, k);
    ((n / Pow(256, k)) % 256) as bv8
  }

  // len(A) || len(C), in bits.
  function LengthBlock(a: nat, c: nat): Block {
    Be64(8 * a) + Be64(8 * c)
  }

  function Hashed(aad: seq<bv8>, ct: seq<bv8>): seq<nat> {
    Blocks(aad) + Blocks(ct) + [Poly(LengthBlock(|aad|, |ct|))]
  }

  // x multiplied n times by h.
  function TimesPow(x: nat, h: nat, n: nat): nat {
    if n == 0 then x else GMul(TimesPow(x, h, n - 1), h)
  }

  // The sum of b[i] * h^(m - i) over the m blocks.
  function PowerSum(h: nat, bs: seq<nat>): nat {
    if bs == [] then 0 else Add(TimesPow(bs[0], h, |bs|), PowerSum(h, bs[1..]))
  }

  lemma GMulDistributesLeft(x: nat, y: nat, h: nat)
    ensures GMul(Add(x, y), h) == Add(GMul(x, h), GMul(y, h))
  {
    hide GMul, Add;
    GMulCommutes(Add(x, y), h);
    GMulCommutes(x, h);
    GMulCommutes(y, h);
    GMulDistributes(h, x, y);
  }

  lemma {:induction false} TimesPowAdd(x: nat, y: nat, h: nat, n: nat)
    ensures TimesPow(Add(x, y), h, n) == Add(TimesPow(x, h, n), TimesPow(y, h, n))
  {
    hide GMul, Add;
    if n > 0 {
      TimesPowAdd(x, y, h, n - 1);
      GMulDistributesLeft(TimesPow(x, h, n - 1), TimesPow(y, h, n - 1), h);
    }
  }

  lemma {:induction false} TimesPowShift(x: nat, h: nat, n: nat)
    ensures TimesPow(GMul(x, h), h, n) == TimesPow(x, h, n + 1)
  {
    hide GMul;
    if n > 0 { TimesPowShift(x, h, n - 1); }
  }

  // Multiplying by h step by step is multiplying by the power of h.
  lemma {:induction false} TimesPowIsProduct(x: nat, h: nat, n: nat)
    requires n > 0
    ensures TimesPow(x, h, n) == GMul(x, TimesPow(h, h, n - 1))
  {
    hide GMul;
    if n > 1 {
      TimesPowIsProduct(x, h, n - 1);
      GMulAssociates(x, TimesPow(h, h, n - 2), h);
    }
  }

  // The Horner loop computes the sum of the blocks times descending powers.
  lemma {:induction false} HornerIsSum(y: nat, h: nat, bs: seq<nat>)
    ensures Horner(y, h, bs) == Add(TimesPow(y, h, |bs|), PowerSum(h, bs))
    decreases bs
  {
    hide GMul, Add;
    if bs == [] {
      AddZero(y);
    } else {
      var n := |bs| - 1;
      HornerIsSum(GMul(Add(y, bs[0]), h), h, bs[1..]);
      TimesPowShift(Add(y, bs[0]), h, n);
      TimesPowAdd(y, bs[0], h, n + 1);
      AddAssociates(TimesPow(y, h, n + 1), TimesPow(bs[0], h, n + 1), PowerSum(h, bs[1..]));
    }
  }

  lemma {:induction false} HornerAppend(y: nat, h: nat, bs: seq<nat>, cs: seq<nat>)
    ensures Horner(y, h, bs + cs) == Horner(Horner(y, h, bs), h, cs)
    decreases bs
  {
    hide GMul, Add;
    if bs == [] {
      assert bs + cs == cs;
    } else {
      assert (bs + cs)[1..] == bs[1..] + cs;
      HornerAppend(GMul(Add(y, bs[0]), h), h, bs[1..], cs);
    }
  }

  // GHASH of section 6.4, as the polynomial sum.
  function Ghash(h: nat, aad: seq<bv8>, ct: seq<bv8>): nat {
    PowerSum(h, Hashed(aad, ct))
  }

  lemma GhashIsHorner(h: nat, aad: seq<bv8>, ct: seq<bv8>)
    ensures Ghash(h, aad, ct) ==
            Horner(Horner(Horner(0, h, Blocks(aad)), h, Blocks(ct)), h, [Poly(LengthBlock(|aad|, |ct|))])
  {
    hide GMul, Add, Poly, LengthBlock, Blocks;
    var l := [Poly(LengthBlock(|aad|, |ct|))];
    HornerIsSum(0, h, Hashed(aad, ct));
    TimesPowZero(h, |Hashed(aad, ct)|);
    AddZero(Ghash(h, aad, ct));
    HornerAppend(0, h, Blocks(aad) + Blocks(ct), l);
    HornerAppend(0, h, Blocks(aad), Blocks(ct));
  }

  lemma {:induction false} TimesPowZero(h: nat, n: nat)
    ensures TimesPow(0, h, n) == 0
  {
    if n > 0 { TimesPowZero(h, n - 1); }
  }

  // ---- Blocks in place ----

  // Y := (Y xor blk) * H.
  method Absorb(Y: array<bv8>, blk: array<bv8>, H: array<bv8>)
    requires Y.Length == blk.Length == H.Length == 16 && Y != blk && Y != H
    modifies Y
    ensures Poly(Y[..]) == GMul(Add(old(Poly(Y[..])), Poly(blk[..])), Poly(H[..]))
  {
    hide Poly, Add, GMul;
    XorInto(Y, blk);
    var t := new bv8[16];
    GfMult(Y, H, t);
    ghost var product := t[..];
    for j := 0 to 16
      invariant forall k :: 0 <= k < j ==> Y[k] == t[k]
      invariant t[..] == product
    {
      Y[j] := t[j];
    }
    assert Y[..] == t[..];
  }

  lemma BlocksStep(s: seq<bv8>, n: nat)
    requires |s| > 0 && n == (if |s| > 16 then 16 else |s|)
    ensures Blocks(s) == [Poly(Pad16(s[..n]))] + Blocks(s[n..])
  {
    if |s| > 16 {
      assert Pad16(s[..16]) == s[..16];
    } else {
      assert s[..n] == s;
    }
  }

  // One of the two data loops of ghash.  The 32-bit index does not wrap as long
  // as the length is at most 2^32 - 16.
  method AbsorbData(Y: array<bv8>, H: array<bv8>, data: array<bv8>, len: uint32)
    requires Y.Length == H.Length == 16 && Y != H && Y != data
    requires len as int <= data.Length && len <= 0xffff_fff0
    modifies Y
    ensures Poly(Y[..]) == Horner(old(Poly(Y[..])), Poly(H[..]), Blocks(data[..len]))
  {
    hide Poly, Add, GMul, Blocks, Pad16;
    ghost var s, h := data[..len], Poly(H[..]);
    var blk := new bv8[16];
    var i: uint32 := 0;
    BlocksEmpty(s[len..]);
    while i < len
      invariant i <= len || i - len < 16
      invariant data[..len] == s && H[..] == old(H[..])
      invariant Horner(Poly(Y[..]), h, if i <= len then Blocks(s[i..]) else []) == Horner(old(Poly(Y[..])), h, Blocks(s))
      decreases len as int + 16 - i as int
    {
      var n := len - i;
      if n > 16 { n := 16; }
      ghost var rest, y := s[i..], Y[..];
      for j := 0 to 16
        invariant forall k :: 0 <= k < j ==> blk[k] == if k < n as int then rest[k] else 0
        invariant Y[..] == y && data[..len] == s && H[..] == old(H[..])
      {
        blk[j] := if j < n as int then data[i as int + j] else 0;
      }
      PadIs(blk[..], rest[..n]);
      BlocksStep(rest, n as int);
      Absorb(Y, blk, H);
      assert rest[n..] == s[i as int + n as int..];
      i := i + 16;
    }
  }

  // The 32-bit index of the block loops stays in range exactly for lengths up
  // to 2^32 - 16.
  lemma IndexFits(len: uint32)
    ensures (forall i: nat :: 16 * i < len as int ==> 16 * i + 16 < 0x1_0000_0000) <==> len <= 0xffff_fff0
  {
    if len > 0xffff_fff0 {
      assert 16 * 0xfff_ffff < len as int;
    }
  }

  lemma BlocksEmpty(s: seq<bv8>)
    requires |s| == 0
    ensures Blocks(s) == []
  {}

  lemma PadIs(b: seq<bv8>, s: seq<bv8>)
    requires |b| == 16 && |s| <= 16 && forall k :: 0 <= k < 16 ==> b[k] == if k < |s| then s[k] else 0
    ensures b == Pad16(s)
  {}

  // The number eight bytes denote, most significant first.
  lemma ByteSum(n: nat)
    requires n < 0x1_0000_0000_0000_0000
    ensures ByteOf(n, 7) as nat * 0x100_0000_0000_0000 + ByteOf(n, 6) as nat * 0x1_0000_0000_0000 +
            ByteOf(n, 5) as nat * 0x100_0000_0000 + ByteOf(n, 4) as nat * 0x1_0000_0000 +
            ByteOf(n, 3) as nat * 0x100_0000 + ByteOf(n, 2) as nat * 0x1_0000 +
            ByteOf(n, 1) as nat * 0x100 + ByteOf(n, 0) as nat == n
  {
    Powers256();
    ByteIs(n, 0);
    ByteIs(n, 1);
    ByteIs(n, 2);
    ByteIs(n, 3);
    ByteIs(n, 4);
    ByteIs(n, 5);
    ByteIs(n, 6);
    ByteIs(n, 7);
    hide ByteOf, Pow;
    DigitSum(n);
  }

  lemma DigitSum(n: nat)
    requires n < 0x1_0000_0000_0000_0000
    ensures (n / 0x100_0000_0000_0000) % 256 * 0x100_0000_0000_0000 + (n / 0x1_0000_0000_0000) % 256 * 0x1_0000_0000_0000 +
            (n / 0x100_0000_0000) % 256 * 0x100_0000_0000 + (n / 0x1_0000_0000) % 256 * 0x1_0000_0000 +
            (n / 0x100_0000) % 256 * 0x100_0000 + (n / 0x1_0000) % 256 * 0x1_0000 +
            (n / 0x100) % 256 * 0x100 + (n / 1) % 256 == n
  {
    DivDiv(n, 0x100, 0x100);
    DivDiv(n, 0x1_0000, 0x100);
    DivDiv(n, 0x100_0000, 0x100);
    DivDiv(n, 0x1_0000_0000, 0x100);
    DivDiv(n, 0x100_0000_0000, 0x100);
    DivDiv(n, 0x1_0000_0000_0000, 0x100);
  }

  lemma ByteIs(n: nat, k: nat)
    ensures Pow(256, k) > 0 && ByteOf(n, k) as nat == (n / Pow(256, k)) % 256
  {
    hide Pow;
    PowPos(256, k);
    ByteCast((n / Pow(256, k)) % 256);
  }

  lemma ByteCast(x: nat)
    requires x < 0x100
    ensures (x as bv8) as nat == x
  {
    assert x % 256 == x;
  }

  lemma Powers256()
    ensures Pow(256, 0) == 1 && Pow(256, 1) == 0x100 && Pow(256, 2) == 0x1_0000 && Pow(256, 3) == 0x100_0000
    ensures Pow(256, 4) == 0x1_0000_0000 && Pow(256, 5) == 0x100_0000_0000 && Pow(256, 6) == 0x1_0000_0000_0000
    ensures Pow(256, 7) == 0x100_0000_0000_0000
  {
    PowAdd(256, 2, 2);
    PowAdd(256, 4, 1);
    PowAdd(256, 4, 2);
    PowAdd(256, 4, 3);
    assert Pow(256, 1) == 256;
    assert Pow(256, 2) == 256 * Pow(256, 1);
    assert Pow(256, 3) == 256 * Pow(256, 2);
  }

  // The first eight bytes of the length block are the bits of A, the last eight
  // those of C, as 64-bit big-endian numbers.
  lemma LengthBlockIs(b: seq<bv8>, a: nat, c: nat)
    requires 8 * a < 0x1_0000_0000_0000_0000 && 8 * c < 0x1_0000_0000_0000_0000 && |b| == 16
    requires forall k :: 0 <= k < 8 ==> b[k] == ByteOf(8 * a, 7 - k)
    requires forall k :: 8 <= k < 16 ==> b[k] == ByteOf(8 * c, 15 - k)
    ensures b == LengthBlock(a, c)
    ensures b[0] as nat * 0x100_0000_0000_0000 + b[1] as nat * 0x1_0000_0000_0000 + b[2] as nat * 0x100_0000_0000 +
            b[3] as nat * 0x1_0000_0000 + b[4] as nat * 0x100_0000 + b[5] as nat * 0x1_0000 +
            b[6] as nat * 0x100 + b[7] as nat == 8 * a
    ensures b[8] as nat * 0x100_0000_0000_0000 + b[9] as nat * 0x1_0000_0000_0000 + b[10] as nat * 0x100_0000_0000 +
            b[11] as nat * 0x1_0000_0000 + b[12] as nat * 0x100_0000 + b[13] as nat * 0x1_0000 +
            b[14] as nat * 0x100 + b[15] as nat == 8 * c
  {
    hide ByteOf;
    ByteSum(8 * a);
    ByteSum(8 * c);
  }

  // The blocks of a string: as many as it takes, the last one padded with zeros.
  lemma {:induction false} BlockAt(s: seq<bv8>, j: nat, b: Block)
    requires 16 * j < |s| && forall m :: 0 <= m < 16 ==> b[m] == if 16 * j + m < |s| then s[16 * j + m] else 0
    ensures |Blocks(s)| == (|s| + 15) / 16 && Blocks(s)[j] == Poly(b)
    decreases |s|
  {
    hide Poly;
    if |s| <= 16 {
      PadIs(b, s);
    } else if j == 0 {
      assert s[..16] == b;
      var c: Block := seq(16, m requires 0 <= m < 16 => if m < |s| - 16 then s[16 + m] else 0);
      BlockAt(s[16..], 0, c);
    } else {
      BlockAt(s[16..], j - 1, b);
    }
  }

  // The length block as ghash writes it.
  method WriteLengths(blk: array<bv8>, aadLen: uint32, ctLen: uint32)
    requires blk.Length == 16
    modifies blk
    ensures blk[..] == LengthBlock(aadLen as int, ctLen as int)
    ensures blk[0] as nat * 0x100_0000_0000_0000 + blk[1] as nat * 0x1_0000_0000_0000 + blk[2] as nat * 0x100_0000_0000 +
            blk[3] as nat * 0x1_0000_0000 + blk[4] as nat * 0x100_0000 + blk[5] as nat * 0x1_0000 +
            blk[6] as nat * 0x100 + blk[7] as nat == 8 * aadLen as nat
    ensures blk[8] as nat * 0x100_0000_0000_0000 + blk[9] as nat * 0x1_0000_0000_0000 + blk[10] as nat * 0x100_0000_0000 +
            blk[11] as nat * 0x1_0000_0000 + blk[12] as nat * 0x100_0000 + blk[13] as nat * 0x1_0000 +
            blk[14] as nat * 0x100 + blk[15] as nat == 8 * ctLen as nat
  {
    hide ByteOf, LengthBlock;
    var abits, cbits: uint64 := aadLen as uint64 * 8, ctLen as uint64 * 8;
    for j := 0 to 8
      invariant forall k :: 0 <= k < j ==> blk[k] == ByteOf(abits as int, 7 - k)
    {
      blk[j] := ByteOf(abits as int, 7 - j);
    }
    for j := 0 to 8
      invariant forall k :: 0 <= k < 8 ==> blk[k] == ByteOf(abits as int, 7 - k)
      invariant forall k :: 8 <= k < 8 + j ==> blk[k] == ByteOf(cbits as int, 15 - k)
    {
      blk[8 + j] := ByteOf(cbits as int, 7 - j);
    }
    LengthBlockIs(blk[..], aadLen as nat, ctLen as nat);
  }

  method GhashBytes(H: array<bv8>, aad: array<bv8>, aadLen: uint32, ct: array<bv8>, ctLen: uint32)
    returns (Y: array<bv8>)
    requires H.Length == 16 && aadLen as int <= aad.Length && ctLen as int <= ct.Length
    requires aadLen <= 0xffff_fff0 && ctLen <= 0xffff_fff0
    ensures fresh(Y) && Y.Length == 16
    ensures Poly(Y[..]) == Ghash(Poly(H[..]), aad[..aadLen], ct[..ctLen])
  {
    hide Poly, Add, GMul, Blocks, LengthBlock;
    Y := new bv8[16];
    for i := 0 to 16
      invariant forall k :: 0 <= k < i ==> Y[k] == 0
    {
      Y[i] := 0;
    }
    PolyZero(Y[..]);
    AbsorbData(Y, H, aad, aadLen);
    AbsorbData(Y, H, ct, ctLen);
    var blk := new bv8[16];
    WriteLengths(blk, aadLen, ctLen);
    HornerOne(Poly(Y[..]), Poly(H[..]), Poly(blk[..]));
    Absorb(Y, blk, H);
    GhashIsHorner(Poly(H[..]), aad[..aadLen], ct[..ctLen]);
  }

  lemma HornerOne(y: nat, h: nat, b: nat)
    ensures Horner(y, h, [b]) == GMul(Add(y, b), h)
  {
    hide GMul, Add;
    assert [b][1..] == [];
  }
}
