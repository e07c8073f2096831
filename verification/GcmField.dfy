// The field GF(2^128) of GCM: polynomials modulo x^128 + x^7 + x^2 + x + 1.
module GcmField {
  // With the bit-serial multiplication of kernel/crypto/aes_gcm.c on 16-byte
  // blocks whose leftmost bit is the coefficient of x^0.

  import opened ModArith
  import opened Gf2

  type Block = s: seq<bv8> | |s| == 16 witness seq(16, _ => 0)

  const G: nat := 0x1_00000000_00000000_00000000_00000087

  // ---- The field ----

  // Multiplication by x, reduced.
  function TimesX(v: nat): nat {
    if 2 * v >= Two(128) then Add(2 * v, G) else 2 * v
  }

  // The remainder modulo G, by Horner's rule.
  function Reduce(p: nat): nat {
    if p == 0 then 0 else Add(p % 2, TimesX(Reduce(p / 2)))
  }

  function GMul(x: nat, y: nat): nat {
    Reduce(Mul(x, y))
  }

  lemma {:induction false} TwoAdd(m: nat, n: nat)
    ensures Two(m + n) == Two(m) * Two(n)
  {
    if m > 0 { TwoAdd(m - 1, n); }
  }

  lemma Two128()
    ensures Two(8) == 0x100
    ensures Two(128) == 0x1_00000000_00000000_00000000_00000000
    ensures Two(128) <= G < Two(129) && G == 0x87 + Two(128)
  {
    TwoSmall();
    hide Two;
    TwoAdd(4, 4);
    TwoAdd(8, 8);
    TwoAdd(16, 16);
    TwoAdd(32, 32);
    TwoAdd(64, 64);
    TwoAdd(1, 128);
  }

  lemma TwoSmall()
    ensures Two(0) == 1 && Two(1) == 2 && Two(4) == 16
  {
    assert Two(2) == 2 * Two(1);
    assert Two(3) == 2 * Two(2);
  }

  lemma TimesXReduces(v: nat)
    requires v < Two(128)
    ensures TimesX(v) < Two(128) && Cong(TimesX(v), 2 * v, G)
  {
    Two128();
    hide Add, Two, Cong;
    if 2 * v >= Two(128) {
      AddSplit(128, 2 * v - Two(128), 1, 0x87, 1);
      AddSelf(1);
      AddCommutes(2 * v, G);
      AddAssociates(G, 2 * v, 2 * v);
      AddSelf(2 * v);
      AddZero(G);
      MulUnits(G);
      CongBy(TimesX(v), 2 * v, G, 1);
    } else {
      CongRefl(2 * v, G);
    }
  }

  lemma {:induction false} ReduceIsRemainder(p: nat)
    ensures Reduce(p) < Two(128) && Cong(Reduce(p), p, G)
  {
    if p == 0 {
      CongRefl(0, G);
    } else {
      ReduceIsRemainder(p / 2);
      hide Two, Cong, TimesX, Add;
      HornerStep(p, Reduce(p / 2));
    }
  }

  lemma HornerStep(p: nat, r: nat)
    requires r < Two(128) && Cong(r, p / 2, G)
    ensures Add(p % 2, TimesX(r)) < Two(128) && Cong(Add(p % 2, TimesX(r)), p, G)
  {
    hide Add, Two, Cong, TimesX, Mul;
    TimesXReduces(r);
    CongMul(r, p / 2, 2, G);
    MulTwo(r);
    MulTwo(p / 2);
    CongTrans(TimesX(r), 2 * r, 2 * (p / 2), G);
    CongRefl(p % 2, G);
    CongAdd(p % 2, p % 2, TimesX(r), 2 * (p / 2), G);
    AddBit(p % 2, 0, 0, p / 2);
    AddZero(p / 2);
    Two128();
    AddBelow(128, p % 2, TimesX(r));
  }

  lemma MulTwo(a: nat)
    ensures Mul(2, a) == 2 * a
  {
    MulDouble(1, a);
    MulUnits(a);
  }

  // The product is the one polynomial of degree below 128 that is congruent to
  // the plain product modulo x^128 + x^7 + x^2 + x + 1.
  lemma ProductExactly(x: nat, y: nat, z: nat)
    ensures z == GMul(x, y) <==>
              z < 0x1_00000000_00000000_00000000_00000000 &&
              Cong(z, Mul(x, y), 0x1_00000000_00000000_00000000_00000087)
  {
    hide Add, Mul, Cong, Reduce, GMul;
    Two128();
    GMulUnique(x, y, z);
  }

  // The product is the one reduced polynomial congruent to the plain product.
  lemma GMulUnique(x: nat, y: nat, z: nat)
    ensures z < Two(128) && Cong(z, Mul(x, y), G) <==> z == GMul(x, y)
  {
    ReduceIsRemainder(Mul(x, y));
    if z < Two(128) && Cong(z, Mul(x, y), G) {
      CongSym(GMul(x, y), Mul(x, y), G);
      CongTrans(z, Mul(x, y), GMul(x, y), G);
      Two128();
      CongUnique(z, GMul(x, y), G, 128);
    }
  }

  lemma GMulCommutes(x: nat, y: nat)
    ensures GMul(x, y) == GMul(y, x)
  {
    MulCommutes(x, y);
  }

  lemma GMulDistributes(x: nat, y: nat, w: nat)
    ensures GMul(x, Add(y, w)) == Add(GMul(x, y), GMul(x, w))
  {
    hide Add, Mul, Two, Cong, Reduce;
    ReduceIsRemainder(Mul(x, y));
    ReduceIsRemainder(Mul(x, w));
    CongAdd(GMul(x, y), Mul(x, y), GMul(x, w), Mul(x, w), G);
    MulDistributes(x, y, w);
    AddBelow(128, GMul(x, y), GMul(x, w));
    GMulUnique(x, Add(y, w), Add(GMul(x, y), GMul(x, w)));
  }

  lemma GMulAssociates(x: nat, y: nat, w: nat)
    ensures GMul(GMul(x, y), w) == GMul(x, GMul(y, w))
  {
    hide Add, Mul, Two, Cong, Reduce;
    ReduceIsRemainder(Mul(x, y));
    ReduceIsRemainder(Mul(y, w));
    ReduceIsRemainder(Mul(x, GMul(y, w)));
    CongMul(GMul(y, w), Mul(y, w), x, G);
    CongTrans(GMul(x, GMul(y, w)), Mul(x, GMul(y, w)), Mul(x, Mul(y, w)), G);
    MulAssociates(x, y, w);
    CongMul(GMul(x, y), Mul(x, y), w, G);
    MulCommutes(w, GMul(x, y));
    MulCommutes(w, Mul(x, y));
    CongSym(Mul(GMul(x, y), w), Mul(Mul(x, y), w), G);
    CongTrans(GMul(x, GMul(y, w)), Mul(Mul(x, y), w), Mul(GMul(x, y), w), G);
    GMulUnique(GMul(x, y), w, GMul(x, GMul(y, w)));
  }

  // ---- Blocks as polynomials ----

  function Bit(b: bv8, k: nat): nat
    requires k < 8
  {
    if (b >> k) & 1 == 1 then 1 else 0
  }

  // Bits 7 - i down to 0 as the coefficients of x^0, x^1, ...
  function RevFrom(b: bv8, i: nat): nat
    requires i <= 8
    decreases 8 - i
  {
    if i == 8 then 0 else Bit(b, 7 - i) + 2 * RevFrom(b, i + 1)
  }

  function Rev(b: bv8): nat {
    RevFrom(b, 0)
  }

  function Poly(s: seq<bv8>): nat {
    if s == [] then 0 else Rev(s[0]) + 0x100 * Poly(s[1..])
  }

  lemma BitXor(a: bv8, b: bv8, k: nat)
    requires k < 8
    ensures Bit(a ^ b, k) == (Bit(a, k) + Bit(b, k)) % 2
  {
    var s := k as bv8;
    assert ((a ^ b) >> k) & 1 == ((a >> k) & 1) ^ ((b >> k) & 1);
    assert (a >> k) & 1 == 0 || (a >> k) & 1 == 1;
    assert (b >> k) & 1 == 0 || (b >> k) & 1 == 1;
  }

  lemma {:induction false} RevXor(a: bv8, b: bv8, i: nat)
    requires i <= 8
    ensures RevFrom(a ^ b, i) == Add(RevFrom(a, i), RevFrom(b, i))
    decreases 8 - i
  {
    hide Bit, Add, RevFrom;
    RevNext(a, i);
    RevNext(b, i);
    RevNext(a ^ b, i);
    if i == 8 {
      AddZero(0);
    } else {
      RevXor(a, b, i + 1);
      BitRange(a, 7 - i);
      BitRange(b, 7 - i);
      BitXor(a, b, 7 - i);
      AddBit(Bit(a, 7 - i), RevFrom(a, i + 1), Bit(b, 7 - i), RevFrom(b, i + 1));
    }
  }

  lemma RevNext(b: bv8, i: nat)
    requires i <= 8
    ensures RevFrom(b, i) == if i == 8 then 0 else Bit(b, 7 - i) + 2 * RevFrom(b, i + 1)
  {}

  lemma BitRange(a: bv8, k: nat)
    requires k < 8
    ensures Bit(a, k) < 2
  {}

  lemma {:induction false} RevRange(a: bv8, i: nat)
    requires i <= 8
    ensures RevFrom(a, i) < Two(8 - i)
    decreases 8 - i
  {
    if i < 8 { RevRange(a, i + 1); }
  }

  lemma {:induction false} PolyRange(s: seq<bv8>)
    ensures Poly(s) < Two(8 * |s|)
  {
    hide RevFrom;
    if s != [] {
      PolyRange(s[1..]);
      RevRange(s[0], 0);
      hide Two, Rev;
      TwoAdd(8, 8 * |s| - 8);
      Two128();
    }
  }

  // Exclusive or of blocks is addition of polynomials.
  lemma {:induction false} PolyXor(a: seq<bv8>, b: seq<bv8>, c: seq<bv8>)
    requires |a| == |b| == |c| && forall i :: 0 <= i < |a| ==> c[i] == a[i] ^ b[i]
    ensures Poly(c) == Add(Poly(a), Poly(b))
  {
    hide Add, Rev;
    if a == [] {
      AddZero(0);
    } else {
      assert c[0] == a[0] ^ b[0];
      PolyXor(a[1..], b[1..], c[1..]);
      PolyCons(a);
      PolyCons(b);
      PolyCons(c);
      hide Poly;
      BytePlus(a[0], Poly(a[1..]), b[0], Poly(b[1..]));
    }
  }

  lemma BytePlus(a: bv8, p: nat, b: bv8, q: nat)
    ensures Rev(a ^ b) + 0x100 * Add(p, q) == Add(Rev(a) + 0x100 * p, Rev(b) + 0x100 * q)
  {
    hide Add, Two, RevFrom;
    RevXor(a, b, 0);
    RevRange(a, 0);
    RevRange(b, 0);
    Two128();
    AddSplit(8, Rev(a), p, Rev(b), q);
  }

  lemma PolyCons(s: seq<bv8>)
    requires s != []
    ensures Poly(s) == Rev(s[0]) + 0x100 * Poly(s[1..])
  {}

  lemma Halve(x: nat, p: nat, y: nat, q: nat)
    requires x < 2 && y < 2 && x + 2 * p == y + 2 * q
    ensures x == y && p == q
  {}

  lemma {:induction false} SuffixBits(a: bv8, b: bv8, i: nat)
    requires i <= 8 && RevFrom(a, i) == RevFrom(b, i)
    ensures forall k :: 0 <= k < 8 - i ==> Bit(a, k) == Bit(b, k)
    decreases 8 - i
  {
    hide Bit, RevFrom;
    RevNext(a, i);
    RevNext(b, i);
    if i < 8 {
      BitRange(a, 7 - i);
      BitRange(b, 7 - i);
      Halve(Bit(a, 7 - i), RevFrom(a, i + 1), Bit(b, 7 - i), RevFrom(b, i + 1));
      SuffixBits(a, b, i + 1);
    }
  }

  lemma ByteInjective(a: bv8, b: bv8)
    requires Rev(a) == Rev(b)
    ensures a == b
  {
    hide Bit, RevFrom;
    SuffixBits(a, b, 0);
    SameBits(a, b);
  }

  lemma SameBits(a: bv8, b: bv8)
    requires forall k :: 0 <= k < 8 ==> Bit(a, k) == Bit(b, k)
    ensures a == b
  {
    assert Bit(a, 0) == Bit(b, 0) && Bit(a, 1) == Bit(b, 1) && Bit(a, 2) == Bit(b, 2) && Bit(a, 3) == Bit(b, 3);
    assert Bit(a, 4) == Bit(b, 4) && Bit(a, 5) == Bit(b, 5) && Bit(a, 6) == Bit(b, 6) && Bit(a, 7) == Bit(b, 7);
  }

  lemma HeadTail(x: nat, p: nat, y: nat, q: nat)
    requires x < 0x100 && y < 0x100 && x + 0x100 * p == y + 0x100 * q
    ensures x == y && p == q
  {}

  // A byte string of known length is determined by its polynomial.
  lemma {:induction false} PolyInjective(s: seq<bv8>, t: seq<bv8>)
    requires |s| == |t| && Poly(s) == Poly(t)
    ensures s == t
    decreases s
  {
    hide Poly, Rev;
    if s != [] {
      PolySplit(s);
      PolySplit(t);
      HeadTail(Rev(s[0]), Poly(s[1..]), Rev(t[0]), Poly(t[1..]));
      ByteInjective(s[0], t[0]);
      PolyInjective(s[1..], t[1..]);
      assert s == [s[0]] + s[1..] && t == [t[0]] + t[1..];
    }
  }

  lemma PolySplit(s: seq<bv8>)
    requires s != []
    ensures Poly(s) == Rev(s[0]) + 0x100 * Poly(s[1..]) && Rev(s[0]) < 0x100
  {
    hide Poly, RevFrom, Two;
    PolyCons(s);
    RevRange(s[0], 0);
    Two128();
  }

  // ---- One right shift ----

  function Low(u: bv8): (r: nat)
    ensures r < 2
  {
    if u & 1 == 1 then 1 else 0
  }

  lemma ShiftBits(v: bv8, u: bv8)
    ensures var w := (v >> 1) | (u << 7);
            && Bit(w, 7) == Low(u) && Bit(w, 6) == Bit(v, 7) && Bit(w, 5) == Bit(v, 6) && Bit(w, 4) == Bit(v, 5)
            && Bit(w, 3) == Bit(v, 4) && Bit(w, 2) == Bit(v, 3) && Bit(w, 1) == Bit(v, 2) && Bit(w, 0) == Bit(v, 1)
            && Low(v) == Bit(v, 0)
  {}

  lemma RevUnrolled(b: bv8)
    ensures Rev(b) == Bit(b, 7) + 2 * Bit(b, 6) + 4 * Bit(b, 5) + 8 * Bit(b, 4) + 16 * Bit(b, 3)
                      + 32 * Bit(b, 2) + 64 * Bit(b, 1) + 128 * Bit(b, 0)
  {
    hide Bit;
    assert RevFrom(b, 8) == 0;
    assert RevFrom(b, 7) == Bit(b, 0);
    assert RevFrom(b, 6) == Bit(b, 1) + 2 * Bit(b, 0);
    assert RevFrom(b, 5) == Bit(b, 2) + 2 * RevFrom(b, 6);
    assert RevFrom(b, 4) == Bit(b, 3) + 2 * RevFrom(b, 5);
    assert RevFrom(b, 3) == Bit(b, 4) + 2 * RevFrom(b, 4);
    assert RevFrom(b, 2) == Bit(b, 5) + 2 * RevFrom(b, 3);
    assert RevFrom(b, 1) == Bit(b, 6) + 2 * RevFrom(b, 2);
  }

  lemma RevShift(v: bv8, u: bv8)
    ensures Rev(Funnel(v, u)) == Low(u) + 2 * Rev(v) - (if Low(v) == 1 then 0x100 else 0)
  {
    ShiftBits(v, u);
    RevUnrolled(v);
    RevUnrolled((v >> 1) | (u << 7));
    hide Bit, RevFrom, Low;
  }

  // A byte shifted right by one with the low bit of u coming in on the left.
  function Funnel(v: bv8, u: bv8): bv8 {
    (v >> 1) | (u << 7)
  }

  // w is v shifted right by one bit, with u's low bit coming in on the left.
  ghost predicate Shifted(v: seq<bv8>, w: seq<bv8>, u: bv8) {
    && |v| == |w| > 0
    && w[0] == Funnel(v[0], u)
    && forall j :: 1 <= j < |v| ==> w[j] == Funnel(v[j], v[j - 1])
  }

  lemma {:induction false} PolyShift(v: seq<bv8>, w: seq<bv8>, u: bv8)
    requires Shifted(v, w, u)
    ensures Poly(w) == Low(u) + 2 * Poly(v) - (if Low(v[|v| - 1]) == 1 then Two(8 * |v|) else 0)
    decreases v
  {
    hide Funnel, Low, RevFrom, Poly, Two;
    RevShift(v[0], u);
    PolyCons(v);
    PolyCons(w);
    Two128();
    if |v| == 1 {
      PolyEmpty(v[1..]);
      PolyEmpty(w[1..]);
    } else {
      var v', w' := v[1..], w[1..];
      assert v'[|v'| - 1] == v[|v| - 1];
      PolyShift(v', w', v[0]);
      hide Shifted;
      TwoAdd(8, 8 * |v| - 8);
    }
  }

  lemma PolyEmpty(s: seq<bv8>)
    requires |s| == 0
    ensures Poly(s) == 0
  {}

  // V >>= 1 on the big-endian 128-bit block, in place.
  method ShiftRight(V: array<bv8>)
    requires V.Length == 16
    modifies V
    ensures Shifted(old(V[..]), V[..], 0)
  {
    ghost var v := V[..];
    for j := 16 downto 1
      invariant forall k :: 0 <= k < j ==> V[k] == v[k]
      invariant forall k :: j <= k < 16 ==> V[k] == Funnel(v[k], v[k - 1])
    {
      V[j] := (V[j] >> 1) | (V[j - 1] << 7);
    }
    V[0] := V[0] >> 1;
    NoCarry(v[0]);
  }

  lemma NoCarry(v: bv8)
    ensures v >> 1 == Funnel(v, 0)
  {}

  // One shift and, when a bit fell off, the reduction.
  method ShiftReduce(V: array<bv8>)
    requires V.Length == 16
    modifies V
    ensures Poly(V[..]) == TimesX(old(Poly(V[..])))
  {
    hide Poly, TimesX, Shifted;
    ghost var v := V[..];
    var lsb := V[15] & 1;
    ShiftRight(V);
    ghost var w := V[..];
    if lsb == 1 {
      V[0] := V[0] ^ 0xe1;
    }
    ReduceShifted(v, w, V[..]);
  }

  lemma ReduceShifted(v: seq<bv8>, w: seq<bv8>, z: seq<bv8>)
    requires |v| == |w| == 16 && Shifted(v, w, 0)
    requires z == if v[15] & 1 == 1 then w[0 := w[0] ^ 0xe1] else w
    ensures Poly(z) == TimesX(Poly(v))
  {
    PolyShift(v, w, 0);
    assert Low(0) == 0;
    assert Low(v[15]) == if v[15] & 1 == 1 then 1 else 0;
    hide Add, Two, Poly, Low, Shifted;
    assert Poly(w) == 2 * Poly(v) - (if v[15] & 1 == 1 then Two(128) else 0);
    PolyRange(w);
    if v[15] & 1 == 1 {
      XorReduction(w, z);
      TimesXOver(Poly(v), Poly(w));
    }
  }

  lemma TimesXOver(p: nat, q: nat)
    requires q == 2 * p - Two(128) && q < Two(128)
    ensures TimesX(p) == Add(q, 0x87)
  {
    hide Two, Add;
    Two128();
    AddSplit(128, q, 1, 0x87, 1);
    AddSelf(1);
  }

  lemma XorReduction(w: seq<bv8>, z: seq<bv8>)
    requires |w| == 16 && z == w[0 := w[0] ^ 0xe1]
    ensures Poly(z) == Add(Poly(w), 0x87)
  {
    var r: seq<bv8> := seq(16, i => if i == 0 then 0xe1 else 0);
    forall i | 0 <= i < 16 ensures z[i] == w[i] ^ r[i] {
      if i > 0 { XorNothing(w[i]); }
    }
    hide Poly;
    PolyXor(w, r, z);
    ReductionPoly(r);
  }

  lemma XorNothing(x: bv8)
    ensures x ^ 0 == x
  {}

  lemma ReductionPoly(r: seq<bv8>)
    requires |r| == 16 && r[0] == 0xe1 && forall i :: 1 <= i < 16 ==> r[i] == 0
    ensures Poly(r) == 0x87
  {
    PolyZero(r[1..]);
    RevUnrolled(0xe1);
  }

  lemma {:induction false} PolyZero(s: seq<bv8>)
    requires forall i :: 0 <= i < |s| ==> s[i] == 0
    ensures Poly(s) == 0
  {
    if s != [] {
      PolyZero(s[1..]);
      RevUnrolled(0);
    }
  }

  // ---- The multiplication ----

  lemma {:induction false} RevBit(b: bv8, i: nat, r: nat)
    requires i + r < 8
    ensures (RevFrom(b, i) / Two(r)) % 2 == Bit(b, 7 - i - r)
    decreases r
  {
    hide Bit, RevFrom, Two;
    BitRange(b, 7 - i);
    RevNext(b, i);
    if r == 0 {
      TwoSmall();
    } else {
      RevBit(b, i + 1, r - 1);
      TwoAdd(1, r - 1);
      TwoSmall();
      DivDiv(RevFrom(b, i), 2, Two(r - 1));
    }
  }

  // Bit i of the polynomial is bit 7 - i % 8 of byte i / 8.
  lemma {:induction false} PolyBit(s: seq<bv8>, i: nat)
    requires i < 8 * |s|
    ensures (Poly(s) / Two(i)) % 2 == Bit(s[i / 8], 7 - i % 8)
    decreases i
  {
    PolyCons(s);
    hide Two, RevFrom, Poly, Bit;
    if i < 8 {
      RevBit(s[0], 0, i);
      FirstByteBit(Rev(s[0]), Poly(s[1..]), i);
    } else {
      PolyBit(s[1..], i - 8);
      assert (i - 8) / 8 == i / 8 - 1 && (i - 8) % 8 == i % 8 && s[1..][i / 8 - 1] == s[i / 8];
      PolyDrop8(s, i);
    }
  }

  lemma Two8()
    ensures Two(8) == 0x100
  {
    Two128();
  }

  lemma PolyDrop8(s: seq<bv8>, i: nat)
    requires s != [] && i >= 8
    ensures Poly(s) / Two(i) == Poly(s[1..]) / Two(i - 8)
  {
    PolyCons(s);
    hide Two, RevFrom, Poly;
    RevRange(s[0], 0);
    Two8();
    DropTwo(Rev(s[0]), Poly(s[1..]), i);
  }

  lemma DropTwo(r: nat, p: nat, i: nat)
    requires r < 0x100 && i >= 8
    ensures (r + 0x100 * p) / Two(i) == p / Two(i - 8)
  {
    hide Two;
    Two8();
    TwoAdd(8, i - 8);
    DropByte(r, p, Two(i - 8));
  }

  lemma DropByte(r: nat, p: nat, u: nat)
    requires r < 0x100 && u >= 1
    ensures 0x100 * u >= 1 && (r + 0x100 * p) / (0x100 * u) == p / u
  {
    var x := r + 0x100 * p;
    DivDiv(x, 0x100, u);
    DivModUnique(x, p, r, 0x100);
  }

  lemma FirstByteBit(r: nat, p: nat, i: nat)
    requires i < 8
    ensures ((r + 0x100 * p) / Two(i)) % 2 == (r / Two(i)) % 2
  {
    hide Two;
    TwoSmall();
    TwoAdd(i, 7 - i);
    TwoAdd(1, 7);
    Two8();
    ShiftParity(r, p, Two(i), Two(7 - i));
  }

  method XorInto(Z: array<bv8>, V: array<bv8>)
    requires Z.Length == V.Length == 16 && Z != V
    modifies Z
    ensures Poly(Z[..]) == Add(old(Poly(Z[..])), Poly(V[..]))
  {
    hide Poly, Add;
    for j := 0 to 16
      invariant forall k :: 0 <= k < j ==> Z[k] == old(Z[k]) ^ V[k]
      invariant forall k :: j <= k < 16 ==> Z[k] == old(Z[k])
    {
      Z[j] := Z[j] ^ V[j];
    }
    PolyXor(old(Z[..]), V[..], Z[..]);
  }

  // z + x * v is unchanged modulo G by one iteration.
  lemma MultStep(z: nat, x: nat, v: nat, z': nat, v': nat)
    requires v < Two(128) && v' == TimesX(v)
    requires z' == if x % 2 == 1 then Add(z, v) else z
    ensures Cong(Add(z', Mul(x / 2, v')), Add(z, Mul(x, v)), G)
  {
    var h, p := x / 2, if x % 2 == 1 then v else 0;
    assert Mul(x, v) == Add(p, 2 * Mul(h, v)) by {
      if x == 0 { AddZero(0); }
    }
    hide Add, Two, Cong, Mul, TimesX;
    TimesXReduces(v);
    CongMul(v', 2 * v, h, G);
    MulDouble(h, v);
    AddAssociates(z, p, 2 * Mul(h, v));
    AddZero(z);
    CongRefl(z', G);
    CongAdd(z', z', Mul(h, v'), 2 * Mul(h, v), G);
  }

  method CopyAndClear(Y: array<bv8>, V: array<bv8>, Z: array<bv8>)
    requires Y.Length == V.Length == Z.Length == 16 && V != Y && Z != Y && V != Z
    modifies V, Z
    ensures V[..] == Y[..] && Poly(Z[..]) == 0
  {
    hide Poly;
    for i := 0 to 16
      invariant forall k :: 0 <= k < i ==> V[k] == Y[k] && Z[k] == 0
    {
      V[i] := Y[i];
      Z[i] := 0;
    }
    PolyZero(Z[..]);
  }

  method GfMult(X: array<bv8>, Y: array<bv8>, Z: array<bv8>)
    requires X.Length == Y.Length == Z.Length == 16 && Z != X && Z != Y
    modifies Z
    ensures Poly(Z[..]) == GMul(Poly(X[..]), Poly(Y[..]))
  {
    hide Add, Mul, Two, Cong, Reduce, Poly, TimesX, Bit, GMul;
    var V := new bv8[16];
    CopyAndClear(Y, V, Z);
    ghost var x, y := Poly(X[..]), Poly(Y[..]);
    PolyRange(X[..]);
    PolyRange(Y[..]);
    MultStart(x, y);
    for i := 0 to 128
      invariant Cong(Add(Poly(Z[..]), Mul(x / Two(i), Poly(V[..]))), Mul(x, y), G)
    {
      ghost var z, v := Poly(Z[..]), Poly(V[..]);
      PolyRange(V[..]);
      CoefficientTest(X[..], i);
      if (X[i / 8] >> (7 - i % 8)) & 1 == 1 {
        XorInto(Z, V);
      }
      ShiftReduce(V);
      MultIteration(z, x / Two(i), v, Poly(Z[..]), Poly(V[..]), Mul(x, y));
      NextHalf(x, i);
    }
    PolyRange(Z[..]);
    MultEnd(x, Poly(Z[..]), Poly(V[..]));
    GMulUnique(x, y, Poly(Z[..]));
  }

  lemma CoefficientTest(s: seq<bv8>, i: nat)
    requires |s| == 16 && i < 128
    ensures (s[i / 8] >> (7 - i % 8)) & 1 == 1 <==> (Poly(s) / Two(i)) % 2 == 1
  {
    hide Two, Poly;
    PolyBit(s, i);
    BitTest(s[i / 8], 7 - i % 8);
  }

  lemma MultIteration(z: nat, q: nat, v: nat, z': nat, v': nat, goal: nat)
    requires v < Two(128) && v' == TimesX(v)
    requires z' == if q % 2 == 1 then Add(z, v) else z
    requires Cong(Add(z, Mul(q, v)), goal, G)
    ensures Cong(Add(z', Mul(q / 2, v')), goal, G)
  {
    hide Add, Mul, Two, Cong, TimesX;
    MultStep(z, q, v, z', v');
    CongTrans(Add(z', Mul(q / 2, v')), Add(z, Mul(q, v)), goal, G);
  }

  lemma BitTest(b: bv8, k: nat)
    requires k < 8
    ensures (b >> k) & 1 == 1 <==> Bit(b, k) == 1
  {}

  lemma NextHalf(x: nat, i: nat)
    ensures x / Two(i + 1) == (x / Two(i)) / 2
  {
    DivDiv(x, Two(i), 2);
  }

  lemma MultStart(x: nat, y: nat)
    ensures Cong(Add(0, Mul(x / Two(0), y)), Mul(x, y), G)
  {
    TwoSmall();
    hide Two, Add, Mul, Cong;
    AddZero(Mul(x, y));
    CongRefl(Mul(x, y), G);
  }

  lemma MultEnd(x: nat, z: nat, v: nat)
    requires x < Two(128)
    ensures x / Two(128) == 0 && Add(z, Mul(0, v)) == z
  {
    AddZero(z);
    hide Two;
    DivModUnique(x, 0, x, Two(128));
  }
}
