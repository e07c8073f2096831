// X25519, refining the Montgomery ladder of RFC 7748 (kernel/crypto/curve25519.c).
module Curve25519 {
  import opened Words
  import opened ModArith
  import opened Primes
  import opened Field25519

  // ---- RFC 7748, section 5 ----

  function Bit(k: int, t: nat): int {
    PowPos(2, t);
    (k / Pow(2, t)) % 2
  }

  datatype Ladder = Ladder(x2: int, z2: int, x3: int, z3: int, swap: int)

  function Swapped(st: Ladder, swap: int): Ladder {
    if swap == 1 then st.(x2 := st.x3, z2 := st.z3, x3 := st.x2, z3 := st.z2) else st
  }

  // The differential addition and doubling of one round.
  function AddDouble(u: int, st: Ladder): Ladder {
    var a := FAdd(st.x2, st.z2);
    var aa := FMul(a, a);
    var b := FSub(st.x2, st.z2);
    var bb := FMul(b, b);
    var e := FSub(aa, bb);
    var da := FMul(FSub(st.x3, st.z3), a);
    var cb := FMul(FAdd(st.x3, st.z3), b);
    var s := FAdd(da, cb);
    var d := FSub(da, cb);
    Ladder(FMul(aa, bb), FMul(e, FAdd(aa, FMul(121665, e))), FMul(s, s), FMul(u, FMul(d, d)), st.swap)
  }

  // One round with the accumulated swap flag of the RFC.
  function Round(u: int, st: Ladder, bit: int): Ladder {
    var swap := (st.swap + bit) % 2;
    AddDouble(u, Swapped(st, swap)).(swap := bit)
  }

  // The state before bit t - 1 is consumed; bits 254 down to t have been.
  function Rounds(k: int, u: int, t: nat): Ladder
    requires t <= 255
    decreases 255 - t
  {
    if t == 255 then Ladder(1, 0, u, 1, 0)
    else Round(u, Rounds(k, u, t + 1), Bit(k, t))
  }

  // X25519(k, u) on integers, as RFC 7748 section 5 defines it.
  function X25519Of(k: int, u: int): int {
    var st := Rounds(k, u % P, 0);
    var out := Swapped(st, st.swap);
    FMul(out.x2, Pow(out.z2, P - 2) % P)
  }

  // decodeScalar25519: three low bits cleared, bit 255 cleared, bit 254 set.
  function Clamped(n: int): int {
    PowPos(2, 254);
    Pow(2, 254) + (n % Pow(2, 254)) - n % 8
  }

  // decodeUCoordinate: the value of the low 255 bits.
  function DecodeU(s: seq<byte>): int
    requires |s| == 32
  {
    PowPos(2, 255);
    BVal(s, 32) % Pow(2, 255)
  }

  // ---- Scalar decoding ----

  lemma {:induction false} BWIsPow(i: nat)
    ensures BW(i) == Pow(2, 8 * i)
  {
    if i > 0 {
      BWIsPow(i - 1);
      Pow2Of64();
      PowAdd(2, 8, 8 * (i - 1));
    } else {
      assert Pow(2, 0) == 1;
    }
  }

  lemma {:induction false} BValSplit(s: seq<byte>, m: nat, n: nat)
    requires m + n <= |s|
    ensures BVal(s, m + n) == BVal(s, m) + BW(m) * BVal(s[m..], n)
  {
    if n > 0 {
      BValSplit(s, m, n - 1);
      BWIsPow(m);
      BWIsPow(n - 1);
      BWIsPow(m + n - 1);
      PowAdd(2, 8 * m, 8 * (n - 1));
      var x, w, v := s[m + n - 1] as int, BW(n - 1), BVal(s[m..], n - 1);
      assert m + n - 1 == m + (n - 1);
      assert BVal(s, m + n) == BVal(s, m + (n - 1)) + x * (BW(m) * w);
      assert BVal(s[m..], n) == v + x * w;
      Regroup(BW(m), v, x, w);
    }
  }

  lemma {:induction false} BValRange(s: seq<byte>, n: nat)
    requires n <= |s|
    ensures 0 <= BVal(s, n) < BW(n)
  {
    if n > 0 {
      BValRange(s, n - 1);
      MulLe(s[n - 1] as int, 0xff, BW(n - 1));
      MulLe(0, s[n - 1] as int, BW(n - 1));
    }
  }

  lemma BVal1(s: seq<byte>)
    requires |s| >= 1
    ensures BVal(s, 1) == s[0] as int && BW(1) == 0x100
  {
    assert BVal(s, 0) == 0 && BW(0) == 1;
  }

  // Byte q of a little-endian string, with everything above it.
  lemma BValByte(s: seq<byte>, q: nat) returns (rest: int)
    requires q < |s|
    ensures BW(q) > 0
    ensures BVal(s, |s|) / BW(q) == s[q] as int + 0x100 * rest
  {
    hide BVal, BW;
    BValSplit(s, q, |s| - q);
    var tail := s[q..];
    BValSplit(tail, 1, |tail| - 1);
    BVal1(tail);
    BValRange(s, q);
    rest := BVal(tail[1..], |tail| - 1);
    DivModUnique(BVal(s, |s|), BVal(tail, |tail|), BVal(s, q), BW(q));
  }

  // Shifting byte t / 8 right by t % 8 exposes bit t of the number.
  lemma ScalarBit(s: seq<byte>, t: nat)
    requires |s| == 32 && t < 256
    ensures Pow(2, t % 8) > 0 && Pow(2, t) > 0
    ensures (s[t / 8] as int / Pow(2, t % 8)) % 2 == BVal(s, 32) / Pow(2, t) % 2
  {
    PowPos(2, t);
    var q, r := t / 8, t % 8;
    PowPos(2, r);
    PowPos(2, 7 - r);
    var x := BValByte(s, q);
    BWIsPow(q);
    PowAdd(2, 8 * q, r);
    DivDiv(BVal(s, 32), BW(q), Pow(2, r));
    Pow2Of64();
    PowAdd(2, r, 7 - r);
    assert Pow(2, 8) == 2 * Pow(2, 7) by { PowAdd(2, 1, 7); assert Pow(2, 1) == 2; }
    ShiftParity(s[q] as int, x, Pow(2, r), Pow(2, 7 - r));
  }

  lemma ScalarBitIs(s: seq<byte>, t: nat)
    requires |s| == 32 && t < 256
    ensures Pow(2, t % 8) > 0 && (s[t / 8] as int / Pow(2, t % 8)) % 2 == Bit(BVal(s, 32), t)
  {
    hide Pow, BVal;
    ScalarBit(s, t);
  }

  // x & 248 and (x & 127) | 64 on a byte, in integer arithmetic.
  function ClampLow(x: byte): byte { x - x % 8 }

  function ClampHigh(x: byte): byte { x % 64 + 64 }

  // The clamping of single bytes is the source's masking.
  lemma ClampMasks(x: byte, b: bv8)
    requires b as int == x as int
    ensures ClampLow(x) as int == (b & 248) as int && ClampHigh(x) as int == ((b & 127) | 64) as int
  {
    MaskLow(b);
    MaskHigh(b);
  }

  lemma MaskLow(x: bv8)
    ensures (x & 248) as int == x as int - x as int % 8
  {}

  lemma MaskHigh(x: bv8)
    ensures ((x & 127) | 64) as int == x as int % 64 + 64
  {}

  // A 32-byte string as its first byte, the middle thirty and the last.
  lemma BVal32(s: seq<byte>)
    requires |s| == 32
    ensures BVal(s, 32) == s[0] as int + 0x100 * (BVal(s[1..], 30) + BW(30) * s[31] as int)
  {
    hide BVal, BW;
    BValSplit(s, 1, 31);
    BValSplit(s[1..], 30, 1);
    BVal1(s);
    BVal1(s[1..][30..]);
  }

  // Masking the first and last byte computes the clamped scalar.
  lemma ClampValue(s: seq<byte>, e: seq<byte>)
    requires |s| == 32 && e == s[0 := ClampLow(s[0])][31 := ClampHigh(s[31])]
    ensures BVal(e, 32) == Clamped(BVal(s, 32))
  {
    hide BVal, BW, Clamped;
    BVal32(s);
    BVal32(e);
    BValExt(s[1..], e[1..], 30);
    BValRange(s[1..], 30);
    ClampArith(BVal(s, 32), s[0] as int, BVal(s[1..], 30), s[31] as int, BVal(e, 32));
  }

  lemma {:induction false} BValExt(s: seq<byte>, t: seq<byte>, n: nat)
    requires n <= |s| && n <= |t| && forall i :: 0 <= i < n ==> s[i] == t[i]
    ensures BVal(s, n) == BVal(t, n)
  {
    if n > 0 { BValExt(s, t, n - 1); }
  }

  lemma Pow254()
    ensures Pow(2, 254) == 0x4000 * BW(30) > 0
  {
    BWIsPow(30);
    PowPos(2, 240);
    Pow2Of64();
    PowAdd(2, 14, 240);
    assert Pow(2, 14) == 0x4000 by { PowAdd(2, 2, 12); PowAdd(2, 14, 2); assert Pow(2, 1) == 2; assert Pow(2, 2) == 4; PowAdd(2, 16, 16); }
  }

  lemma ClampArith(n: int, lo: int, mid: int, hi: int, e: int)
    requires 0 <= lo < 0x100 && 0 <= mid < BW(30) && 0 <= hi < 0x100
    requires n == lo + 0x100 * (mid + BW(30) * hi)
    requires e == (lo - lo % 8) + 0x100 * (mid + BW(30) * (hi % 64 + 64))
    ensures e == Clamped(n)
  {
    hide Pow, BW;
    Pow254();
    ClampSplit(n, lo, mid, hi, BW(30));
    assert BW(30) * (hi % 64 + 64) == BW(30) * (hi % 64) + 64 * BW(30);
  }

  lemma ClampSplit(n: int, lo: int, mid: int, hi: int, w: int)
    requires 0 <= lo < 0x100 && 0 <= mid < w && 0 <= hi < 0x100
    requires n == lo + 0x100 * (mid + w * hi)
    ensures 0x4000 * w > 0
    ensures n % 8 == lo % 8
    ensures n % (0x4000 * w) == lo + 0x100 * (mid + w * (hi % 64))
  {
    var q, r := hi / 64, hi % 64;
    var m, wr := 0x4000 * w, w * r;
    Regroup64(w, q, r);
    MulLe(r, 63, w);
    MulLe(0, r, w);
    assert n == q * m + (lo + 0x100 * (mid + wr));
    DivModUnique(n, q, lo + 0x100 * (mid + wr), m);
  }

  lemma Regroup64(w: int, q: int, r: int)
    ensures 0x100 * (w * (64 * q + r)) == q * (0x4000 * w) + 0x100 * (w * r)
    ensures w * r == r * w
  {
    assert w * (64 * q + r) == 64 * (w * q) + w * r;
    assert q * (0x4000 * w) == 0x4000 * (w * q);
  }

  // ---- The ladder over limbs ----

  lemma CanonicalIsReduced(s: seq<int64>)
    requires |s| == 16 && Canonical(s)
    ensures Reduced(s)
  {}

  lemma NegatedSquare(x: int, y: int)
    ensures FMul(FSub(x, y), FSub(x, y)) == FMul(FSub(y, x), FSub(y, x))
  {
    ModMul(x - y, x - y, P);
    ModMul(y - x, y - x, P);
    assert (x - y) * (x - y) == (y - x) * (y - x);
  }

  lemma Commute(x: int, y: int)
    ensures FAdd(x, y) == FAdd(y, x) && FMul(x, y) == FMul(y, x)
  {
    assert x * y == y * x;
  }

  // ---- What a ladder round computes ----

  lemma FieldOps(x: int, y: int, a: int, b: int)
    requires x % P == a % P && y % P == b % P
    ensures FAdd(x, y) == (a + b) % P && FSub(x, y) == (a - b) % P && FMul(x, y) == (a * b) % P
    ensures FAdd(x, y) % P == (a + b) % P && FSub(x, y) % P == (a - b) % P && FMul(x, y) % P == (a * b) % P
  {
    ModAdd(x, y, P);
    ModAdd(a, b, P);
    ModSub(x, y, P);
    ModSub(a, b, P);
    ModCongMul(x, y, a, b, P);
    ModIdem(a + b, P);
    ModIdem(a - b, P);
    ModIdem(a * b, P);
  }

  lemma Squares(x: int, z: int)
    ensures (x + z) * (x + z) == x * x + 2 * (x * z) + z * z
    ensures (x - z) * (x - z) == x * x - 2 * (x * z) + z * z
    ensures (x + z) * (x - z) == x * x - z * z
  {}

  lemma SquareOfProduct(s: int, d: int)
    ensures (s * s) * (d * d) == (s * d) * (s * d)
  {
    MulAssoc(s * s, d, d);
    MulAssoc(s, s, d);
    MulAssoc(s * d, s, d);
    assert (s * d) * s == (s * s) * d;
  }

  // Four times a square, in the two shapes the formulas take.
  lemma FourSquares(x: int, u: int)
    ensures (2 * x) * (2 * x) == 4 * x * x && u * ((2 * x) * (2 * x)) == 4 * u * x * x
  {
    assert (2 * x) * (2 * x) == 4 * (x * x);
    MulAssoc(4, x, x);
    MulAssoc(4 * u, x, x);
    assert u * (4 * (x * x)) == (4 * u) * (x * x);
  }

  lemma Crosses(x2: int, z2: int, x3: int, z3: int)
    ensures (x3 - z3) * (x2 + z2) + (x3 + z3) * (x2 - z2) == 2 * (x2 * x3 - z2 * z3)
    ensures (x3 - z3) * (x2 + z2) - (x3 + z3) * (x2 - z2) == 2 * (z2 * x3 - x2 * z3)
  {}

  lemma SquareOfNegation(x: int)
    ensures (-x) * (-x) == x * x
  {}

  // The doubling of (x2, z2): on the curve v^2 = u^3 + 486662 u^2 + u.
  lemma Doubles(u: int, st: Ladder)
    ensures var r, x, z := AddDouble(u, st), st.x2, st.z2;
            && r.x2 == ((x * x - z * z) * (x * x - z * z)) % P
            && r.z2 == (4 * x * z * (x * x + 486662 * x * z + z * z)) % P
  {
    hide FAdd, FSub, FMul;
    var x, z := st.x2, st.z2;
    FieldOps(x, z, x, z);
    var a, b := FAdd(x, z), FSub(x, z);
    FieldOps(a, a, x + z, x + z);
    FieldOps(b, b, x - z, x - z);
    var aa, bb := FMul(a, a), FMul(b, b);
    var s, d := (x + z) * (x + z), (x - z) * (x - z);
    FieldOps(aa, bb, s, d);
    var e := FSub(aa, bb);
    FieldOps(121665, e, 121665, s - d);
    FieldOps(aa, FMul(121665, e), s, 121665 * (s - d));
    FieldOps(e, FAdd(aa, FMul(121665, e)), s - d, s + 121665 * (s - d));
    DoubleArith(x, z);
  }

  lemma DoubleArith(x: int, z: int)
    ensures ((x + z) * (x + z)) * ((x - z) * (x - z)) == (x * x - z * z) * (x * x - z * z)
    ensures var s, d := (x + z) * (x + z), (x - z) * (x - z);
            (s - d) * (s + 121665 * (s - d)) == 4 * x * z * (x * x + 486662 * x * z + z * z)
  {
    Squares(x, z);
    SquareOfProduct(x + z, x - z);
    var s, d := (x + z) * (x + z), (x - z) * (x - z);
    MulAssoc(4, x, z);
    MulAssoc(486662, x, z);
    assert s - d == 4 * x * z;
    assert s + 121665 * (s - d) == x * x + 486662 * x * z + z * z;
  }

  // The addition of (x2, z2) and (x3, z3), whose difference is (u, 1).
  lemma Adds(u: int, st: Ladder)
    ensures var r, x2, z2, x3, z3 := AddDouble(u, st), st.x2, st.z2, st.x3, st.z3;
            && r.x3 == (4 * (x2 * x3 - z2 * z3) * (x2 * x3 - z2 * z3)) % P
            && r.z3 == (4 * u * (x2 * z3 - z2 * x3) * (x2 * z3 - z2 * x3)) % P
  {
    hide FAdd, FSub, FMul;
    var x2, z2, x3, z3 := st.x2, st.z2, st.x3, st.z3;
    FieldOps(x2, z2, x2, z2);
    FieldOps(x3, z3, x3, z3);
    var da, cb := FMul(FSub(x3, z3), FAdd(x2, z2)), FMul(FAdd(x3, z3), FSub(x2, z2));
    FieldOps(FSub(x3, z3), FAdd(x2, z2), x3 - z3, x2 + z2);
    FieldOps(FAdd(x3, z3), FSub(x2, z2), x3 + z3, x2 - z2);
    FieldOps(da, cb, (x3 - z3) * (x2 + z2), (x3 + z3) * (x2 - z2));
    Crosses(x2, z2, x3, z3);
    var m, n := x2 * x3 - z2 * z3, z2 * x3 - x2 * z3;
    var s, d := FAdd(da, cb), FSub(da, cb);
    FieldOps(s, s, 2 * m, 2 * m);
    FourSquares(m, u);
    FieldOps(d, d, 2 * n, 2 * n);
    FieldOps(u, FMul(d, d), u, (2 * n) * (2 * n));
    FourSquares(n, u);
    SignLost(u, n, x2 * z3 - z2 * x3);
  }

  lemma SignLost(u: int, n: int, m: int)
    requires m == -n
    ensures 4 * u * n * n == 4 * u * m * m
  {
    MulAssoc(4 * u, n, n);
    MulAssoc(4 * u, m, m);
    SquareOfNegation(n);
  }

  // The two points a round works with, when the pending swap is carried out:
  // (x2, z2) and (x3, z3).
  function Points(k: int, u: int, t: nat): (int, int, int, int)
    requires t <= 255
  {
    var st := Rounds(k, u, t);
    var now := Swapped(st, st.swap);
    (now.x2, now.z2, now.x3, now.z3)
  }

  // The whole ladder without swaps.  It starts from (1, 0) and (u, 1); bit t of
  // the scalar, from 254 down, says which of the two points is doubled, and the
  // other becomes their sum; the result is x2 / z2.
  lemma LadderLaw(k: int, u: int, t: nat)
    requires t < 255
    ensures Points(k, u, 255) == (1, 0, u, 1)
    ensures X25519Of(k, u) == (Points(k, u % P, 0).0 * Pow(Points(k, u % P, 0).1, P - 2)) % P
    ensures Pow(2, t) > 0
    ensures var (x2, z2, x3, z3) := Points(k, u, t + 1);
            var (p2, q2, p3, q3) := Points(k, u, t);
            if (k / Pow(2, t)) % 2 == 0 then
              && p2 == ((x2 * x2 - z2 * z2) * (x2 * x2 - z2 * z2)) % P
              && q2 == (4 * x2 * z2 * (x2 * x2 + 486662 * x2 * z2 + z2 * z2)) % P
              && p3 == (4 * (x2 * x3 - z2 * z3) * (x2 * x3 - z2 * z3)) % P
              && q3 == (4 * u * (x2 * z3 - z2 * x3) * (x2 * z3 - z2 * x3)) % P
            else
              && p3 == ((x3 * x3 - z3 * z3) * (x3 * x3 - z3 * z3)) % P
              && q3 == (4 * x3 * z3 * (x3 * x3 + 486662 * x3 * z3 + z3 * z3)) % P
              && p2 == (4 * (x3 * x2 - z3 * z2) * (x3 * x2 - z3 * z2)) % P
              && q2 == (4 * u * (x3 * z2 - z3 * x2) * (x3 * z2 - z3 * x2)) % P
  {
    hide Pow, FMul, AddDouble, X25519Of, Points;
    ResultOf(k, u);
    PowPos(2, t);
    StartPoints(k, u);
    RoundPoints(k, u, t);
    var (x2, z2, x3, z3) := Points(k, u, t + 1);
    if (k / Pow(2, t)) % 2 == 0 {
      Doubles(u, Ladder(x2, z2, x3, z3, 0));
      Adds(u, Ladder(x2, z2, x3, z3, 0));
    } else {
      Doubles(u, Ladder(x3, z3, x2, z2, 0));
      Adds(u, Ladder(x3, z3, x2, z2, 0));
    }
  }

  lemma StartPoints(k: int, u: int)
    ensures Points(k, u, 255) == (1, 0, u, 1)
  {}

  lemma RoundPoints(k: int, u: int, t: nat)
    requires t < 255
    ensures Pow(2, t) > 0
    ensures var (x2, z2, x3, z3) := Points(k, u, t + 1);
            if (k / Pow(2, t)) % 2 == 0 then
              var r := AddDouble(u, Ladder(x2, z2, x3, z3, 0));
              Points(k, u, t) == (r.x2, r.z2, r.x3, r.z3)
            else
              var r := AddDouble(u, Ladder(x3, z3, x2, z2, 0));
              Points(k, u, t) == (r.x3, r.z3, r.x2, r.z2)
  {
    hide Pow, FMul, FAdd, FSub;
    PowPos(2, t);
    var st := Rounds(k, u, t + 1);
    RoundsSwap(k, u, t + 1);
    UnswapStep(u, st, Bit(k, t));
  }

  lemma ResultOf(k: int, u: int)
    ensures X25519Of(k, u) == (Points(k, u % P, 0).0 * Pow(Points(k, u % P, 0).1, P - 2)) % P
  {
    hide Rounds, Pow;
    var (x2, z2, _, _) := Points(k, u % P, 0);
    ModIdem(Pow(z2, P - 2), P);
    ModCongMul(x2, Pow(z2, P - 2) % P, x2, Pow(z2, P - 2), P);
  }

  // Where the source's operand order differs from the RFC's.
  lemma RoundIdentities(u: int, st: Ladder)
    ensures var a := FAdd(st.x2, st.z2);
            var b := FSub(st.x2, st.z2);
            var aa, bb := FMul(a, a), FMul(b, b);
            var e := FSub(aa, bb);
            var da, cb := FMul(FSub(st.x3, st.z3), a), FMul(FAdd(st.x3, st.z3), b);
            var d := FSub(da, cb);
            && FAdd(cb, da) == FAdd(da, cb)
            && FMul(FSub(cb, da), FSub(cb, da)) == FMul(d, d)
            && FMul(e, 121665) == FMul(121665, e)
            && FAdd(FMul(121665, e), aa) == FAdd(aa, FMul(121665, e))
            && FMul(FMul(d, d), u) == FMul(u, FMul(d, d))
  {
    hide FAdd, FMul, FSub;
    var a, b := FAdd(st.x2, st.z2), FSub(st.x2, st.z2);
    var aa, bb := FMul(a, a), FMul(b, b);
    var e := FSub(aa, bb);
    var da, cb := FMul(FSub(st.x3, st.z3), a), FMul(FAdd(st.x3, st.z3), b);
    Commute(cb, da);
    NegatedSquare(cb, da);
    Commute(e, 121665);
    Commute(FMul(121665, e), aa);
    Commute(u, FMul(FSub(da, cb), FSub(da, cb)));
  }

  // Sixteen-limb vectors, none of which aliases a vector being written.
  ghost predicate Separate(a: array<int64>, b: array<int64>, c: array<int64>, d: array<int64>,
                           ee: array<int64>, f: array<int64>, x: array<int64>, a24: array<int64>)
  {
    && a.Length == b.Length == c.Length == d.Length == ee.Length == f.Length == x.Length == a24.Length == 16
    && a != b && a != c && a != d && a != ee && a != f && a != x && a != a24
    && b != c && b != d && b != ee && b != f && b != x && b != a24
    && c != d && c != ee && c != f && c != x && c != a24
    && d != ee && d != f && d != x && d != a24
    && ee != f && ee != x && ee != a24 && f != x && f != a24
  }

  // One ladder round between the two swaps, in the source's in-place schedule.
  method LadderStep(a: array<int64>, b: array<int64>, c: array<int64>, d: array<int64>,
                    ee: array<int64>, f: array<int64>, x: array<int64>, a24: array<int64>, ghost st: Ladder)
    requires Separate(a, b, c, d, ee, f, x, a24)
    requires Reduced(a[..]) && Reduced(b[..]) && Reduced(c[..]) && Reduced(d[..])
    requires Reduced(x[..]) && Reduced(a24[..]) && Fe(a24[..]) == 121665
    requires st.x2 == Fe(a[..]) && st.x3 == Fe(b[..]) && st.z2 == Fe(c[..]) && st.z3 == Fe(d[..])
    modifies a, b, c, d, ee, f
    ensures Reduced(a[..]) && Reduced(b[..]) && Reduced(c[..]) && Reduced(d[..])
    ensures var r := AddDouble(Fe(x[..]), st);
            Fe(a[..]) == r.x2 && Fe(b[..]) == r.x3 && Fe(c[..]) == r.z2 && Fe(d[..]) == r.z3
    ensures var x2, z2, x3, z3 := st.x2, st.z2, st.x3, st.z3;
            && Fe(a[..]) == ((x2 * x2 - z2 * z2) * (x2 * x2 - z2 * z2)) % P
            && Fe(c[..]) == (4 * x2 * z2 * (x2 * x2 + 486662 * x2 * z2 + z2 * z2)) % P
            && Fe(b[..]) == (4 * (x2 * x3 - z2 * z3) * (x2 * x3 - z2 * z3)) % P
            && Fe(d[..]) == (4 * Fe(x[..]) * (x2 * z3 - z2 * x3) * (x2 * z3 - z2 * x3)) % P
  {
    Doubles(Fe(x[..]), st);
    Adds(Fe(x[..]), st);
    RoundIdentities(Fe(x[..]), st);
    hide Reduced, Loose, Fe, FAdd, FSub, FMul;
    ReducedIsLoose(x[..]);
    ReducedIsLoose(a24[..]);
    FeAdd(ee, a, c);
    FeSub(a, a, c);
    FeAdd(c, b, d);
    FeSub(b, b, d);
    FeSq(d, ee);
    FeSq(f, a);
    FeMul(a, c, a);
    FeMul(c, b, ee);
    FeAdd(ee, a, c);
    FeSub(a, a, c);
    FeSq(b, a);
    FeSub(c, d, f);
    FeMul(a, c, a24);
    FeAdd(a, a, d);
    FeMul(c, c, a);
    ReducedIsLoose(d[..]);
    ReducedIsLoose(f[..]);
    FeMul(a, d, f);
    ReducedIsLoose(b[..]);
    FeMul(d, b, x);
    FeSq(b, ee);
  }

  lemma ReducedIsSmall(s: seq<int64>)
    requires Reduced(s)
    ensures Within(s, 0x10_0000_0000_0000)
  {}

  lemma Pow255()
    ensures Pow(2, 255) == P + 19
  {
    Pow250();
    PowAdd(2, 5, 250);
    assert Pow(2, 5) == 32 by { assert Pow(2, 1) == 2 && Pow(2, 2) == 4 && Pow(2, 3) == 8; }
  }

  lemma SmallVal(s: seq<int64>)
    requires |s| == 16 && forall i :: 2 <= i < 16 ==> s[i] == 0
    ensures Val(s) == s[0] as int + 0x10000 * s[1] as int
  {
    PValSplit(s, 2, 14);
    PValZero(s[2..], 14);
    WValues();
    assert W(2) * 0 == 0;
    assert PVal(s, 2) == PVal(s, 1) + s[1] as int * W(1);
    assert PVal(s, 1) == PVal(s, 0) + s[0] as int * W(0);
  }

  method Constant121665() returns (g: array<int64>)
    ensures fresh(g) && g.Length == 16 && Reduced(g[..]) && Fe(g[..]) == 121665
  {
    g := new int64[16];
    for i := 0 to 16
      invariant forall k :: 0 <= k < i ==> g[k] == 0
    {
      g[i] := 0;
    }
    g[0], g[1] := 0xDB41, 1;
    SmallVal(g[..]);
  }

  // (x2, z2) = (1, 0) and (x3, z3) = (u, 1).
  method Start(x: array<int64>) returns (a: array<int64>, b: array<int64>, c: array<int64>, d: array<int64>)
    requires x.Length == 16 && Canonical(x[..])
    ensures fresh(a) && fresh(b) && fresh(c) && fresh(d)
    ensures a.Length == b.Length == c.Length == d.Length == 16
    ensures a != b && a != c && a != d && b != c && b != d && c != d
    ensures Holds(a[..], b[..], c[..], d[..], Ladder(1, 0, Fe(x[..]), 1, 0))
  {
    a, b, c, d := new int64[16], new int64[16], new int64[16], new int64[16];
    for i := 0 to 16
      invariant forall k :: 0 <= k < i ==> b[k] == x[k] && a[k] == 0 && c[k] == 0 && d[k] == 0
    {
      b[i] := x[i];
      a[i], c[i], d[i] := 0, 0, 0;
    }
    a[0], d[0] := 1, 1;
    hide PVal;
    PValExt(b[..], x[..], 16);
    SmallVal(a[..]);
    SmallVal(c[..]);
    SmallVal(d[..]);
  }

  // Undoing the swap after each round, as the source does, tracks the RFC's
  // state with its pending swap carried out.
  lemma UnswapStep(u: int, st: Ladder, bit: int)
    requires st.swap == 0 || st.swap == 1
    requires bit == 0 || bit == 1
    ensures var now := Swapped(Swapped(st, st.swap), bit);
            var rfc := Round(u, st, bit);
            Swapped(rfc, rfc.swap) == Swapped(AddDouble(u, now), bit).(swap := bit)
  {
    hide FAdd, FSub, FMul;
  }

  lemma {:induction false} RoundsSwap(k: int, u: int, t: nat)
    requires t <= 255
    ensures Rounds(k, u, t).swap == 0 || Rounds(k, u, t).swap == 1
    decreases 255 - t
  {
    hide FAdd, FSub, FMul, AddDouble;
    if t < 255 { RoundsSwap(k, u, t + 1); }
  }

  ghost predicate Holds(a: seq<int64>, b: seq<int64>, c: seq<int64>, d: seq<int64>, st: Ladder) {
    && Reduced(a) && Reduced(b) && Reduced(c) && Reduced(d)
    && Fe(a) == st.x2 && Fe(b) == st.x3 && Fe(c) == st.z2 && Fe(d) == st.z3
  }

  // Swap on the bit, step, swap back.
  method LadderRound(a: array<int64>, b: array<int64>, c: array<int64>, d: array<int64>,
                     ee: array<int64>, f: array<int64>, x: array<int64>, a24: array<int64>,
                     bit: int64, ghost st: Ladder)
    requires Separate(a, b, c, d, ee, f, x, a24)
    requires Reduced(x[..]) && Reduced(a24[..]) && Fe(a24[..]) == 121665
    requires Holds(a[..], b[..], c[..], d[..], st)
    requires bit == 0 || bit == 1
    modifies a, b, c, d, ee, f
    ensures Holds(a[..], b[..], c[..], d[..], Swapped(AddDouble(Fe(x[..]), Swapped(st, bit as int)), bit as int))
  {
    hide Fe, Reduced, AddDouble;
    FeCswap(a, b, bit);
    FeCswap(c, d, bit);
    LadderStep(a, b, c, d, ee, f, x, a24, Swapped(st, bit as int));
    FeCswap(a, b, bit);
    FeCswap(c, d, bit);
  }

  // The 255 rounds; a / c is the resulting u-coordinate.
  method RunLadder(e: array<byte>, x: array<int64>) returns (a: array<int64>, c: array<int64>)
    requires e.Length == 32 && x.Length == 16 && Canonical(x[..])
    ensures fresh(a) && fresh(c) && a != c && a.Length == c.Length == 16 && Reduced(a[..]) && Reduced(c[..])
    ensures var st := Rounds(BVal(e[..], 32), Fe(x[..]), 0);
            Fe(a[..]) == Swapped(st, st.swap).x2 && Fe(c[..]) == Swapped(st, st.swap).z2
  {
    hide BVal, BW, Pow, Bit, Fe, Reduced, Loose, FAdd, FSub, FMul, AddDouble, PVal;
    ghost var k := BVal(e[..], 32);
    ghost var u := Fe(x[..]);
    var b, d;
    a, b, c, d := Start(x);
    var ee, f := new int64[16], new int64[16];
    var a24 := Constant121665();
    CanonicalIsReduced(x[..]);
    ghost var bits, xs := e[..], x[..];
    for i := 255 downto 0
      invariant e[..] == bits && x[..] == xs && Reduced(a24[..]) && Fe(a24[..]) == 121665
      invariant Holds(a[..], b[..], c[..], d[..], Swapped(Rounds(k, u, i), Rounds(k, u, i).swap))
    {
      ghost var st := Rounds(k, u, i + 1);
      RoundsSwap(k, u, i + 1);
      ScalarBitIs(bits, i);
      var bit: int64 := ((e[i / 8] as int / Pow(2, i % 8)) % 2) as int64;
      UnswapStep(u, st, bit as int);
      LadderRound(a, b, c, d, ee, f, x, a24, bit, Swapped(st, st.swap));
    }
  }

  method ClampScalar(scalar: array<byte>) returns (e: array<byte>)
    requires scalar.Length == 32
    ensures fresh(e) && e.Length == 32
    ensures BVal(e[..], 32) == Clamped(BVal(scalar[..], 32))
  {
    hide BVal, BW, Clamped;
    e := new byte[32];
    for i := 0 to 32
      invariant forall k :: 0 <= k < i ==> e[k] == scalar[k]
    {
      e[i] := scalar[i];
    }
    assert e[..] == scalar[..];
    e[0] := ClampLow(e[0]);
    e[31] := ClampHigh(e[31]);
    ClampValue(scalar[..], e[..]);
  }

  method X25519(out: array<byte>, scalar: array<byte>, point: array<byte>)
    requires out.Length == scalar.Length == point.Length == 32
    modifies out
    ensures BVal(out[..], 32) == old(X25519Of(Clamped(BVal(scalar[..], 32)), DecodeU(point[..])))
  {
    var e := ClampScalar(scalar);
    var x := new int64[16];
    FeUnpack(x, point);
    Pow255();
    hide BVal, BW, Pow, Reduced, Loose, FMul, PVal, Clamped;
    var a, c := RunLadder(e, x);
    ReducedIsLoose(c[..]);
    FeInv(c, c);
    ReducedIsLoose(a[..]);
    FeMul(a, a, c);
    ReducedIsSmall(a[..]);
    FePack(out, a);
  }

  // Provided p is prime, the power p - 2 is the inverse the RFC divides by.
  lemma PowerIsInverse(z: nat)
    requires Prime(P) && z % P != 0
    ensures FMul(z, Pow(z, P - 2) % P) == 1
  {
    Fermat(z, P);
    ModIdem(Pow(z, P - 2), P);
    ModCongMul(z, Pow(z, P - 2) % P, z, Pow(z, P - 2), P);
  }
}
