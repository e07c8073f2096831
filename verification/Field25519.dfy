// Arithmetic modulo p = 2^255 - 19 on limbs (kernel/crypto/curve25519.c).
module Field25519 {
  // There are sixteen signed 64-bit limbs of radix 2^16.  They have type int64,
  // so verification includes the absence of signed overflow in every
  // intermediate result.

  import opened Words
  import opened ModArith
  import Bits

  const P: int := 0x7fffffff_ffffffff_ffffffff_ffffffff_ffffffff_ffffffff_ffffffff_ffffffed

  // Weight of limb i.
  function W(i: nat): int {
    if i == 0 then 1 else 0x10000 * W(i - 1)
  }

  // The integer denoted by the first n limbs.
  function PVal(s: seq<int64>, n: nat): int
    requires n <= |s|
  {
    if n == 0 then 0 else PVal(s, n - 1) + s[n - 1] as int * W(n - 1)
  }

  function Val(s: seq<int64>): int {
    PVal(s, |s|)
  }

  // The field element denoted by a limb vector.
  function Fe(s: seq<int64>): int {
    Val(s) % P
  }

  function FAdd(x: int, y: int): int { (x + y) % P }
  function FSub(x: int, y: int): int { (x - y) % P }
  function FMul(x: int, y: int): int { (x * y) % P }

  // ---- Limb ranges ----

  ghost predicate Within(s: seq<int64>, b: int) {
    forall i :: 0 <= i < |s| ==> -b <= s[i] as int <= b
  }

  // Every limb in [0, 2^16).
  ghost predicate Canonical(s: seq<int64>) {
    forall i :: 0 <= i < |s| ==> 0 <= s[i] < 0x10000
  }

  ghost predicate CanonicalTail(s: seq<int64>) {
    forall i :: 1 <= i < |s| ==> 0 <= s[i] < 0x10000
  }

  // What one carry pass leaves of limbs below 2^52.
  ghost predicate Carried(s: seq<int64>) {
    |s| == 16 && CanonicalTail(s) && -0x400_0000_0000 <= s[0] <= 0x400_0000_0000
  }

  // What two carry passes leave: limb 0 overshoots by at most one folded carry.
  ghost predicate Reduced(s: seq<int64>) {
    |s| == 16 && CanonicalTail(s) && -38 <= s[0] <= 65573
  }

  // What a multiplication accepts: sums and differences of reduced vectors.
  ghost predicate Loose(s: seq<int64>) {
    |s| == 16 && Within(s, 0x40000)
  }

  // ---- Limb sums ----

  lemma {:induction false} WAdd(i: nat, j: nat)
    ensures W(i + j) == W(i) * W(j)
  {
    if i > 0 {
      WAdd(i - 1, j);
      assert i + j - 1 == (i - 1) + j;
      MulAssoc(0x10000, W(i - 1), W(j));
    }
  }

  lemma {:induction false} PValExt(s: seq<int64>, t: seq<int64>, n: nat)
    requires n <= |s| && n <= |t|
    requires forall i :: 0 <= i < n ==> s[i] == t[i]
    ensures PVal(s, n) == PVal(t, n)
  {
    if n > 0 { PValExt(s, t, n - 1); }
  }

  // Changing one limb changes the sum by the weighted difference.
  lemma {:induction false} PValUpdate(s: seq<int64>, k: nat, v: int64, n: nat)
    requires n <= |s| && k < |s|
    ensures PVal(s[k := v], n) == PVal(s, n) + (if k < n then (v as int - s[k] as int) * W(k) else 0)
  {
    if n > 0 {
      PValUpdate(s, k, v, n - 1);
      if k == n - 1 {
        assert v as int * W(k) == s[k] as int * W(k) + (v as int - s[k] as int) * W(k);
      }
    }
  }

  lemma {:induction false} PValAdd(s: seq<int64>, a: seq<int64>, b: seq<int64>, sign: int, n: nat)
    requires n <= |s| && n <= |a| && n <= |b|
    requires sign == 1 || sign == -1
    requires forall i :: 0 <= i < n ==> s[i] as int == a[i] as int + sign * b[i] as int
    ensures PVal(s, n) == PVal(a, n) + sign * PVal(b, n)
  {
    if n > 0 {
      PValAdd(s, a, b, sign, n - 1);
      var w, x, y := W(n - 1), a[n - 1] as int, b[n - 1] as int;
      assert (x + sign * y) * w == x * w + sign * (y * w);
    }
  }

  lemma {:induction false} PValSplit(s: seq<int64>, m: nat, n: nat)
    requires m + n <= |s|
    ensures PVal(s, m + n) == PVal(s, m) + W(m) * PVal(s[m..], n)
  {
    if n > 0 {
      PValSplit(s, m, n - 1);
      WAdd(m, n - 1);
      var x, w, v := s[m + n - 1] as int, W(n - 1), PVal(s[m..], n - 1);
      assert m + n - 1 == m + (n - 1);
      assert PVal(s, m + n) == PVal(s, m + (n - 1)) + x * (W(m) * w);
      assert PVal(s[m..], n) == v + x * w;
      Regroup(W(m), v, x, w);
    }
  }

  lemma Regroup(m: int, v: int, x: int, w: int)
    ensures m * v + x * (m * w) == m * (v + x * w)
  {}

  lemma WNext(i: nat)
    ensures W(i + 1) == 0x10000 * W(i)
  {}

  lemma WValues()
    ensures W(0) == 1 && W(1) == 0x10000 && W(15) * 0x10000 == W(16) == 2 * P + 38
  {
    assert W(1) == 0x10000 && W(2) == 0x1_0000_0000 && W(4) == 0x1_0000_0000_0000_0000 by {
      assert W(3) == 0x10000 * W(2);
    }
    WAdd(4, 4);
    WAdd(8, 8);
    assert W(8) == 0x1_00000000_00000000_00000000_00000000;
  }

  // ---- Conditional swap ----

  method FeCswap(a: array<int64>, b: array<int64>, swap: int64)
    requires a.Length == b.Length == 16 && a != b
    requires swap == 0 || swap == 1
    modifies a, b
    ensures swap == 0 ==> a[..] == old(a[..]) && b[..] == old(b[..])
    ensures swap == 1 ==> a[..] == old(b[..]) && b[..] == old(a[..])
  {
    hide Xor64, And64;
    var mask: int64 := -(swap - 1) - 1;
    for i := 0 to 16
      invariant forall k :: 0 <= k < 16 ==> a[k] == if k < i && swap == 1 then old(b[k]) else old(a[k])
      invariant forall k :: 0 <= k < 16 ==> b[k] == if k < i && swap == 1 then old(a[k]) else old(b[k])
    {
      var x, y := a[i], b[i];
      XorSwap(mask, x, y);
      var t := And64(mask, Xor64(x, y));
      a[i] := Xor64(a[i], t);
      b[i] := Xor64(b[i], t);
    }
  }

  lemma Fits64(x: int)
    ensures Bits.Fits(x, 63) <==> -0x8000_0000_0000_0000 <= x < 0x8000_0000_0000_0000
  {
    Bits.FitsRange(x, 63);
    Bits.Pow2Values();
  }

  function Xor64(x: int64, y: int64): int64 {
    Bits.XorFits(x as int, y as int, 63);
    Fits64(Bits.Xor(x as int, y as int, 63));
    Bits.Xor(x as int, y as int, 63) as int64
  }

  function And64(x: int64, y: int64): int64 {
    Bits.AndFits(x as int, y as int, 63);
    Fits64(Bits.And(x as int, y as int, 63));
    Bits.And(x as int, y as int, 63) as int64
  }

  // The masked xor swap exchanges two words under an all-ones mask and leaves
  // them alone under a zero mask.
  lemma XorSwap(mask: int64, x: int64, y: int64)
    requires mask == 0 || mask == -1
    ensures var t := And64(mask, Xor64(x, y));
            Xor64(x, t) == (if mask == 0 then x else y) && Xor64(y, t) == (if mask == 0 then y else x)
  {
    var d := Xor64(x, y);
    Fits64(x as int);
    Fits64(y as int);
    Fits64(d as int);
    Bits.AndMask(d as int, 63);
    Bits.XorZero(x as int, 63);
    Bits.XorZero(y as int, 63);
    Bits.XorCancels(x as int, y as int, 63);
    Bits.XorCancels(y as int, x as int, 63);
    Bits.XorCommutes(x as int, y as int, 63);
  }

  // ---- Carry propagation ----

  // One iteration of the carry loop.
  method CarryLimb(o: array<int64>, i: nat) returns (ghost top: int)
    requires o.Length == 16 && i < 16
    requires -0x20_0000_0000_0000 <= o[i] <= 0x20_0000_0000_0000
    requires -0x20_0000_0000_0000 <= o[if i < 15 then i + 1 else 0] <= 0x20_0000_0000_0000
    modifies o
    ensures top == old(o[i]) as int / 0x10000
    ensures o[i] as int == old(o[i]) as int - 0x10000 * top && 0 <= o[i] < 0x10000
    ensures i < 15 ==> o[i + 1] as int == old(o[i + 1]) as int + top
    ensures i == 15 ==> o[0] as int == old(o[0]) as int + 38 * top
    ensures forall k :: 0 <= k < 16 && k != i && k != (if i < 15 then i + 1 else 0) ==> o[k] == old(o[k])
  {
    top := o[i] as int / 0x10000;
    o[i] := o[i] + 0x10000;
    var c := o[i] / 0x10000;
    var next := if i < 15 then i + 1 else 0;
    o[next] := o[next] + (c - 1) + 37 * (c - 1) * (if i == 15 then 1 else 0);
    o[i] := o[i] - c * 0x10000;
  }

  method FeCarry(o: array<int64>)
    requires o.Length == 16 && Within(o[..], 0x10_0000_0000_0000)
    modifies o
    ensures Fe(o[..]) == old(Fe(o[..]))
    ensures Carried(o[..])
    ensures Carried(old(o[..])) ==> Reduced(o[..])
    ensures Reduced(old(o[..])) ==> Canonical(o[..])
  {
    hide PVal, W, Fe, Val;
    ghost var was := o[..];
    ghost var first, top := 0, 0;
    WValues();
    for i := 0 to 16
      invariant forall k :: 0 <= k < i && (k > 0 || i < 16) ==> 0 <= o[k] < 0x10000
      invariant forall k :: i < k < 16 ==> o[k] == was[k]
      invariant i == 0 ==> o[..] == was
      invariant 0 < i < 16 ==> o[i] as int == was[i] as int + top
      invariant -0x11_0000_0000 <= top <= 0x11_0000_0000
      invariant i > 0 ==> first == was[0] as int / 0x10000
      invariant i == 1 ==> top == first
      invariant 0 < i < 16 ==> o[0] as int == was[0] as int - first * 0x10000
      invariant i > 1 && Carried(was) ==> -0x401 <= top <= 0x401
      invariant i > 2 && Carried(was) ==> -1 <= top <= 1
      invariant i > 0 && Reduced(was) ==> -1 <= top <= 1 && (top == 1 ==> first == 1) && (top == -1 ==> first == -1)
      invariant i < 16 ==> Val(o[..]) == Val(was)
      invariant i == 16 ==> o[0] as int == was[0] as int - first * 0x10000 + 38 * top
      invariant i == 16 ==> Val(o[..]) == Val(was) - top * (2 * P)
    {
      ghost var before := o[..];
      top := CarryLimb(o, i);
      if i == 0 { first := top; }
      CarryValue(before, o[..], i, top);
    }
    FeShift(was, o[..], top);
  }

  lemma FeShift(s: seq<int64>, t: seq<int64>, top: int)
    requires Val(t) == Val(s) - top * (2 * P)
    ensures Fe(t) == Fe(s)
  {
    ModShift(Val(s), -2 * top, P);
    assert Val(s) + (-2 * top) * P == Val(s) - top * (2 * P);
  }

  // One carry moves top from limb i to its neighbour; out of limb 15 it is
  // folded back into limb 0 with weight 2^256 - 2p = 38.
  lemma CarryValue(s: seq<int64>, t: seq<int64>, i: nat, top: int)
    requires |s| == |t| == 16 && i < 16
    requires forall k :: 0 <= k < 16 && k != i && k != (if i < 15 then i + 1 else 0) ==> t[k] == s[k]
    requires t[i] as int == s[i] as int - 0x10000 * top
    requires i < 15 ==> t[i + 1] as int == s[i + 1] as int + top
    requires i == 15 ==> t[0] as int == s[0] as int + 38 * top
    ensures Val(t) == Val(s) - (if i < 15 then 0 else top * (2 * P))
  {
    var next := if i < 15 then i + 1 else 0;
    var u := s[i := t[i]];
    assert t == u[next := t[next]];
    PValUpdate(s, i, t[i], 16);
    PValUpdate(u, next, t[next], 16);
    WValues();
    WNext(i);
    hide PVal, W;
    CarryArith(W(i), top);
    Scale(top, 2 * P);
  }

  lemma CarryArith(w: int, top: int)
    ensures (-0x10000 * top) * w == -(top * (0x10000 * w))
  {}

  lemma Scale(top: int, q: int)
    ensures top * (q + 38) == top * q + 38 * top
  {}

  // ---- Addition, subtraction, multiplication ----

  lemma LooseSum(x: seq<int64>, a: seq<int64>, b: seq<int64>, sign: int)
    requires Reduced(a) && Reduced(b) && |x| == 16
    requires sign == 1 || sign == -1
    requires forall i :: 0 <= i < 16 ==> x[i] as int == a[i] as int + sign * b[i] as int
    ensures Loose(x)
    ensures Fe(x) == (Fe(a) + sign * Fe(b)) % P
  {
    PValAdd(x, a, b, sign, 16);
    ModAdd(Val(a), Val(b), P);
    ModSub(Val(a), Val(b), P);
  }

  method FeCopy(r: array<int64>, a: array<int64>)
    requires r.Length == a.Length == 16
    modifies r
    ensures r[..] == old(a[..])
  {
    for i := 0 to 16
      invariant forall k :: 0 <= k < 16 ==> r[k] == if k < i then old(a[k]) else old(r[k])
      invariant forall k :: i <= k < 16 ==> a[k] == old(a[k])
    {
      r[i] := a[i];
    }
  }

  method FeAdd(o: array<int64>, a: array<int64>, b: array<int64>)
    requires o.Length == 16 && Reduced(a[..]) && Reduced(b[..])
    modifies o
    ensures Loose(o[..])
    ensures Fe(o[..]) == FAdd(old(Fe(a[..])), old(Fe(b[..])))
  {
    for i := 0 to 16
      invariant forall k :: 0 <= k < i ==> o[k] as int == old(a[k]) as int + old(b[k]) as int
      invariant forall k :: i <= k < 16 ==> a[k] == old(a[k]) && b[k] == old(b[k])
    {
      o[i] := a[i] + b[i];
    }
    LooseSum(o[..], old(a[..]), old(b[..]), 1);
  }

  method FeSub(o: array<int64>, a: array<int64>, b: array<int64>)
    requires o.Length == 16 && Reduced(a[..]) && Reduced(b[..])
    modifies o
    ensures Loose(o[..])
    ensures Fe(o[..]) == FSub(old(Fe(a[..])), old(Fe(b[..])))
  {
    for i := 0 to 16
      invariant forall k :: 0 <= k < i ==> o[k] as int == old(a[k]) as int - old(b[k]) as int
      invariant forall k :: i <= k < 16 ==> a[k] == old(a[k]) && b[k] == old(b[k])
    {
      o[i] := a[i] - b[i];
    }
    LooseSum(o[..], old(a[..]), old(b[..]), -1);
  }

  lemma ProductBound(x: int, y: int, m: int)
    requires -m <= x <= m && -m <= y <= m
    ensures -(m * m) <= x * y <= m * m
  {
    assert 0 <= (m - x) * (m + y) == m * m + m * y - x * m - x * y;
    assert 0 <= (m + x) * (m - y) == m * m - m * y + x * m - x * y;
    assert 0 <= (m - x) * (m - y) == m * m - m * y - x * m + x * y;
    assert 0 <= (m + x) * (m + y) == m * m + m * y + x * m + x * y;
  }

  // One row of the schoolbook product: t += a[i] * 2^(16 i) * b.
  method AddRow(t: array<int64>, a: array<int64>, b: array<int64>, i: nat)
    requires t.Length == 31 && i < 16 && t != a && t != b
    requires Loose(a[..]) && Loose(b[..]) && Within(t[..], i * 0x10_0000_0000)
    modifies t
    ensures Within(t[..], (i + 1) * 0x10_0000_0000)
    ensures PVal(t[..], 31) == old(PVal(t[..], 31)) + a[i] as int * W(i) * Val(b[..])
  {
    hide PVal, W;
    ghost var row := t[..];
    PValStart(b[..]);
    for j := 0 to 16
      invariant a[..] == old(a[..]) && b[..] == old(b[..])
      invariant forall k :: 0 <= k < 31 && (k < i || i + j <= k) ==> t[k] == row[k]
      invariant forall k :: i <= k < i + j ==>
        -(i as int + 1) * 0x10_0000_0000 <= t[k] as int <= (i as int + 1) * 0x10_0000_0000
      invariant PVal(t[..], 31) == PVal(row, 31) + a[i] as int * W(i) * PVal(b[..], j)
    {
      ghost var before := t[..];
      ProductBound(a[..][i] as int, b[..][j] as int, 0x40000);
      assert before[i + j] == row[i + j];
      t[i + j] := t[i + j] + a[i] * b[j];
      assert t[..] == before[i + j := t[i + j]];
      RowValue(before, t[..], b[..], i, j, a[i]);
    }
  }

  lemma RowValue(s: seq<int64>, t: seq<int64>, b: seq<int64>, i: nat, j: nat, x: int64)
    requires |s| == |t| == 31 && |b| == 16 && i < 16 && j < 16
    requires t == s[i + j := t[i + j]] && t[i + j] as int == s[i + j] as int + x as int * b[j] as int
    ensures PVal(t, 31) - x as int * W(i) * PVal(b, j + 1) == PVal(s, 31) - x as int * W(i) * PVal(b, j)
  {
    PValUpdate(s, i + j, t[i + j], 31);
    PValNext(b, j);
    WAdd(i, j);
    hide PVal, W;
    ColumnStep(x as int, W(i), PVal(b, j), b[j] as int, W(j));
  }

  // Schoolbook product of two limb vectors: 31 columns.
  method Columns(a: array<int64>, b: array<int64>) returns (t: array<int64>)
    requires Loose(a[..]) && Loose(b[..])
    ensures fresh(t) && t.Length == 31
    ensures Within(t[..], 0x100_0000_0000)
    ensures PVal(t[..], 31) == Val(a[..]) * Val(b[..])
  {
    hide PVal, W;
    t := new int64[31];
    for i := 0 to 31
      invariant forall k :: 0 <= k < i ==> t[k] == 0
    {
      t[i] := 0;
    }
    PValZero(t[..], 31);
    PValStart(a[..]);
    for i := 0 to 16
      invariant Within(t[..], i * 0x10_0000_0000)
      invariant PVal(t[..], 31) == PVal(a[..], i) * Val(b[..])
    {
      AddRow(t, a, b, i);
      PValNext(a[..], i);
      RowStep(PVal(a[..], i), a[i] as int, W(i), Val(b[..]));
    }
  }

  lemma {:induction false} PValZero(s: seq<int64>, n: nat)
    requires n <= |s| && forall i :: 0 <= i < n ==> s[i] == 0
    ensures PVal(s, n) == 0
  {
    if n > 0 { PValZero(s, n - 1); }
  }

  lemma PValStart(s: seq<int64>)
    ensures PVal(s, 0) == 0
  {}

  lemma PValNext(s: seq<int64>, n: nat)
    requires n < |s|
    ensures PVal(s, n + 1) == PVal(s, n) + s[n] as int * W(n)
  {}

  lemma ColumnStep(x: int, w: int, v: int, y: int, w': int)
    ensures x * w * v + (x * y) * (w * w') == x * w * (v + y * w')
  {
    assert (x * y) * (w * w') == (x * w) * (y * w');
  }

  lemma RowStep(u: int, x: int, w: int, v: int)
    ensures u * v + x * w * v == (u + x * w) * v
  {}

  lemma {:induction false} FoldValue(t: seq<int64>, u: seq<int64>, n: nat)
    requires |t| == |u| == 31 && n <= 15
    requires forall k :: 0 <= k < 15 ==> u[k] as int == t[k] as int + 38 * t[k + 16] as int
    ensures PVal(u, n) == PVal(t, n) + 38 * PVal(t[16..], n)
  {
    if n > 0 {
      FoldValue(t, u, n - 1);
      var x, y, w := t[n - 1] as int, t[n + 15] as int, W(n - 1);
      assert t[16..][n - 1] == t[n + 15];
      assert (x + 38 * y) * w == x * w + 38 * (y * w);
    }
  }

  // Folding the high columns preserves the value modulo p, as 2^256 = 2p + 38.
  lemma FoldMod(t: seq<int64>, u: seq<int64>)
    requires |t| == |u| == 31
    requires forall k :: 0 <= k < 15 ==> u[k] as int == t[k] as int + 38 * t[k + 16] as int
    requires u[15] == t[15]
    ensures PVal(u, 16) % P == PVal(t, 31) % P
  {
    var h := PVal(t[16..], 15);
    FoldValue(t, u, 15);
    PValNext(u, 15);
    PValNext(t, 15);
    PValSplit(t, 16, 15);
    WValues();
    FoldScale(PVal(t, 16), h);
    ModShift(PVal(t, 31), -2 * h, P);
  }

  lemma FoldScale(l: int, h: int)
    ensures l + 38 * h == l + (2 * P + 38) * h + (-2 * h) * P
  {}

  lemma MulMod(a: seq<int64>, b: seq<int64>, t: seq<int64>, u: seq<int64>, o: seq<int64>)
    requires |t| == |u| == 31 && |o| == 16
    requires PVal(t, 31) == Val(a) * Val(b)
    requires forall k :: 0 <= k < 15 ==> u[k] as int == t[k] as int + 38 * t[k + 16] as int
    requires u[15] == t[15]
    requires forall k :: 0 <= k < 16 ==> o[k] == u[k]
    ensures Fe(o) == FMul(Fe(a), Fe(b))
  {
    FoldMod(t, u);
    PValExt(u, o, 16);
    ModMul(Val(a), Val(b), P);
  }

  // Fold the high half onto the low half: 2^256 = 38 modulo p.
  method FoldHigh(t: array<int64>)
    requires t.Length == 31 && Within(t[..], 0x100_0000_0000)
    modifies t
    ensures Within(t[..], 0x4000_0000_0000)
    ensures forall k :: 0 <= k < 15 ==> t[k] as int == old(t[k]) as int + 38 * old(t[k + 16]) as int
    ensures forall k :: 15 <= k < 31 ==> t[k] == old(t[k])
  {
    for i := 0 to 15
      invariant forall k :: 0 <= k < i ==> t[k] as int == old(t[k]) as int + 38 * old(t[k + 16]) as int
      invariant forall k :: i <= k < 31 ==> t[k] == old(t[k])
    {
      t[i] := t[i] + 38 * t[i + 16];
    }
  }

  method FeMul(o: array<int64>, a: array<int64>, b: array<int64>)
    requires o.Length == 16 && Loose(a[..]) && Loose(b[..])
    modifies o
    ensures Reduced(o[..])
    ensures Fe(o[..]) == FMul(old(Fe(a[..])), old(Fe(b[..])))
  {
    hide PVal, W, Fe, Val, FMul;
    var t := Columns(a, b);
    ghost var cols := t[..];
    FoldHigh(t);
    ghost var folded := t[..];
    for i := 0 to 16
      invariant t[..] == folded
      invariant forall k :: 0 <= k < i ==> o[k] == t[k]
    {
      o[i] := t[i];
    }
    MulMod(old(a[..]), old(b[..]), cols, t[..], o[..]);
    FeCarry(o);
    FeCarry(o);
  }

  method FeSq(o: array<int64>, a: array<int64>)
    requires o.Length == 16 && Loose(a[..])
    modifies o
    ensures Reduced(o[..])
    ensures Fe(o[..]) == FMul(old(Fe(a[..])), old(Fe(a[..])))
  {
    FeMul(o, a, a);
  }

  // ---- Inversion by exponentiation ----

  // The exponent reached by square-and-multiply after rounds 253 down to i.
  function InvExponent(i: nat): nat
    requires i <= 254
    decreases 254 - i
  {
    if i == 254 then 1
    else 2 * InvExponent(i + 1) + (if i == 2 || i == 4 then 0 else 1)
  }

  lemma {:induction false} InvExponentRun(i: nat)
    requires 5 <= i <= 254
    ensures InvExponent(i) == Pow(2, 255 - i) - 1
    decreases 254 - i
  {
    if i < 254 {
      InvExponentRun(i + 1);
      assert Pow(2, 255 - i) == 2 * Pow(2, 254 - i);
    } else {
      assert Pow(2, 1) == 2 * Pow(2, 0);
    }
  }

  lemma Pow2Of64()
    ensures Pow(2, 64) == 0x1_0000_0000_0000_0000 && Pow(2, 26) == 0x400_0000 && Pow(2, 32) == 0x1_0000_0000
  {
    assert Pow(2, 2) == 4 by { assert Pow(2, 1) == 2; }
    PowAdd(2, 2, 2);
    PowAdd(2, 4, 4);
    PowAdd(2, 8, 8);
    PowAdd(2, 16, 16);
    PowAdd(2, 32, 32);
    PowAdd(2, 16, 8);
    PowAdd(2, 24, 2);
  }

  lemma Pow250()
    ensures 32 * Pow(2, 250) == P + 19
  {
    hide Pow;
    Pow2Of64();
    PowAdd(2, 64, 64);
    PowAdd(2, 128, 64);
    PowAdd(2, 192, 32);
    PowAdd(2, 224, 26);
  }

  // The square-and-multiply schedule computes exactly the exponent p - 2.
  lemma InvExponentIsPMinus2()
    ensures InvExponent(0) == P - 2
  {
    InvExponentRun(5);
    Pow250();
    assert InvExponent(3) == 2 * InvExponent(4) + 1;
    assert InvExponent(1) == 2 * InvExponent(2) + 1;
  }

  method FeInv(o: array<int64>, a: array<int64>)
    requires o.Length == 16 && Loose(a[..])
    modifies o
    ensures Loose(o[..])
    ensures Fe(o[..]) == Pow(old(Fe(a[..])), P - 2) % P
  {
    ghost var x := Fe(a[..]);
    var c := new int64[16];
    FeCopy(c, a);
    assert Pow(x, 1) % P == x by {
      assert Pow(x, 1) == x * Pow(x, 0);
      ModIdem(Val(a[..]), P);
    }
    hide PVal, W, Fe, Pow;
    for i := 254 downto 0
      invariant a[..] == old(a[..])
      invariant Loose(c[..])
      invariant Fe(c[..]) == Pow(x, InvExponent(i)) % P
    {
      ghost var e := InvExponent(i + 1);
      assert FMul(Pow(x, e) % P, Pow(x, e) % P) == Pow(x, 2 * e) % P &&
             FMul(Pow(x, 2 * e) % P, x) == Pow(x, 2 * e + 1) % P by { SquareAndMultiply(x, e, P); }
      FeSq(c, c);
      ReducedIsLoose(c[..]);
      if i != 2 && i != 4 {
        FeMul(c, c, a);
        ReducedIsLoose(c[..]);
      }
    }
    FeCopy(o, c);
    InvExponentIsPMinus2();
  }

  lemma ReducedIsLoose(s: seq<int64>)
    requires Reduced(s)
    ensures Loose(s)
  {}

  // ---- Byte strings ----

  function BW(i: nat): int {
    if i == 0 then 1 else 0x100 * BW(i - 1)
  }

  // Little-endian value of the first n bytes.
  function BVal(s: seq<byte>, n: nat): int
    requires n <= |s|
  {
    if n == 0 then 0 else BVal(s, n - 1) + s[n - 1] as int * BW(n - 1)
  }

  lemma {:induction false} BWValue(i: nat)
    ensures BW(2 * i) == W(i) && BW(2 * i + 1) == 0x100 * W(i)
  {
    if i > 0 {
      BWValue(i - 1);
      assert BW(2 * i) == 0x100 * BW(2 * i - 1);
    }
  }

  // Two bytes to the limb.
  lemma {:induction false} BytePairs(s: seq<int64>, b: seq<byte>, n: nat)
    requires n <= |s| && 2 * n <= |b|
    requires forall i :: 0 <= i < n ==> s[i] as int == b[2 * i] as int + 0x100 * b[2 * i + 1] as int
    ensures PVal(s, n) == BVal(b, 2 * n)
  {
    if n > 0 {
      BytePairs(s, b, n - 1);
      BWValue(n - 1);
      var x, y, w := b[2 * n - 2] as int, b[2 * n - 1] as int, W(n - 1);
      assert BVal(b, 2 * n - 1) == BVal(b, 2 * n - 2) + x * w;
      assert (x + 0x100 * y) * w == x * w + y * (0x100 * w);
    }
  }

  lemma {:induction false} CanonicalRange(s: seq<int64>, n: nat)
    requires n <= |s| && forall i :: 0 <= i < n ==> 0 <= s[i] < 0x10000
    ensures 0 <= PVal(s, n) < W(n)
  {
    if n > 0 {
      CanonicalRange(s, n - 1);
      MulLe(s[n - 1] as int, 0xffff, W(n - 1));
      MulLe(0, s[n - 1] as int, W(n - 1));
    }
  }

  method FeUnpack(o: array<int64>, n: array<byte>)
    requires o.Length == 16 && n.Length == 32
    modifies o
    ensures Canonical(o[..])
    ensures Val(o[..]) == BVal(n[..], 32) % (P + 19)
  {
    hide PVal, W, BVal, BW;
    for i := 0 to 16
      invariant forall k :: 0 <= k < i ==> o[k] as int == n[2 * k] as int + 0x100 * n[2 * k + 1] as int
    {
      o[i] := n[2 * i] as int64 + n[2 * i + 1] as int64 * 0x100;
    }
    ghost var all := o[..];
    BytePairs(all, n[..], 16);
    o[15] := o[15] % 0x8000;
    assert o[..] == all[15 := o[15]];
    TopBit(all, o[..]);
  }

  // Clearing the top bit of a 256-bit value reduces it modulo 2^255 = p + 19.
  lemma TopBit(s: seq<int64>, t: seq<int64>)
    requires |s| == 16 && Canonical(s) && t == s[15 := s[15] % 0x8000]
    ensures Val(t) == Val(s) % (P + 19)
  {
    PValUpdate(s, 15, t[15], 16);
    PValNext(t, 15);
    CanonicalRange(t, 15);
    WValues();
    hide PVal, W;
    var q, w := s[15] as int / 0x8000, W(15);
    assert t[15] as int == s[15] as int - 0x8000 * q;
    TopArith(q, t[15] as int, w);
    DivModUnique(Val(s), q, Val(t), P + 19);
  }

  lemma TopArith(q: int, x: int, w: int)
    requires w >= 0 && 0 <= x <= 0x7fff
    ensures (-0x8000 * q) * w == -(q * (0x8000 * w))
    ensures 0 <= x * w <= 0x8000 * w - w
  {
    MulLe(x, 0x7fff, w);
    MulLe(0, x, w);
  }

  // ---- Canonical encoding ----

  // The limbs of p.
  function PLimb(i: nat): int {
    if i == 0 then 0xffed else if i < 15 then 0xffff else 0x7fff
  }

  function PLimbs(n: nat): int {
    if n == 0 then 0 else PLimbs(n - 1) + PLimb(n - 1) * W(n - 1)
  }

  lemma {:induction false} PLimbsRun(n: nat)
    requires 1 <= n <= 15
    ensures PLimbs(n) == W(n) - 19
  {
    if n == 1 {
      assert PLimbs(1) == PLimbs(0) + 0xffed * W(0);
    } else {
      PLimbsRun(n - 1);
    }
  }

  lemma PLimbsAreP()
    ensures PLimbs(16) == P
  {
    PLimbsRun(15);
    WValues();
  }

  lemma BorrowStep(m: seq<int64>, m': seq<int64>, t: seq<int64>, i: nat, borrow: int)
    requires |m| == |m'| == |t| == 16 && 1 <= i < 16
    requires PVal(m, i) == PVal(t, i) - PLimbs(i)
    requires m'[i - 1] as int == m[i - 1] as int + 0x10000 * borrow
    requires m'[i] as int == t[i] as int - PLimb(i) - borrow
    requires forall k :: 0 <= k < i - 1 ==> m'[k] == m[k]
    ensures PVal(m', i + 1) == PVal(t, i + 1) - PLimbs(i + 1)
  {
    PValExt(m, m', i - 1);
    var w := W(i - 1);
    assert (m[i - 1] as int + 0x10000 * borrow) * w == m[i - 1] as int * w + borrow * (0x10000 * w);
    BorrowScale(t[i] as int, PLimb(i), borrow, W(i));
  }

  lemma BorrowScale(x: int, p: int, b: int, w: int)
    ensures (x - p - b) * w == x * w - p * w - b * w
  {}

  lemma SignOfTop(low: int, x: int, w: int)
    requires 0 <= low < w
    ensures low + x * w < 0 <==> x < 0
  {
    if x < 0 { MulLe(x, -1, w); } else { MulLe(0, x, w); }
  }

  // The final borrow is the sign of t - p.
  lemma BorrowFinish(m: seq<int64>, m': seq<int64>, t: seq<int64>, borrow: int)
    requires |m| == |m'| == |t| == 16
    requires PVal(m, 15) == PVal(t, 15) - PLimbs(15)
    requires m'[14] as int == m[14] as int + 0x10000 * borrow
    requires m'[15] as int == t[15] as int - 0x7fff - borrow
    requires forall k :: 0 <= k < 14 ==> m'[k] == m[k]
    requires forall k :: 0 <= k < 15 ==> 0 <= m'[k] < 0x10000
    ensures Val(m') == Val(t) - P
    ensures m'[15] < 0 <==> Val(t) < P
  {
    hide PVal, W, PLimbs;
    BorrowStep(m, m', t, 15, borrow);
    PLimbsAreP();
    CanonicalRange(m', 15);
    PValNext(m', 15);
    SignOfTop(PVal(m', 15), m'[15] as int, W(15));
  }

  // The borrow out of a limb difference: bit 16 of its two's complement.
  function Borrow(x: int64): (b: int64)
    ensures b == 0 || b == 1
    ensures -0x10000 <= x < 0x10000 ==> 0 <= x % 0x10000 < 0x10000 && (b == 1 <==> x < 0)
    ensures -0x10000 <= x < 0x10000 ==> (x % 0x10000) as int == x as int + 0x10000 * b as int
  {
    (x / 0x10000) % 2
  }

  lemma BorrowStart(m: seq<int64>, t: seq<int64>)
    requires |m| == |t| == 16 && m[0] as int == t[0] as int - 0xffed
    ensures PVal(m, 1) == PVal(t, 1) - PLimbs(1)
  {
    assert PVal(m, 0) == PVal(t, 0) == PLimbs(0) == 0 && W(0) == 1;
  }

  // m := t - p by borrow propagation; the result is the final borrow.
  method SubtractP(m: array<int64>, t: array<int64>) returns (b: int64)
    requires m.Length == t.Length == 16 && m != t && Canonical(t[..])
    modifies m
    ensures b == 0 || b == 1
    ensures b == 1 <==> Val(t[..]) < P
    ensures b == 0 ==> Canonical(m[..]) && Val(m[..]) == Val(t[..]) - P
  {
    hide PVal, W, PLimbs, Val, Borrow;
    m[0] := t[0] - 0xffed;
    BorrowStart(m[..], t[..]);
    for i := 1 to 15
      invariant forall k :: 0 <= k < i - 1 ==> 0 <= m[k] < 0x10000
      invariant -0x10000 <= m[i - 1] < 0x10000
      invariant PVal(m[..], i) == PVal(t[..], i) - PLimbs(i)
    {
      ghost var before := m[..];
      m[i] := t[i] - 0xffff - Borrow(m[i - 1]);
      m[i - 1] := m[i - 1] % 0x10000;
      BorrowStep(before, m[..], t[..], i, Borrow(before[i - 1]) as int);
    }
    ghost var before := m[..];
    m[15] := t[15] - 0x7fff - Borrow(m[14]);
    b := Borrow(m[15]);
    m[14] := m[14] % 0x10000;
    BorrowFinish(before, m[..], t[..], Borrow(before[14]) as int);
  }

  // Replacing t by t - p when t >= p tightens the bound by p.
  lemma PackRound(v: int, v': int, j: nat)
    requires j < 2
    requires 0 <= v < (if j == 0 then 2 * P + 38 else P + 38)
    requires v' == if v < P then v else v - P
    ensures v' % P == v % P
    ensures 0 <= v' < (if j == 0 then P + 38 else P)
  {
    ModShift(v, -1, P);
  }

  // Fully reduce t, whose limbs are canonical, with two conditional
  // subtractions of p.
  method Freeze(t: array<int64>)
    requires t.Length == 16 && Canonical(t[..])
    modifies t
    ensures Canonical(t[..]) && Val(t[..]) == old(Fe(t[..]))
  {
    CanonicalRange(t[..], 16);
    WValues();
    hide PVal, W, Val;
    var m := new int64[16];
    for j := 0 to 2
      invariant Canonical(t[..])
      invariant Fe(t[..]) == old(Fe(t[..]))
      invariant 0 <= Val(t[..]) < (if j == 0 then 2 * P + 38 else if j == 1 then P + 38 else P)
    {
      ghost var v := t[..];
      var b := SubtractP(m, t);
      FeCswap(t, m, 1 - b);
      PackRound(Val(v), Val(t[..]), j);
    }
  }

  // Serialize canonical limbs, low byte first.
  method WriteBytes(o: array<byte>, t: array<int64>)
    requires o.Length == 32 && t.Length == 16 && Canonical(t[..])
    modifies o
    ensures BVal(o[..], 32) == Val(t[..])
  {
    hide PVal, BVal;
    for i := 0 to 16
      invariant forall k :: 0 <= k < i ==> t[k] as int == o[2 * k] as int + 0x100 * o[2 * k + 1] as int
    {
      o[2 * i] := (t[i] % 0x100) as byte;
      o[2 * i + 1] := ((t[i] / 0x100) % 0x100) as byte;
    }
    BytePairs(t[..], o[..], 16);
  }

  method FePack(o: array<byte>, n: array<int64>)
    requires o.Length == 32 && n.Length == 16 && Within(n[..], 0x10_0000_0000_0000)
    modifies o
    ensures BVal(o[..], 32) == Fe(n[..])
  {
    hide PVal, BVal, Fe;
    var t := new int64[16];
    FeCopy(t, n);
    FeCarry(t);
    FeCarry(t);
    FeCarry(t);
    Freeze(t);
    WriteBytes(o, t);
  }
}
