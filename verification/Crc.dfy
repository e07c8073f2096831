// The table-driven CRC of cksum and the bitwise reflected CRC-32.
module Crc {
  // user/cksum.c:12-45 and kernel/core/kernel.c:3793-3801.  Words are coded as in
  // Gf2, so that exclusive or is Add, and both are remainders modulo one
  // polynomial.

  import opened Words
  import opened Gf2
  import opened ModArith

  const POLY: nat := 0x04C1_1DB7
  const REFLECTED: nat := 0xEDB8_8320
  const W32: nat := 0x1_0000_0000
  const ONES: nat := 0xFFFF_FFFF
  const GENERATOR: nat := 0x1_04C1_1DB7 // x^32 + POLY

  // One most-significant-bit-first step.
  function Step(c: nat): nat {
    if c / 0x8000_0000 % 2 == 1 then Add(2 * c % W32, POLY) else 2 * c % W32
  }

  function Steps(c: nat, k: nat): nat
    decreases k
  {
    if k == 0 then c else Steps(Step(c), k - 1)
  }

  // The definition: bytes enter at the top, eight steps each.
  function Msb(c: nat, s: seq<byte>): nat
    decreases |s|
  {
    if s == [] then c else Steps(Add(Msb(c, s[..|s| - 1]), 0x100_0000 * (s[|s| - 1] as nat)), 8)
  }

  // The message as one polynomial, first byte highest.
  function BigEndian(s: seq<byte>): nat
    decreases |s|
  {
    if s == [] then 0 else 0x100 * BigEndian(s[..|s| - 1]) + s[|s| - 1] as nat
  }

  // ---- Powers of two ----

  lemma TwoValues()
    ensures Two(0) == 1 && Two(8) == 0x100 && Two(24) == 0x100_0000 && Two(31) == 0x8000_0000
    ensures Two(32) == W32 && Two(33) == 2 * W32
  {
    assert Two(8) == 0x100;
    assert Two(16) == 0x1_0000 by { Double8(8); }
    assert Two(24) == 0x100_0000 by { Double8(16); }
    assert Two(32) == W32 by { Double8(24); }
  }

  lemma Double8(n: nat)
    ensures Two(n + 8) == 0x100 * Two(n)
  {
    Double2(n);
    Double2(n + 2);
    Double2(n + 4);
    Double2(n + 6);
  }

  lemma Double2(n: nat)
    ensures Two(n + 2) == 4 * Two(n)
  {
    assert Two(n + 1) == 2 * Two(n);
  }

  lemma CongDouble(a: nat, b: nat, g: nat)
    requires Cong(a, b, g)
    ensures Cong(2 * a, 2 * b, g)
  {
    hide Add, Mul;
    var q: nat :| Add(a, b) == Mul(q, g);
    AddDouble(a, b);
    MulDouble(q, g);
    CongBy(2 * a, 2 * b, g, 2 * q);
  }

  lemma {:induction false} CongShift(a: nat, b: nat, g: nat, k: nat)
    requires Cong(a, b, g)
    ensures Cong(Two(k) * a, Two(k) * b, g)
    decreases k
  {
    hide Cong;
    if k > 0 {
      var t := Two(k - 1);
      assert Two(k) == 2 * t;
      hide Two;
      CongShift(a, b, g, k - 1);
      CongDouble(t * a, t * b, g);
      Twice(t, a);
      Twice(t, b);
    }
  }

  lemma AddShift(k: nat, a: nat, b: nat)
    ensures Add(Two(k) * a, Two(k) * b) == Two(k) * Add(a, b)
  {
    hide Add, Two;
    AddSplit(k, 0, a, 0, b);
    AddZero(0);
  }

  // ---- One step multiplies by x modulo the generator ----

  lemma StepIs(c: nat)
    requires c < W32
    ensures Step(c) < W32 && Cong(Step(c), 2 * c, GENERATOR)
  {
    TwoValues();
    hide Add, Two, Cong;
    if c >= 0x8000_0000 {
      var low := 2 * c - W32;
      assert 2 * c % W32 == low && c / 0x8000_0000 % 2 == 1;
      AddBelow(32, low, POLY);
      AddZero(1);
      AddSplit(32, Add(low, POLY), 0, low, 1);
      AddCommutes(low, POLY);
      AddAssociates(POLY, low, low);
      AddSelf(low);
      AddZero(POLY);
      MulUnits(GENERATOR);
      CongBy(Step(c), 2 * c, GENERATOR, 1);
    } else {
      assert 2 * c % W32 == 2 * c && c / 0x8000_0000 % 2 == 0;
      CongRefl(2 * c, GENERATOR);
    }
  }

  lemma {:induction false} StepsIs(c: nat, k: nat)
    requires c < W32
    ensures Steps(c, k) < W32 && Cong(Steps(c, k), Two(k) * c, GENERATOR)
    decreases k
  {
    hide Cong, Step;
    if k == 0 {
      CongRefl(c, GENERATOR);
    } else {
      StepIs(c);
      StepsIs(Step(c), k - 1);
      CongShift(Step(c), 2 * c, GENERATOR, k - 1);
      CongTrans(Steps(c, k), Two(k - 1) * Step(c), Two(k - 1) * (2 * c), GENERATOR);
      Twice(Two(k - 1), c);
      Regroup(Two(k - 1), c);
    }
  }

  lemma Regroup(t: nat, c: nat)
    ensures t * (2 * c) == 2 * (t * c)
  {}

  lemma Unique(a: nat, b: nat)
    requires a < W32 && b < W32 && Cong(a, b, GENERATOR)
    ensures a == b
  {
    TwoValues();
    hide Two, Cong;
    CongUnique(a, b, GENERATOR, 32);
  }

  // ---- The CRC is a polynomial remainder ----

  lemma TopByte(c: nat, b: nat)
    requires c < W32 && b < 0x100
    ensures Add(c, 0x100_0000 * b) < W32
  {
    TwoValues();
    hide Add, Two;
    AddBelow(32, c, 0x100_0000 * b);
  }

  // Feeding one byte: multiply by x^8 and add the byte times x^32.
  lemma ByteIs(c: nat, b: nat, p: nat)
    requires c < W32 && b < 0x100 && Cong(c, p, GENERATOR)
    ensures var r := Steps(Add(c, 0x100_0000 * b), 8);
            r < W32 && Cong(r, Add(0x100 * p, W32 * b), GENERATOR)
  {
    hide Add, Two, Cong, Steps;
    var x := Add(c, 0x100_0000 * b);
    TwoValues();
    TopByte(c, b);
    StepsIs(x, 8);
    AddShift(8, c, 0x100_0000 * b);
    CongShift(c, p, GENERATOR, 8);
    CongRefl(W32 * b, GENERATOR);
    CongAdd(0x100 * c, 0x100 * p, W32 * b, W32 * b, GENERATOR);
    CongTrans(Steps(x, 8), 0x100 * x, Add(0x100 * p, W32 * b), GENERATOR);
  }

  // Byte i of the message is digit i of its number, the first byte highest.
  lemma {:induction false} BigEndianAt(s: seq<byte>, i: nat)
    requires i < |s|
    ensures Pow(256, |s| - 1 - i) > 0 && BigEndian(s) / Pow(256, |s| - 1 - i) % 256 == s[i] as nat
    decreases |s|
  {
    PowPos(256, |s| - 1 - i);
    var rest, b := s[..|s| - 1], s[|s| - 1] as nat;
    if i == |s| - 1 {
      DivModUnique(BigEndian(s), BigEndian(s), 0, 1);
    } else {
      BigEndianAt(rest, i);
      PowPos(256, |s| - 2 - i);
      DivDiv(BigEndian(s), 256, Pow(256, |s| - 2 - i));
      assert BigEndian(s) / 256 == BigEndian(rest);
    }
  }

  // The register after the message is the remainder of start * x^(8n) +
  // message * x^32.
  lemma {:induction false} MsbIsRemainder(c: nat, s: seq<byte>)
    requires c < 0x1_0000_0000
    ensures Msb(c, s) < 0x1_0000_0000
    ensures Cong(Msb(c, s), Add(Two(8 * |s|) * c, 0x1_0000_0000 * BigEndian(s)), 0x1_04C1_1DB7)
    decreases |s|
  {
    hide Add, Cong, Steps, Two;
    if s == [] {
      TwoValues();
      AddZero(c);
      CongRefl(c, GENERATOR);
    } else {
      var rest, b := s[..|s| - 1], s[|s| - 1] as nat;
      MsbIsRemainder(c, rest);
      var high, m := Two(8 * |rest|) * c, BigEndian(rest);
      ByteIs(Msb(c, rest), b, Add(high, W32 * m));
      hide Msb, BigEndian;
      NextByte(high, m, b);
      Double8(8 * |rest|);
      assert Two(8 * |s|) * c == 0x100 * high by { Regroup256(Two(8 * |rest|), c); }
    }
  }

  lemma Regroup256(t: nat, c: nat)
    ensures (0x100 * t) * c == 0x100 * (t * c)
  {}

  lemma NextByte(high: nat, m: nat, b: nat)
    requires b < 0x100
    ensures Add(0x100 * Add(high, W32 * m), W32 * b) == Add(0x100 * high, W32 * (0x100 * m + b))
  {
    TwoValues();
    hide Add, Two;
    AddShift(8, high, W32 * m);
    AddAssociates(0x100 * high, 0x100 * (W32 * m), W32 * b);
    AddShift(32, 0x100 * m, b);
    AddSplit(8, 0, m, b, 0);
    AddZero(b);
    AddZero(m);
  }

  // ---- The table ----

  // crc_byte: shift, and look the top byte up.
  function CrcByte(table: seq<uint32>, crc: nat, b: nat): nat
    requires |table| == 256 && crc < W32 && b < 0x100
  {
    Add(0x100 * crc % W32, table[Add(crc / 0x100_0000, b) % 0x100] as nat)
  }

  ghost predicate IsTable(table: seq<uint32>) {
    |table| == 256 && forall n: nat :: n < 256 ==> table[n] as nat == Steps(0x100_0000 * n, 8)
  }

  // One table lookup is eight steps.
  lemma CrcByteIs(table: seq<uint32>, crc: nat, b: nat)
    requires IsTable(table) && crc < W32 && b < 0x100
    ensures CrcByte(table, crc, b) == Steps(Add(crc, 0x100_0000 * b), 8)
  {
    TwoValues();
    hide Add, Two, Cong, Steps;
    var h, l := crc / 0x100_0000, crc % 0x100_0000;
    var k := Add(h, b);
    AddBelow(8, h, b);
    AddZero(l);
    AddSplit(24, l, h, 0, b);
    var x := l + 0x100_0000 * k;
    assert Add(crc, 0x100_0000 * b) == x;
    TopByte(crc, b);
    StepsIs(x, 8);
    StepsIs(0x100_0000 * k, 8);
    LowPart(crc);
    Merge(l, k);
    AddBelow(32, 0x100 * l, Steps(0x100_0000 * k, 8));
    CongRefl(0x100 * l, GENERATOR);
    CongAdd(0x100 * l, 0x100 * l, Steps(0x100_0000 * k, 8), W32 * k, GENERATOR);
    CongSym(Steps(x, 8), 0x100 * x, GENERATOR);
    CongTrans(Add(0x100 * l, Steps(0x100_0000 * k, 8)), 0x100 * x, Steps(x, 8), GENERATOR);
    Unique(Add(0x100 * l, Steps(0x100_0000 * k, 8)), Steps(x, 8));
  }

  lemma LowPart(crc: nat)
    requires crc < W32
    ensures 0x100 * crc % W32 == 0x100 * (crc % 0x100_0000)
  {}

  lemma Merge(l: nat, k: nat)
    requires l < 0x100_0000
    ensures Add(0x100 * l, W32 * k) == 0x100 * (l + 0x100_0000 * k)
  {
    TwoValues();
    hide Add, Two;
    AddSplit(32, 0x100 * l, 0, 0, k);
    AddZero(0x100 * l);
    AddZero(k);
  }

  // ---- Bursts ----

  lemma {:induction false} Unshift(k: nat, x: nat, q: nat, g: nat)
    requires Two(k) * x == Mul(q, g) && g % 2 == 1
    ensures exists q' :: x == Mul(q', g)
    decreases k
  {
    hide Mul;
    if k == 0 {
      assert x == Mul(q, g);
    } else {
      TwoTimes(k, x);
      hide Two;
      HalfMultiple(Two(k - 1) * x, q, g);
      Unshift(k - 1, x, q / 2, g);
    }
  }

  lemma TwoTimes(k: nat, x: nat)
    requires k > 0
    ensures Two(k) * x == 2 * (Two(k - 1) * x) && Two(k - 1) * x >= 0
  {
    Twice(Two(k - 1), x);
  }

  // x divides a multiple of an odd polynomial only with its factor.
  lemma HalfMultiple(y: nat, q: nat, g: nat)
    requires 2 * y == Mul(q, g) && g % 2 == 1
    ensures y == Mul(q / 2, g)
  {
    MulStep(q, g);
    hide Mul, Add;
    var m := Mul(q / 2, g);
    if q % 2 == 1 {
      Odd(Add(g / 2, m), y);
      AddBit(1, g / 2, 0, m);
    } else {
      AddZero(2 * m);
    }
  }

  lemma MulStep(q: nat, g: nat)
    ensures Mul(q, g) == Add(if q % 2 == 1 then g else 0, 2 * Mul(q / 2, g))
  {
    AddZero(0);
  }

  lemma Odd(x: nat, y: nat)
    ensures 1 + 2 * x != 2 * y
  {}

  lemma SameRemainder(high: nat, x: nat, y: nat, r: nat)
    requires Cong(r, Add(high, x), GENERATOR) && Cong(r, Add(high, y), GENERATOR)
    ensures Cong(Add(x, y), 0, GENERATOR)
  {
    hide Add, Cong;
    CongAdd(r, Add(high, x), r, Add(high, y), GENERATOR);
    AddSelf(r);
    AddSwap(high, x, high, y);
    AddSelf(high);
    AddZero(Add(x, y));
    CongSym(0, Add(x, y), GENERATOR);
  }

  lemma EqualRegisters(c: nat, s: seq<byte>, t: seq<byte>)
    requires c < W32 && |s| == |t| && Msb(c, s) == Msb(c, t)
    ensures Cong(W32 * Add(BigEndian(s), BigEndian(t)), 0, GENERATOR)
  {
    hide Add, Msb, BigEndian, Cong, Two;
    MsbIsRemainder(c, s);
    MsbIsRemainder(c, t);
    SameRemainder(Two(8 * |s|) * c, W32 * BigEndian(s), W32 * BigEndian(t), Msb(c, s));
    ShiftSum(BigEndian(s), BigEndian(t));
  }

  lemma ShiftSum(a: nat, b: nat)
    ensures Add(W32 * a, W32 * b) == W32 * Add(a, b)
  {
    TwoValues();
    hide Add, Two;
    AddShift(32, a, b);
  }

  // No burst is a multiple of the generator.
  lemma NoSmallMultiple(k: nat, burst: nat)
    requires 0 < burst < W32
    ensures Two(k) * burst >= 0 && !Cong(W32 * (Two(k) * burst), 0, GENERATOR)
  {
    Twice(Two(k), burst);
    var shifted := Two(k) * burst;
    TwoValues();
    if Cong(W32 * shifted, 0, GENERATOR) {
      hide Add, Two, Mul;
      var q: nat :| Add(W32 * shifted, 0) == Mul(q, GENERATOR);
      AddZero(W32 * shifted);
      Unshift(32, shifted, q, GENERATOR);
      var q1: nat :| shifted == Mul(q1, GENERATOR);
      Unshift(k, burst, q1, GENERATOR);
      var q2: nat :| burst == Mul(q2, GENERATOR);
      ZeroTimes();
      MulDegree(q2, GENERATOR, 32);
    }
  }

  lemma ZeroTimes()
    ensures Mul(0, GENERATOR) == 0
  {}

  // Two messages of one length that differ only within 32 consecutive bits
  // have different checksums, from any start value.
  lemma BurstDetected(c: nat, s: seq<byte>, t: seq<byte>, k: nat, burst: nat)
    requires c < W32 && |s| == |t| && Add(BigEndian(s), BigEndian(t)) == Two(k) * burst && 0 < burst < W32
    ensures Msb(c, s) != Msb(c, t)
  {
    hide Add, Msb, BigEndian, Two, Cong;
    NoSmallMultiple(k, burst);
    if Msb(c, s) == Msb(c, t) {
      EqualRegisters(c, s, t);
    }
  }
}
