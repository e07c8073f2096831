// The two checksum programs as they run, and the relation between them: cksum
// (user/cksum.c:12-45) and crc32_calc (kernel/core/kernel.c:3793-3801).
module Cksum {
  import opened Words
  import opened Gf2
  import opened ModArith
  import opened Crc

  function Xor(a: uint32, b: uint32): (r: uint32) {
    XorFits(a as nat, b as nat);
    Add(a as nat, b as nat) as uint32
  }

  lemma XorFits(a: nat, b: nat)
    requires a < W32 && b < W32
    ensures Add(a, b) < W32
  {
    TwoValues();
    hide Add, Two;
    AddBelow(32, a, b);
  }

  // Truncated to 32 bits, as << does.
  function Shl(c: uint32, k: nat): uint32
    requires k == 1 || k == 8
  {
    ((c as nat * if k == 1 then 2 else 0x100) % W32) as uint32
  }

  function Not(c: nat): nat
    requires c < W32
  {
    ONES - c
  }

  // ---- The table ----

  method CrcInit(table: array<uint32>)
    requires table.Length == 256
    modifies table
    ensures IsTable(table[..])
  {
    hide Steps, Add;
    for n := 0 to 256
      invariant forall m: nat :: m < n ==> table[m] as nat == Steps(0x100_0000 * m, 8)
    {
      table[n] := TableEntry(n);
    }
  }

  method TableEntry(n: nat) returns (c: uint32)
    requires n < 256
    ensures c as nat == Steps(0x100_0000 * n, 8)
  {
    hide Step, Xor;
    c := (0x100_0000 * n) as uint32;
    for k := 0 to 8
      invariant Steps(c as nat, 8 - k) == Steps(0x100_0000 * n, 8)
    {
      StepWord(c);
      c := if c / 0x8000_0000 % 2 == 1 then Xor(Shl(c, 1), 0x04C1_1DB7) else Shl(c, 1);
    }
  }

  lemma StepWord(c: uint32)
    ensures Step(c as nat) == (if c / 0x8000_0000 % 2 == 1 then Xor(Shl(c, 1), 0x04C1_1DB7) else Shl(c, 1)) as nat
  {
    hide Add;
  }

  // ---- cksum ----

  method NextCrc(table: array<uint32>, crc: uint32, b: byte) returns (r: uint32)
    requires table.Length == 256 && IsTable(table[..])
    ensures r as nat == Steps(Add(crc as nat, 0x100_0000 * (b as nat)), 8)
  {
    hide Add, Steps;
    CrcByteIs(table[..], crc as nat, b as nat);
    ByteIndex(crc as nat, b as nat);
    r := Xor(Shl(crc, 8), table[Add((crc / 0x100_0000) as nat, b as nat) % 0x100]);
    hide Xor;
    XorIs(Shl(crc, 8), table[Add((crc / 0x100_0000) as nat, b as nat) % 0x100]);
  }

  lemma XorIs(a: uint32, b: uint32)
    ensures Xor(a, b) as nat == Add(a as nat, b as nat)
  {}

  lemma ByteIndex(c: nat, b: nat)
    requires c < W32 && b < 0x100
    ensures c / 0x100_0000 < 0x100
  {}

  // The length, low-order byte first, without leading zeros.
  function LengthBytes(l: nat): seq<byte> {
    if l == 0 then [] else [(l % 0x100) as byte] + LengthBytes(l / 0x100)
  }

  // Digit i of the length in base 256 is byte i, and the last byte is not zero.
  lemma {:induction false} LengthBytesAre(l: nat)
    ensures Pow(256, |LengthBytes(l)|) > l && (l > 0 ==> |LengthBytes(l)| > 0 && l >= Pow(256, |LengthBytes(l)| - 1))
    ensures forall i :: 0 <= i < |LengthBytes(l)| ==>
              Pow(256, i) > 0 && LengthBytes(l)[i] as nat == l / Pow(256, i) % 256
  {
    if l > 0 {
      var rest := LengthBytes(l / 0x100);
      LengthBytesAre(l / 0x100);
      forall i | 0 <= i < |LengthBytes(l)|
        ensures Pow(256, i) > 0 && LengthBytes(l)[i] as nat == l / Pow(256, i) % 256
      {
        PowPos(256, i);
        if i > 0 { NextDigit(l, i - 1); }
      }
    }
  }

  lemma NextDigit(l: nat, i: nat)
    ensures Pow(256, i) > 0 && Pow(256, i + 1) > 0 && l / Pow(256, i + 1) == l / 256 / Pow(256, i)
  {
    PowPos(256, i);
    DivDiv(l, 256, Pow(256, i));
  }

  lemma {:induction false} MsbAppend(c: nat, s: seq<byte>, t: seq<byte>)
    ensures Msb(c, s + t) == Msb(Msb(c, s), t)
    decreases |t|
  {
    if t == [] {
      assert s + t == s;
    } else {
      MsbAppend(c, s, t[..|t| - 1]);
      assert (s + t)[..|s + t| - 1] == s + t[..|t| - 1];
    }
  }

  lemma MsbOne(c: nat, b: byte)
    ensures Msb(c, [b]) == Steps(Add(c, 0x100_0000 * (b as nat)), 8)
  {
    assert [b][..0] == [];
    assert Msb(c, []) == c;
  }

  // Read the file in blocks of 4096, then append the length.
  method CksumFile(table: array<uint32>, file: seq<byte>) returns (crc: uint32, len: uint64)
    requires table.Length == 256 && IsTable(table[..]) && |file| < 0x1_0000_0000_0000_0000
    ensures len as int == |file|
    ensures crc as int == 0xFFFF_FFFF - Msb(0, file + LengthBytes(|file|))
  {
    hide Msb, Steps, Add, IsTable;
    crc := 0;
    len := 0;
    MsbEmpty(0);
    assert file[..0] == [];
    while len as int < |file|
      invariant len as int <= |file| && crc as nat == Msb(0, file[..len])
    {
      var n := if |file| - len as int < 4096 then |file| - len as int else 4096;
      for i := 0 to n
        invariant crc as nat == Msb(0, file[..len as int + i])
      {
        var b := file[len as int + i];
        crc := NextCrc(table, crc, b);
        MsbOne(Msb(0, file[..len as int + i]), b);
        MsbAppend(0, file[..len as int + i], [b]);
        assert file[..len as int + i + 1] == file[..len as int + i] + [b];
      }
      len := len + n as uint64;
    }
    assert file[..len] == file;
    crc := AppendLength(table, crc, len);
    MsbAppend(0, file, LengthBytes(|file|));
    crc := 0xFFFF_FFFF - crc;
  }

  lemma MsbEmpty(c: nat)
    ensures Msb(c, []) == c
  {}

  method AppendLength(table: array<uint32>, start: uint32, len: uint64) returns (crc: uint32)
    requires table.Length == 256 && IsTable(table[..])
    ensures crc as nat == Msb(start as nat, LengthBytes(len as nat))
  {
    hide Msb, Steps, Add, IsTable;
    crc := start;
    var l := len;
    MsbEmpty(Msb(start as nat, LengthBytes(len as nat)));
    while l > 0
      invariant Msb(crc as nat, LengthBytes(l as nat)) == Msb(start as nat, LengthBytes(len as nat))
      decreases l as nat
    {
      var b := (l % 0x100) as byte;
      MsbOne(crc as nat, b);
      MsbAppend(crc as nat, [b], LengthBytes(l as nat / 0x100));
      crc := NextCrc(table, crc, b);
      l := l / 0x100;
    }
    MsbEmpty(crc as nat);
  }

  // ---- Bit reversal ----

  // The low k bits of n, reversed.
  function Rev(n: nat, k: nat): nat
    decreases k
  {
    if k == 0 then 0 else Rev(n / 2, k - 1) + Two(k - 1) * (n % 2)
  }

  lemma {:induction false} RevRange(n: nat, k: nat)
    ensures Rev(n, k) < Two(k)
    decreases k
  {
    if k > 0 { RevRange(n / 2, k - 1); }
  }

  function Bit(n: nat, i: nat): nat {
    n / Two(i) % 2
  }

  // Bit i of the reversal is bit k - 1 - i.
  lemma {:induction false} RevAt(n: nat, k: nat, i: nat)
    requires i < k
    ensures Bit(Rev(n, k), i) == Bit(n, k - 1 - i)
    decreases k
  {
    RevStep(n, k);
    hide Rev, Two, Bit;
    if i < k - 1 { RevAt(n / 2, k - 1, i); }
    RevAtNext(n / 2, n % 2, k - 1, i);
    assert 2 * (n / 2) + n % 2 == n;
  }

  lemma RevAtNext(h: nat, t: nat, k: nat, i: nat)
    requires t < 2 && i <= k && (i < k ==> Bit(Rev(h, k), i) == Bit(h, k - 1 - i))
    ensures Two(k) * t >= 0 && Bit(Rev(h, k) + Two(k) * t, i) == Bit(2 * h + t, k - i)
  {
    Twice(Two(k), t);
    RevRange(h, k);
    hide Rev, Two, Bit;
    if i == k {
      LeadingBit(Rev(h, k), t, k);
      LowestBit(2 * h + t);
    } else {
      HighBit(Rev(h, k), t, k, i);
      HalfBit(h, t, k - 1 - i);
    }
  }

  lemma LowestBit(n: nat)
    ensures Bit(n, 0) == n % 2
  {
    DivModUnique(n, n, 0, 1);
  }

  lemma LeadingBit(low: nat, top: nat, i: nat)
    requires low < Two(i) && top < 2
    ensures Bit(low + Two(i) * top, i) == top
  {
    hide Two;
    DivModUnique(low + Two(i) * top, top, low, Two(i));
  }

  lemma HalfBit(h: nat, t: nat, j: nat)
    requires t < 2
    ensures Bit(2 * h + t, j + 1) == Bit(h, j)
  {
    DivDiv(2 * h + t, 2, Two(j));
    assert (2 * h + t) / 2 == h;
  }

  // A bit below m does not see what is added at m.
  lemma {:induction false} HighBit(low: nat, top: nat, m: nat, i: nat)
    requires i < m
    ensures Two(m) * top >= 0 && Bit(low + Two(m) * top, i) == Bit(low, i)
    decreases i
  {
    Twice(Two(m - 1), top);
    hide Two, Bit;
    var h, t := low / 2, low % 2;
    HighBitNext(h, t, Two(m - 1) * top, i);
    if i > 0 { HighBit(h, top, m - 1, i - 1); }
  }

  lemma HighBitNext(h: nat, t: nat, half: nat, i: nat)
    requires t < 2
    ensures i == 0 ==> Bit(2 * h + t + 2 * half, i) == Bit(2 * h + t, i)
    ensures i > 0 ==> Bit(2 * h + t + 2 * half, i) == Bit(h + half, i - 1) && Bit(2 * h + t, i) == Bit(h, i - 1)
  {
    hide Bit;
    if i == 0 {
      LowestBit(2 * h + t);
      LowestBit(2 * h + t + 2 * half);
    } else {
      HalfBit(h, t, i - 1);
      HalfBit(h + half, t, i - 1);
      assert 2 * (h + half) + t == 2 * h + t + 2 * half;
    }
  }

  // Bit i of a reversed byte is bit 7 - i.
  lemma RevBytesAre(s: seq<byte>, j: nat, i: nat)
    requires j < |s| && i < 8
    ensures |RevBytes(s)| == |s| && RevBytes(s)[j] as nat / Two(i) % 2 == s[j] as nat / Two(7 - i) % 2
  {
    hide Two, Rev;
    RevAt(s[j] as nat, 8, i);
  }

  // Reversal is linear.
  lemma {:induction false} RevAdd(a: nat, b: nat, k: nat)
    ensures Rev(Add(a, b), k) == Add(Rev(a, k), Rev(b, k))
    decreases k
  {
    if k == 0 {
      AddZero(0);
    } else {
      RevAdd(a / 2, b / 2, k - 1);
      RevRange(a / 2, k - 1);
      RevRange(b / 2, k - 1);
      HalfSum(a, b);
      RevStep(a, k);
      RevStep(b, k);
      RevStep(Add(a, b), k);
      hide Add, Rev, Two;
      AddSplit(k - 1, Rev(a / 2, k - 1), a % 2, Rev(b / 2, k - 1), b % 2);
    }
  }

  lemma RevStep(n: nat, k: nat)
    requires k > 0
    ensures Rev(n, k) == Rev(n / 2, k - 1) + Two(k - 1) * (n % 2)
  {}

  lemma HalfSum(a: nat, b: nat)
    ensures Add(a, b) / 2 == Add(a / 2, b / 2) && Add(a, b) % 2 == Add(a % 2, b % 2)
  {
    hide Add;
    BitSum(a % 2, a / 2, b % 2, b / 2);
  }

  lemma BitSum(p: nat, a: nat, q: nat, b: nat)
    requires p < 2 && q < 2
    ensures Add(p + 2 * a, q + 2 * b) / 2 == Add(a, b) && Add(p + 2 * a, q + 2 * b) % 2 == Add(p, q)
  {
    AddBit(p, 0, q, 0);
    AddZero(0);
    hide Add;
    AddBit(p, a, q, b);
  }

  lemma {:induction false} RevWiden(x: nat, k: nat)
    requires x < Two(k)
    ensures Rev(x, k + 1) == 2 * Rev(x, k)
    decreases k
  {
    if k > 0 {
      RevWiden(x / 2, k - 1);
      RevStep(x, k + 1);
      RevStep(x, k);
      hide Rev;
      Twice(Two(k - 1), x % 2);
    }
  }

  lemma {:induction false} RevWidenBy(x: nat, k: nat, j: nat)
    requires x < Two(k)
    ensures Rev(x, k + j) == Two(j) * Rev(x, k)
    decreases j
  {
    if j > 0 {
      RevWidenBy(x, k, j - 1);
      TwoGrows(k, j - 1);
      RevWiden(x, k + j - 1);
      hide Rev;
      Twice(Two(j - 1), Rev(x, k));
    }
  }

  lemma {:induction false} TwoGrows(k: nat, j: nat)
    ensures Two(k) <= Two(k + j)
  {
    if j > 0 { TwoGrows(k, j - 1); }
  }

  lemma {:induction false} RevTop(n: nat, k: nat, t: nat)
    requires n < Two(k) && t < 2
    ensures Rev(n + Two(k) * t, k + 1) == t + 2 * Rev(n, k)
    decreases k
  {
    var m := n + Two(k) * t;
    RevStep(m, k + 1);
    if k > 0 {
      HalfTop(n, Two(k - 1), t);
      RevTop(n / 2, k - 1, t);
      RevStep(n, k);
      hide Rev;
      Twice(Two(k - 1), n % 2);
    } else {
      assert Rev(m / 2, 0) == 0;
    }
  }

  lemma HalfTop(n: nat, p: nat, t: nat)
    requires t < 2
    ensures (n + 2 * p * t) / 2 == n / 2 + p * t && (n + 2 * p * t) % 2 == n % 2
  {}

  // Reversing twice is nothing.
  lemma {:induction false} RevTwice(n: nat, k: nat)
    requires n < Two(k)
    ensures Rev(Rev(n, k), k) == n
    decreases k
  {
    hide Rev, Two;
    if k == 0 {
      TwoValues();
      RevNone(n);
      RevNone(Rev(n, 0));
    } else {
      HalfBelow(n, k);
      RevTwice(n / 2, k - 1);
      RevRange(n / 2, k - 1);
      RevStep(n, k);
      RevTop(Rev(n / 2, k - 1), k - 1, n % 2);
    }
  }

  lemma HalfBelow(n: nat, k: nat)
    requires n < Two(k) && k > 0
    ensures n / 2 < Two(k - 1)
  {}

  // ---- The reflected CRC ----

  function LsbStep(c: nat): nat {
    if c % 2 == 1 then Add(c / 2, REFLECTED) else c / 2
  }

  function LsbSteps(c: nat, k: nat): nat
    decreases k
  {
    if k == 0 then c else LsbSteps(LsbStep(c), k - 1)
  }

  function Lsb(c: nat, s: seq<byte>): nat
    decreases |s|
  {
    if s == [] then c else LsbSteps(Add(Lsb(c, s[..|s| - 1]), s[|s| - 1] as nat), 8)
  }

  lemma {:induction false} RevAllOnes(k: nat)
    ensures Rev(Two(k) - 1, k) == Two(k) - 1
    decreases k
  {
    hide Rev, Two;
    if k == 0 {
      TwoValues();
      RevNone(Two(0) - 1);
    } else {
      RevAllOnes(k - 1);
      OnesHalf(k);
      RevStep(Two(k) - 1, k);
      OnesSum(Two(k), Two(k - 1));
    }
  }

  lemma OnesHalf(k: nat)
    requires k > 0
    ensures Two(k) == 2 * Two(k - 1) && (Two(k) - 1) / 2 == Two(k - 1) - 1 && (Two(k) - 1) % 2 == 1
  {}

  lemma OnesSum(t: nat, h: nat)
    requires t == 2 * h
    ensures (h - 1) + h * 1 == t - 1
  {}

  lemma RevBit(n: nat, t: nat, k: nat)
    requires t < 2
    ensures Rev(2 * n + t, k + 1) == Rev(n, k) + Two(k) * t
  {
    RevStep(2 * n + t, k + 1);
    assert (2 * n + t) / 2 == n;
  }

  lemma RevNibble(n: nat, d: nat, c: nat, b: nat, a: nat, k: nat)
    requires a < 2 && b < 2 && c < 2 && d < 2
    ensures Rev(16 * n + 8 * d + 4 * c + 2 * b + a, k + 4) == Rev(n, k) + Two(k) * (8 * a + 4 * b + 2 * c + d)
  {
    RevBit(n, d, k);
    RevBit(2 * n + d, c, k + 1);
    RevBit(4 * n + 2 * d + c, b, k + 2);
    RevBit(8 * n + 4 * d + 2 * c + b, a, k + 3);
    Doublings(k);
    Distribute(Two(k), a, b, c, d);
    hide Rev, Two;
  }

  lemma Doublings(k: nat)
    ensures Two(k + 1) == 2 * Two(k) && Two(k + 2) == 4 * Two(k) && Two(k + 3) == 8 * Two(k)
  {
    assert Two(k + 2) == 2 * Two(k + 1);
    assert Two(k + 3) == 2 * Two(k + 2);
  }

  lemma Distribute(t: nat, a: nat, b: nat, c: nat, d: nat)
    ensures (8 * t) * a + (4 * t) * b + (2 * t) * c + t * d == t * (8 * a + 4 * b + 2 * c + d)
  {}

  lemma RevConstants()
    ensures Rev(REFLECTED, 32) == POLY && Rev(ONES, 32) == ONES
  {
    hide Rev, Two;
    TwoValues();
    RevAllOnes(32);
    Sixteenths();
    RevNibble(0xEDB_8832, 0, 0, 0, 0, 28);
    RevNibble(0xED_B883, 0, 0, 1, 0, 24);
    RevNibble(0xE_DB88, 0, 0, 1, 1, 20);
    RevNibble(0xEDB8, 1, 0, 0, 0, 16);
    RevNibble(0xEDB, 1, 0, 0, 0, 12);
    RevNibble(0xED, 1, 0, 1, 1, 8);
    RevNibble(0xE, 1, 1, 0, 1, 4);
    RevNibble(0, 1, 1, 1, 0, 0);
    RevNone(0);
  }

  lemma RevNone(n: nat)
    ensures Rev(n, 0) == 0
  {}

  lemma Sixteenths()
    ensures Two(4) == 0x10 && Two(12) == 0x1000 && Two(16) == 0x1_0000 && Two(20) == 0x10_0000 && Two(28) == 0x1000_0000
  {
    TwoValues();
    Doublings(0);
    Doublings(3);
    Doublings(6);
    Doublings(9);
    Doublings(12);
    Doublings(13);
    Doublings(16);
    Doublings(17);
    Doublings(24);
    Doublings(25);
  }

  lemma TopStep(r: nat, t: nat)
    requires r < 0x8000_0000 && t < 2
    ensures Step(r + 0x8000_0000 * t) == if t == 1 then Add(2 * r, POLY) else 2 * r
  {
    TopBit(r, t);
  }

  lemma RevHalf(c: nat)
    requires c < W32
    ensures Rev(c / 2, 31) < 0x8000_0000 && Rev(c / 2, 32) == 2 * Rev(c / 2, 31)
    ensures Rev(c, 32) == Rev(c / 2, 31) + 0x8000_0000 * (c % 2)
  {
    TwoValues();
    RevStep(c, 32);
    RevRange(c / 2, 31);
    hide Two, Rev;
    RevWiden(c / 2, 31);
  }

  // A right shift of the reflected register is a left shift of the other.
  lemma LsbStepIs(c: nat)
    requires c < W32
    ensures LsbStep(c) < W32 && Rev(LsbStep(c), 32) == Step(Rev(c, 32))
  {
    hide Add, Rev, Step, Two;
    RevHalf(c);
    RevConstants();
    TopStep(Rev(c / 2, 31), c % 2);
    RevAdd(c / 2, REFLECTED, 32);
    XorFits(c / 2, REFLECTED);
  }

  lemma TopBit(r: nat, t: nat)
    requires r < 0x8000_0000 && t < 2
    ensures var x := r + 0x8000_0000 * t; x / 0x8000_0000 % 2 == t && 2 * x % W32 == 2 * r
  {}

  lemma {:induction false} LsbStepsIs(c: nat, k: nat)
    requires c < W32
    ensures LsbSteps(c, k) < W32 && Rev(LsbSteps(c, k), 32) == Steps(Rev(c, 32), k)
    decreases k
  {
    hide LsbStep, Step, Rev;
    if k > 0 {
      LsbStepIs(c);
      LsbStepsIs(LsbStep(c), k - 1);
    }
  }

  function RevBytes(s: seq<byte>): (r: seq<byte>)
    ensures |r| == |s|
  {
    seq(|s|, i requires 0 <= i < |s| => RevByte(s[i]))
  }

  function RevByte(b: byte): byte {
    RevRange(b as nat, 8);
    TwoValues();
    Rev(b as nat, 8) as byte
  }

  lemma RevByteIs(b: byte)
    ensures Rev(b as nat, 32) == 0x100_0000 * (RevByte(b) as nat)
  {
    TwoValues();
    hide Two, Rev;
    RevWidenBy(b as nat, 8, 24);
  }

  // The reflected register is the mirror image of the other, fed mirrored bytes.
  lemma {:induction false} LsbIs(c: nat, s: seq<byte>)
    requires c < W32
    ensures Lsb(c, s) < W32 && Rev(Lsb(c, s), 32) == Msb(Rev(c, 32), RevBytes(s))
    decreases |s|
  {
    hide LsbSteps, Steps, Add, Rev, RevByte;
    if s != [] {
      var rest, b := s[..|s| - 1], s[|s| - 1];
      LsbIs(c, rest);
      var x := Add(Lsb(c, rest), b as nat);
      XorFits(Lsb(c, rest), b as nat);
      LsbStepsIs(x, 8);
      RevAdd(Lsb(c, rest), b as nat, 32);
      RevByteIs(b);
      assert RevBytes(s)[..|s| - 1] == RevBytes(rest);
    }
  }

  lemma {:induction false} AddOnes(x: nat, k: nat)
    requires x < Two(k)
    ensures Add(x, Two(k) - 1) == Two(k) - 1 - x
    decreases k
  {
    hide Add, Two;
    if k == 0 {
      TwoValues();
      AddZero(0);
    } else {
      HalfBelow(x, k);
      OnesHalf(k);
      AddOnes(x / 2, k - 1);
      AddBit(x % 2, x / 2, 1, Two(k - 1) - 1);
    }
  }

  lemma RevNot(c: nat)
    requires c < W32
    ensures Rev(c, 32) < W32 && Rev(Not(c), 32) == Not(Rev(c, 32))
  {
    TwoValues();
    RevConstants();
    hide Two, Rev, Add;
    RevRange(c, 32);
    AddOnes(c, 32);
    AddOnes(Rev(c, 32), 32);
    RevAdd(c, ONES, 32);
  }

  // crc32_calc of a message is the bit-reversed complement of the MSB-first
  // CRC, run from all ones over the bit-reversed bytes.
  lemma ReflectedIsMirror(s: seq<byte>)
    ensures Lsb(0xFFFF_FFFF, s) <= 0xFFFF_FFFF && Msb(0xFFFF_FFFF, RevBytes(s)) <= 0xFFFF_FFFF
    ensures 0xFFFF_FFFF - Lsb(0xFFFF_FFFF, s) == Rev(0xFFFF_FFFF - Msb(0xFFFF_FFFF, RevBytes(s)), 32)
  {
    RevConstants();
    TwoValues();
    hide Rev, Lsb, Msb, RevBytes, Two;
    LsbIs(ONES, s);
    RevRange(Lsb(ONES, s), 32);
    RevNot(Lsb(ONES, s));
    RevTwice(Not(Lsb(ONES, s)), 32);
  }

  method Crc32Calc(data: array<byte>, len: uint32) returns (r: uint32)
    requires len as int <= data.Length
    ensures r as int == 0xFFFF_FFFF - Lsb(0xFFFF_FFFF, data[..len])
  {
    hide Add, LsbStep, Xor;
    var crc: uint32 := 0xFFFF_FFFF;
    assert data[..0] == [];
    for i: uint32 := 0 to len
      invariant crc as nat == Lsb(ONES, data[..i])
    {
      ghost var start := Add(crc as nat, data[i] as nat);
      assert data[..i + 1][..i] == data[..i];
      XorIs(crc, data[i] as uint32);
      crc := Xor(crc, data[i] as uint32);
      for b := 0 to 8
        invariant LsbSteps(crc as nat, 8 - b) == LsbSteps(start, 8)
      {
        LsbWord(crc);
        crc := if crc % 2 == 1 then Xor(crc / 2, 0xEDB8_8320) else crc / 2;
      }
      assert LsbSteps(crc as nat, 0) == crc as nat;
    }
    r := 0xFFFF_FFFF - crc;
  }

  lemma LsbWord(c: uint32)
    ensures LsbStep(c as nat) == (if c % 2 == 1 then Xor(c / 2, 0xEDB8_8320) else c / 2) as nat
  {
    hide Add;
  }
}
