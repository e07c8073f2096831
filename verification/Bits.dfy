// Bitwise operations on two's-complement integers of n + 1 bits.
// Such an integer lies in [-2^n, 2^n), and each operation is defined bit by bit
// from the least significant end.
module Bits {
  ghost predicate Fits(x: int, n: nat)
    decreases n
  {
    if n == 0 then x == 0 || x == -1 else Fits(x / 2, n - 1)
  }

  function Xor(x: int, y: int, n: nat): int
    decreases n
  {
    if n == 0 then (if x == y then 0 else -1)
    else (x + y) % 2 + 2 * Xor(x / 2, y / 2, n - 1)
  }

  function And(x: int, y: int, n: nat): int
    decreases n
  {
    if n == 0 then (if x == -1 && y == -1 then -1 else 0)
    else (x % 2) * (y % 2) + 2 * And(x / 2, y / 2, n - 1)
  }

  lemma {:induction false} XorCommutes(x: int, y: int, n: nat)
    ensures Xor(x, y, n) == Xor(y, x, n)
    decreases n
  {
    if n > 0 { XorCommutes(x / 2, y / 2, n - 1); }
  }

  lemma {:induction false} XorFits(x: int, y: int, n: nat)
    ensures Fits(Xor(x, y, n), n)
    decreases n
  {
    if n > 0 { XorFits(x / 2, y / 2, n - 1); }
  }

  // x ^ (x ^ y) == y, the identity behind every xor swap.
  lemma {:induction false} XorCancels(x: int, y: int, n: nat)
    requires Fits(x, n) && Fits(y, n)
    ensures Xor(x, Xor(x, y, n), n) == y
    decreases n
  {
    if n > 0 { XorCancels(x / 2, y / 2, n - 1); }
  }

  lemma {:induction false} XorZero(x: int, n: nat)
    requires Fits(x, n)
    ensures Xor(x, 0, n) == x
    decreases n
  {
    if n > 0 { XorZero(x / 2, n - 1); }
  }

  lemma {:induction false} AndMask(x: int, n: nat)
    requires Fits(x, n)
    ensures And(-1, x, n) == x && And(0, x, n) == 0
    decreases n
  {
    if n > 0 { AndMask(x / 2, n - 1); }
  }

  lemma {:induction false} FitsRange(x: int, n: nat)
    ensures Fits(x, n) <==> -Pow2(n) <= x < Pow2(n)
    decreases n
  {
    if n > 0 { FitsRange(x / 2, n - 1); }
  }

  function Pow2(n: nat): int {
    if n == 0 then 1 else 2 * Pow2(n - 1)
  }

  lemma {:induction false} Pow2Add(m: nat, n: nat)
    ensures Pow2(m + n) == Pow2(m) * Pow2(n)
  {
    if m > 0 { Pow2Add(m - 1, n); }
  }

  lemma {:induction false} AndFits(x: int, y: int, n: nat)
    ensures Fits(And(x, y, n), n)
    decreases n
  {
    if n > 0 {
      AndFits(x / 2, y / 2, n - 1);
      assert (x % 2) * (y % 2) == 0 || (x % 2) * (y % 2) == 1;
    }
  }

  lemma Pow2Values()
    ensures Pow2(7) == 0x80 && Pow2(8) == 0x100 && Pow2(16) == 0x1_0000 && Pow2(32) == 0x1_0000_0000
    ensures Pow2(63) == 0x8000_0000_0000_0000
  {
    assert Pow2(4) == 16;
    assert Pow2(7) == 8 * Pow2(4);
    Pow2Add(8, 8);
    Pow2Add(16, 16);
    Pow2Add(32, 16);
    Pow2Add(48, 8);
    Pow2Add(56, 7);
  }
}
