// Integer powers and arithmetic modulo a positive number.
// Every module on codecs, fields, primes or cursors uses these; nothing here
// depends on a particular modulus.
module ModArith {
  function Pow(b: int, e: nat): int {
    if e == 0 then 1 else b * Pow(b, e - 1)
  }

  lemma {:induction false} PowAdd(b: int, e: nat, f: nat)
    ensures Pow(b, e + f) == Pow(b, e) * Pow(b, f)
  {
    if e > 0 {
      PowAdd(b, e - 1, f);
      MulAssoc(b, Pow(b, e - 1), Pow(b, f));
    }
  }

  lemma {:induction false} PowMul(b: int, e: nat, f: nat)
    ensures 0 <= e * f
    ensures Pow(Pow(b, e), f) == Pow(b, e * f)
  {
    if f > 0 {
      PowMul(b, e, f - 1);
      assert e * f == e + e * (f - 1);
      PowAdd(b, e, e * (f - 1));
    }
  }

  lemma {:induction false} PowPos(b: int, e: nat)
    requires b >= 1
    ensures Pow(b, e) >= 1
  {
    if e > 0 {
      PowPos(b, e - 1);
      MulGe(b, Pow(b, e - 1));
    }
  }

  lemma MulAssoc(a: int, b: int, c: int)
    ensures a * (b * c) == (a * b) * c
  {}

  lemma MulGe(a: int, b: int)
    requires a >= 1 && b >= 0
    ensures a * b >= b
  {
    assert a * b == b + (a - 1) * b;
  }

  lemma MulLe(x: int, y: int, w: int)
    requires x <= y && w >= 0
    ensures x * w <= y * w
  {
    assert (y - x) * w >= 0;
  }

  // Division with remainder is unique.
  lemma DivModUnique(x: int, q: int, r: int, m: int)
    requires m > 0 && 0 <= r < m && x == q * m + r
    ensures x / m == q && x % m == r
  {
    var q' := x / m;
    var r' := x % m;
    assert x == q' * m + r';
    assert (q' - q) * m == r - r';
    if q' > q {
      MulGe(q' - q, m);
    } else if q' < q {
      MulGe(q - q', m);
    }
  }

  lemma ModShift(x: int, k: int, m: int)
    requires m > 0
    ensures (x + k * m) % m == x % m
  {
    assert x + k * m == (x / m + k) * m + x % m;
    DivModUnique(x + k * m, x / m + k, x % m, m);
  }

  lemma ModAdd(a: int, b: int, m: int)
    requires m > 0
    ensures (a % m + b % m) % m == (a + b) % m
  {
    var k := a / m + b / m;
    assert a + b == (a % m + b % m) + k * m;
    ModShift(a % m + b % m, k, m);
  }

  lemma ModSub(a: int, b: int, m: int)
    requires m > 0
    ensures (a % m - b % m) % m == (a - b) % m
  {
    var k := a / m - b / m;
    assert a - b == (a % m - b % m) + k * m;
    ModShift(a % m - b % m, k, m);
  }

  lemma ModMul(a: int, b: int, m: int)
    requires m > 0
    ensures ((a % m) * (b % m)) % m == (a * b) % m
  {
    var a', b', p, q := a % m, b % m, a / m, b / m;
    assert a == p * m + a' && b == q * m + b';
    var k := p * q * m + p * b' + q * a';
    calc {
      a * b;
      (p * m + a') * (q * m + b');
      (p * m) * (q * m) + (p * m) * b' + a' * (q * m) + a' * b';
      a' * b' + k * m;
    }
    ModShift(a' * b', k, m);
  }

  lemma ModIdem(a: int, m: int)
    requires m > 0
    ensures (a % m) % m == a % m
  {
    ModAdd(a, 0, m);
    assert 0 % m == 0;
  }

  // Congruent factors have congruent products.
  lemma ModCongMul(a: int, b: int, c: int, d: int, m: int)
    requires m > 0 && a % m == c % m && b % m == d % m
    ensures (a * b) % m == (c * d) % m
  {
    ModMul(a, b, m);
    ModMul(c, d, m);
  }

  lemma {:induction false} ModPow(b: int, e: nat, m: int)
    requires m > 0
    ensures Pow(b % m, e) % m == Pow(b, e) % m
  {
    if e > 0 {
      var x, y := Pow(b % m, e - 1), Pow(b, e - 1);
      ModPow(b, e - 1, m);
      ModIdem(b, m);
      ModCongMul(b % m, x, b, y, m);
    }
  }

  lemma ModFactor(z: int, x: int, m: int)
    requires m > 0
    ensures ((z % m) * x) % m == (z * x) % m
  {
    ModIdem(z, m);
    ModCongMul(z % m, x, z, x, m);
  }

  // One round of square-and-multiply doubles the exponent and then adds one.
  lemma SquareAndMultiply(x: int, e: nat, m: int)
    requires m > 0
    ensures ((Pow(x, e) % m) * (Pow(x, e) % m)) % m == Pow(x, 2 * e) % m
    ensures ((Pow(x, 2 * e) % m) * x) % m == Pow(x, 2 * e + 1) % m
  {
    assert Pow(x, 2 * e + 1) == x * Pow(x, 2 * e);
    PowAdd(x, e, e);
    hide Pow;
    ModMul(Pow(x, e), Pow(x, e), m);
    ModFactor(Pow(x, 2 * e), x, m);
  }

  lemma DivDiv(x: int, a: int, b: int)
    requires a > 0 && b > 0
    ensures a * b > 0 && x / (a * b) == (x / a) / b
  {
    MulGe(a, b);
    var y := x / a;
    var q, r := y / b, y % b;
    assert x == (q * b + r) * a + x % a;
    MulLe(r, b - 1, a);
    MulLe(0, r, a);
    assert (b - 1) * a == a * b - a;
    assert (q * b + r) * a == q * (a * b) + r * a;
    DivModUnique(x, q, r * a + x % a, a * b);
  }

  // Bits above the byte do not reach a bit of the byte.
  lemma ShiftParity(b: int, x: int, m: int, n: int)
    requires m > 0 && n > 0 && 2 * (m * n) == 0x100
    ensures ((b + 0x100 * x) / m) % 2 == (b / m) % 2
  {
    var q, t := b / m, n * x;
    Rearrange(q, m, n, x);
    DivModUnique(b + 0x100 * x, q + 2 * t, b % m, m);
  }

  lemma Rearrange(q: int, m: int, n: int, x: int)
    ensures (q + 2 * (n * x)) * m == q * m + (2 * (m * n)) * x
  {
    assert (n * x) * m == (m * n) * x;
  }
}
