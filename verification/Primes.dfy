// Primes, Euclid's lemma and Fermat's little theorem.
module Primes {
  import opened ModArith

  ghost predicate Prime(p: int) {
    p >= 2 && forall d :: 2 <= d < p ==> p % d != 0
  }

  // ---- Euclid's lemma ----

  lemma {:induction false} EuclidReduced(p: int, a: int, b: int)
    requires Prime(p) && 0 < a < p && (a * b) % p == 0
    ensures b % p == 0
    decreases a
  {
    if a > 1 {
      var q, r := p / a, p % a;
      assert r * b == p * b - q * (a * b) by { assert r == p - q * a; }
      ModShift(0, b, p);
      var m := (a * b) / p;
      assert a * b == m * p;
      assert r * b == (b - q * m) * p;
      DivModUnique(r * b, b - q * m, 0, p);
      EuclidReduced(p, r, b);
    }
  }

  lemma Euclid(p: int, a: int, b: int)
    requires Prime(p) && (a * b) % p == 0
    ensures a % p == 0 || b % p == 0
  {
    if a % p != 0 {
      ModMul(a, b, p);
      ModMul(a % p, b, p);
      ModIdem(a, p);
      EuclidReduced(p, a % p, b);
    }
  }

  // ---- Binomial coefficients ----

  function Choose(n: nat, k: nat): nat {
    if k == 0 then 1 else if n == 0 then 0 else Choose(n - 1, k - 1) + Choose(n - 1, k)
  }

  lemma {:induction false} ChooseEdge(n: nat, k: nat)
    requires k >= n
    ensures Choose(n, k) == if k == n then 1 else 0
  {
    if n > 0 {
      ChooseEdge(n - 1, k - 1);
      ChooseEdge(n - 1, k);
    }
  }

  lemma {:induction false} Absorption(n: nat, k: nat)
    requires n >= 1 && k >= 1
    ensures k * Choose(n, k) == n * Choose(n - 1, k - 1)
  {
    if n == 1 {
      ChooseEdge(1, k);
      ChooseEdge(0, k - 1);
    } else if k == 1 {
      Absorption(n - 1, 1);
    } else {
      Absorption(n - 1, k - 1);
      Absorption(n - 1, k);
      AbsorptionStep(n, k, Choose(n - 1, k - 1), Choose(n - 1, k), Choose(n - 2, k - 2), Choose(n - 2, k - 1));
    }
  }

  lemma AbsorptionStep(n: int, k: int, x: int, x': int, y: int, z: int)
    requires x == y + z && (k - 1) * x == (n - 1) * y && k * x' == (n - 1) * z
    ensures k * (x + x') == n * x
  {
    assert k * (x + x') == x + (k - 1) * x + k * x';
    assert (n - 1) * (y + z) == (n - 1) * y + (n - 1) * z;
  }

  lemma PrimeDividesChoose(p: nat, k: nat)
    requires Prime(p) && 0 < k < p
    ensures Choose(p, k) % p == 0
  {
    Absorption(p, k);
    var c := Choose(p - 1, k - 1);
    DivModUnique(k * Choose(p, k), c, 0, p);
    Euclid(p, k, Choose(p, k));
    DivModUnique(k, 0, k, p);
  }

  // The first k terms of the expansion of (1 + a)^n.
  function Terms(a: int, n: nat, k: nat): int {
    if k == 0 then 0 else Terms(a, n, k - 1) + Choose(n, k - 1) * Pow(a, k - 1)
  }

  lemma {:induction false} TermsStep(a: int, n: nat, k: nat)
    requires k >= 1
    ensures Terms(a, n + 1, k) == Terms(a, n, k) + a * Terms(a, n, k - 1)
  {
    if k > 1 {
      TermsStep(a, n, k - 1);
      var x, y, w := Choose(n, k - 2), Choose(n, k - 1), Pow(a, k - 2);
      assert Choose(n + 1, k - 1) == x + y;
      assert Pow(a, k - 1) == a * w;
      TermsArith(a, x, y, w, Terms(a, n, k - 1), Terms(a, n, k - 2));
    }
  }

  lemma TermsArith(a: int, x: int, y: int, w: int, t: int, u: int)
    ensures (t + a * u) + (x + y) * (a * w) == (t + y * (a * w)) + a * (u + x * w)
  {}

  lemma {:induction false} Binomial(a: int, n: nat)
    ensures Pow(a + 1, n) == Terms(a, n, n + 1)
  {
    if n == 0 {
      assert Terms(a, 0, 1) == Terms(a, 0, 0) + Choose(0, 0) * Pow(a, 0);
    } else {
      Binomial(a, n - 1);
      TermsStep(a, n - 1, n + 1);
      ChooseEdge(n - 1, n);
      assert Terms(a, n - 1, n + 1) == Terms(a, n - 1, n) + 0 * Pow(a, n);
      assert Pow(a + 1, n) == (a + 1) * Pow(a + 1, n - 1);
      Distribute(a, Pow(a + 1, n - 1));
    }
  }

  lemma Distribute(a: int, t: int)
    ensures (a + 1) * t == a * t + t
  {}

  lemma MultipleOf(c: int, w: int, p: int)
    requires p > 0 && c % p == 0
    ensures c * w == ((c / p) * w) * p
  {
    var q := c / p;
    assert c == q * p;
    assert (q * p) * w == (q * w) * p;
  }

  // Modulo p every middle term vanishes.
  lemma {:induction false} MiddleTerms(a: int, p: nat, k: nat)
    requires Prime(p) && 1 <= k <= p
    ensures Terms(a, p, k) % p == 1
  {
    if k == 1 {
      assert Terms(a, p, 1) == Terms(a, p, 0) + Choose(p, 0) * Pow(a, 0);
      DivModUnique(1, 0, 1, p);
    } else {
      MiddleTerms(a, p, k - 1);
      PrimeDividesChoose(p, k - 1);
      var c, w := Choose(p, k - 1), Pow(a, k - 1);
      MultipleOf(c, w, p);
      ModShift(Terms(a, p, k - 1), (c / p) * w, p);
    }
  }

  // ---- Fermat ----

  lemma {:induction false} FermatPower(a: nat, p: nat)
    requires Prime(p)
    ensures Pow(a, p) % p == a % p
  {
    if a == 0 {
      assert Pow(0, p) == 0 * Pow(0, p - 1);
    } else {
      FermatPower(a - 1, p);
      Binomial(a - 1, p);
      MiddleTerms(a - 1, p, p);
      ChooseEdge(p, p);
      var t, w := Terms(a - 1, p, p), Pow(a - 1, p);
      assert Pow(a, p) == t + w;
      ModAdd(t, w, p);
      ModAdd(1, a - 1, p);
      DivModUnique(1, 0, 1, p);
    }
  }

  lemma Fermat(a: nat, p: nat)
    requires Prime(p) && a % p != 0
    ensures Pow(a, p - 1) % p == 1
  {
    FermatPower(a, p);
    var w := Pow(a, p - 1);
    ModSub(a * w, a, p);
    assert a * (w - 1) == a * w - a;
    assert 0 % p == 0;
    Euclid(p, a, w - 1);
    ModAdd(w - 1, 1, p);
    DivModUnique(1, 0, 1, p);
  }

  // The only square roots of one modulo a prime are one and minus one.
  lemma RootsOfOne(x: nat, p: nat)
    requires Prime(p) && x < p && (x * x) % p == 1
    ensures x == 1 || x == p - 1
  {
    ModSub(x * x, 1, p);
    DivModUnique(1, 0, 1, p);
    assert (x - 1) * (x + 1) == x * x - 1;
    assert 0 % p == 0;
    Euclid(p, x - 1, x + 1);
    if (x - 1) % p == 0 {
      if x == 0 {
        DivModUnique(-1, -1, p - 1, p);
      } else {
        DivModUnique(x - 1, 0, x - 1, p);
      }
    } else if x + 1 < p {
      DivModUnique(x + 1, 0, x + 1, p);
    }
  }
}
