// Deterministic Miller-Rabin over 64-bit words (kernel/core/kernel.c:3723-3768).
module MillerRabin {
  // The words have type uint64, so verification includes that no sum,
  // difference or doubling ever leaves the 64-bit range.

  import opened Words
  import opened ModArith
  import opened Primes

  const WITNESSES: seq<uint64> := [2, 3, 5, 7, 11, 13, 17, 19, 23, 29, 31, 37]

  method AddMod64(a: uint64, b: uint64, m: uint64) returns (r: uint64)
    requires m > 0
    ensures r as int == (a as int + b as int) % m as int
  {
    ModAdd(a as int, b as int, m as int);
    var x, y := a % m, b % m;
    if x >= m - y {
      DivModUnique(x as int + y as int, 1, x as int + y as int - m as int, m as int);
      return x - (m - y);
    }
    DivModUnique(x as int + y as int, 0, x as int + y as int, m as int);
    return x + y;
  }

  // Doubling a and halving b keeps r + a * b modulo m.
  lemma MulStep(r: int, a: int, b: int, r': int, a': int, m: int)
    requires m > 0 && b > 0
    requires r' == if b % 2 == 1 then (r + a) % m else r
    requires a' == (a + a) % m
    ensures (r' + a' * (b / 2)) % m == (r + a * b) % m
  {
    var h := b / 2;
    var s := if b % 2 == 1 then r + a else r;
    MulHalf(a, b, h);
    ModIdem(a + a, m);
    ModIdem(s, m);
    ModCongMul(a', h, a + a, h, m);
    ModAdd(s, (a + a) * h, m);
    ModAdd(r', a' * h, m);
  }

  lemma MulHalf(a: int, b: int, h: int)
    requires h == b / 2
    ensures (a + a) * h + (if b % 2 == 1 then a else 0) == a * b
  {
    assert b == 2 * h + b % 2;
  }

  method MulMod64(x: uint64, y: uint64, m: uint64) returns (r: uint64)
    requires m > 0
    ensures r as int == (x as int * y as int) % m as int
  {
    r := 0;
    var a, b := x % m, y;
    ModMul(x as int, y as int, m as int);
    ModIdem(x as int, m as int);
    ModCongMul(x as int % m as int, y as int, x as int, y as int, m as int);
    while b != 0
      invariant r < m && a < m
      invariant (r as int + a as int * b as int) % m as int == (x as int * y as int) % m as int
    {
      ghost var r0, a0 := r, a;
      if b % 2 == 1 {
        r := AddMod64(r, a, m);
      }
      a := AddMod64(a, a, m);
      MulStep(r0 as int, a0 as int, b as int, r as int, a as int, m as int);
      b := b / 2;
    }
    assert a as int * 0 == 0;
    DivModUnique(r as int, 0, r as int, m as int);
  }

  // Squaring the base and halving the exponent keeps r * base^e modulo m.
  lemma PowStep(r: int, a: int, e: nat, r': int, a': int, m: int)
    requires m > 0 && e > 0
    requires r' == if e % 2 == 1 then (r * a) % m else r
    requires a' == (a * a) % m
    ensures (r' * Pow(a', e / 2)) % m == (r * Pow(a, e)) % m
  {
    var h := e / 2;
    var s := if e % 2 == 1 then r * a else r;
    PowMul(a, 2, h);
    assert Pow(a, 2) == a * a by { assert Pow(a, 1) == a * Pow(a, 0); }
    ModPow(a * a, h, m);
    ModIdem(s, m);
    ModCongMul(r', Pow(a', h), s, Pow(a * a, h), m);
    if e % 2 == 1 {
      assert Pow(a, e) == a * Pow(a, 2 * h);
      MulAssoc(r, a, Pow(a, 2 * h));
    }
  }

  method PowMod64(x: uint64, y: uint64, m: uint64) returns (r: uint64)
    requires m > 0
    ensures r as int == Pow(x as int, y as int) % m as int
  {
    r := 1 % m;
    var a, e := x % m, y;
    ModPow(x as int, y as int, m as int);
    ModIdem(1, m as int);
    ModCongMul(1 % m as int, Pow(x as int % m as int, y as int), 1, Pow(x as int, y as int), m as int);
    while e != 0
      invariant r < m && a < m
      invariant (r as int * Pow(a as int, e as int)) % m as int == Pow(x as int, y as int) % m as int
    {
      ghost var r0, a0 := r, a;
      if e % 2 == 1 {
        r := MulMod64(r, a, m);
      }
      a := MulMod64(a, a, m);
      PowStep(r0 as int, a0 as int, e as int, r as int, a as int, m as int);
      e := e / 2;
    }
    DivModUnique(r as int, 0, r as int, m as int);
  }

  // ---- The test and its soundness ----

  // n, with n - 1 = d * 2^s, behaves like a prime towards base w.
  ghost predicate Passes(n: nat, d: nat, s: nat, w: nat)
    requires n > 0
  {
    Pow(w, d) % n == 1 || exists r :: 0 <= r < s && Pow(w, d * Pow2(r)) % n == n - 1
  }

  function Pow2(r: nat): (p: nat)
    ensures p >= 1
  {
    if r == 0 then 1 else 2 * Pow2(r - 1)
  }

  lemma SquareUp(w: int, e: nat, n: int)
    requires n > 0
    ensures ((Pow(w, e) % n) * (Pow(w, e) % n)) % n == Pow(w, 2 * e) % n
  {
    PowAdd(w, e, e);
    ModMul(Pow(w, e), Pow(w, e), n);
  }

  // Below a one in the squaring chain there is a minus one or ones throughout.
  lemma {:induction false} Descend(n: nat, d: nat, s: nat, w: nat, r: nat)
    requires Prime(n) && r <= s
    requires Pow(w, d * Pow2(r)) % n == 1
    ensures Passes(n, d, s, w)
  {
    if r == 0 {
      assert d * Pow2(0) == d;
    } else {
      var e := d * Pow2(r - 1);
      assert d * Pow2(r) == 2 * e;
      SquareUp(w, e, n);
      RootsOfOne(Pow(w, e) % n, n);
      if Pow(w, e) % n == 1 {
        Descend(n, d, s, w, r - 1);
      }
    }
  }

  // Every odd prime passes every base it does not divide.
  lemma PrimesPass(n: nat, d: nat, s: nat, w: nat)
    requires Prime(n) && n - 1 == d * Pow2(s) && w % n != 0
    ensures Passes(n, d, s, w)
  {
    Fermat(w, n);
    Descend(n, d, s, w, s);
  }

  // ---- What passing means ----

  // Fermat's condition holds, and wherever the squaring chain from w^d arrives
  // at 1, it came from 1 or -1.
  ghost predicate OnlyTrivialRoots(n: nat, d: nat, s: nat, w: nat)
    requires n > 0
  {
    && Pow(w, n - 1) % n == 1
    && forall r :: 1 <= r <= s && Pow(w, d * Pow2(r)) % n == 1 ==>
         Pow(w, d * Pow2(r - 1)) % n == 1 || Pow(w, d * Pow2(r - 1)) % n == n - 1
  }

  // One step of the chain squares.
  lemma ChainStep(n: nat, d: nat, w: nat, r: nat)
    requires n > 2 && r > 0
    ensures var x, y := Pow(w, d * Pow2(r - 1)) % n, Pow(w, d * Pow2(r)) % n;
            y == (x * x) % n && (x == 1 || x == n - 1 ==> y == 1)
  {
    hide Pow, Pow2;
    NextPower(d, r);
    SquareUp(w, d * Pow2(r - 1), n);
    MinusOneSquared(n);
    DivModUnique(1, 0, 1, n);
  }

  lemma MinusOneSquared(n: nat)
    requires n > 2
    ensures ((n - 1) * (n - 1)) % n == 1
  {
    assert (n - 1) * (n - 1) == (n - 2) * n + 1;
    DivModUnique((n - 1) * (n - 1), n - 2, 1, n);
  }

  // Once the chain is at 1 or -1, all that follows is 1.
  lemma {:induction false} ChainStays(n: nat, d: nat, w: nat, a: nat, r: nat)
    requires n > 2 && a < r
    requires Pow(w, d * Pow2(a)) % n == 1 || Pow(w, d * Pow2(a)) % n == n - 1
    ensures Pow(w, d * Pow2(r)) % n == 1
    decreases r
  {
    hide Pow, Pow2;
    if a + 1 < r { ChainStays(n, d, w, a, r - 1); }
    ChainStep(n, d, w, r);
  }

  // Back from a 1 the chain meets a -1 or starts with 1.
  lemma {:induction false} ChainBack(n: nat, d: nat, s: nat, w: nat, r: nat)
    requires n > 2 && r <= s && OnlyTrivialRoots(n, d, s, w) && Pow(w, d * Pow2(r)) % n == 1
    ensures Passes(n, d, s, w)
  {
    if r == 0 {
      assert d * Pow2(0) == d;
    } else if Pow(w, d * Pow2(r - 1)) % n == 1 {
      hide Pow, Passes;
      ChainBack(n, d, s, w, r - 1);
    }
  }

  // A base passes exactly if no step of its chain shows n to be composite.
  lemma PassesExactly(n: nat, d: nat, s: nat, w: nat)
    requires n > 2 && Split(n, d, s)
    ensures Passes(n, d, s, w) <==> OnlyTrivialRoots(n, d, s, w)
  {
    hide Pow, Pow2;
    if OnlyTrivialRoots(n, d, s, w) {
      ChainBack(n, d, s, w, s);
    }
    if Passes(n, d, s, w) {
      var a := PassesFrom(n, d, s, w);
      forall r | 1 <= r <= s && Pow(w, d * Pow2(r)) % n == 1
        ensures Pow(w, d * Pow2(r - 1)) % n == 1 || Pow(w, d * Pow2(r - 1)) % n == n - 1
      {
        if a < r - 1 {
          ChainStays(n, d, w, a, r - 1);
        } else if r - 1 < a && Pow(w, d * Pow2(a)) % n == n - 1 {
          if r < a { ChainStays(n, d, w, r, a); }
        } else if r - 1 < a {
          assert false;
        }
      }
      if a < s { ChainStays(n, d, w, a, s); }
    }
  }

  // For a base that passes Fermat's condition holds, and where its chain arrives
  // at 1, it came from 1 or -1.
  lemma PassingChain(n: nat, d: nat, s: nat, w: nat, r: nat)
    requires n > 2 && n - 1 == d * Pow2(s) && d % 2 == 1 && Passes(n, d, s, w)
    ensures Pow(w, n - 1) % n == 1
    ensures 1 <= r <= s && Pow(w, d * Pow2(r)) % n == 1 ==>
              Pow(w, d * Pow2(r - 1)) % n == 1 || Pow(w, d * Pow2(r - 1)) % n == n - 1
  {
    hide Passes;
    PassesExactly(n, d, s, w);
  }

  // For any other base one of the two fails.
  lemma FailingChain(n: nat, d: nat, s: nat, w: nat) returns (r: nat)
    requires n > 2 && n - 1 == d * Pow2(s) && d % 2 == 1 && !Passes(n, d, s, w)
    ensures Pow(w, n - 1) % n != 1 ||
            (1 <= r <= s && Pow(w, d * Pow2(r)) % n == 1 &&
             Pow(w, d * Pow2(r - 1)) % n != 1 && Pow(w, d * Pow2(r - 1)) % n != n - 1)
  {
    hide Passes;
    PassesExactly(n, d, s, w);
    r := 0;
    if Pow(w, n - 1) % n == 1 {
      var q :| 1 <= q <= s && Pow(w, d * Pow2(q)) % n == 1 &&
               Pow(w, d * Pow2(q - 1)) % n != 1 && Pow(w, d * Pow2(q - 1)) % n != n - 1;
      r := q;
    }
  }

  // Where the chain of a base that passes is first known to be 1 or -1.
  lemma PassesFrom(n: nat, d: nat, s: nat, w: nat) returns (a: nat)
    requires n > 2 && Passes(n, d, s, w)
    ensures a <= s && (Pow(w, d * Pow2(a)) % n == 1 || (a < s && Pow(w, d * Pow2(a)) % n == n - 1))
    ensures Pow(w, d * Pow2(a)) % n == 1 ==> a == 0
  {
    if Pow(w, d) % n == 1 {
      a := 0;
      assert d * Pow2(0) == d;
    } else {
      a :| 0 <= a < s && Pow(w, d * Pow2(a)) % n == n - 1;
    }
  }

  // n - 1 as an odd number times a power of two.
  ghost predicate Split(n: nat, d: nat, s: nat) {
    n - 1 == d * Pow2(s) && d % 2 == 1
  }

  lemma {:induction false} SplitUnique(d: nat, s: nat, d': nat, s': nat)
    requires d * Pow2(s) == d' * Pow2(s') && d % 2 == 1 && d' % 2 == 1
    ensures d == d' && s == s'
  {
    if s > 0 && s' > 0 {
      var p, p' := Pow2(s - 1), Pow2(s' - 1);
      Double(d, p);
      Double(d', p');
      assert Pow2(s) == 2 * p && Pow2(s') == 2 * p';
      SplitUnique(d, s - 1, d', s' - 1);
    } else if s > 0 {
      Double(d, Pow2(s - 1));
      OddIsNotDouble(d', d * Pow2(s - 1));
    } else if s' > 0 {
      Double(d', Pow2(s' - 1));
      OddIsNotDouble(d, d' * Pow2(s' - 1));
    }
  }

  lemma OddIsNotDouble(d: nat, x: int)
    requires d % 2 == 1
    ensures d * Pow2(0) != 2 * x
  {}

  lemma Double(d: int, p: int)
    ensures d * (2 * p) == 2 * (d * p)
  {}

  ghost predicate Witness(w: int) {
    exists i :: 0 <= i < 12 && WITNESSES[i] as int == w
  }

  lemma WitnessesAre(w: int)
    ensures Witness(w) <==>
            w == 2 || w == 3 || w == 5 || w == 7 || w == 11 || w == 13 || w == 17 || w == 19 || w == 23 || w == 29 ||
            w == 31 || w == 37
  {
    assert WITNESSES[0] == 2 && WITNESSES[1] == 3 && WITNESSES[2] == 5 && WITNESSES[3] == 7;
    assert WITNESSES[4] == 11 && WITNESSES[5] == 13 && WITNESSES[6] == 17 && WITNESSES[7] == 19;
    assert WITNESSES[8] == 23 && WITNESSES[9] == 29 && WITNESSES[10] == 31 && WITNESSES[11] == 37;
  }

  // The strong probable prime test to the twelve bases 2, 3, ..., 37.
  ghost predicate Accepts(n: nat) {
    n >= 2 && (Witness(n) || (NoWitnessDivides(n) && PassesAll(n)))
  }

  ghost predicate NoWitnessDivides(n: nat) {
    forall i :: 0 <= i < 12 ==> n % WITNESSES[i] as int != 0
  }

  ghost predicate PassesAll(n: nat)
    requires n > 0
  {
    forall d: nat, s: nat :: Split(n, d, s) ==> PassesEach(n, d, s, 12)
  }

  lemma SplitPasses(n: nat, d: nat, s: nat)
    requires n > 0 && Split(n, d, s) && PassesEach(n, d, s, 12)
    ensures PassesAll(n)
  {
    forall d': nat, s': nat | Split(n, d', s')
      ensures PassesEach(n, d', s', 12)
    {
      SplitUnique(d, s, d', s');
    }
  }

  ghost predicate PassesEach(n: nat, d: nat, s: nat, bases: nat)
    requires n > 0 && bases <= 12
  {
    forall i :: 0 <= i < bases ==> Passes(n, d, s, WITNESSES[i] as int)
  }

  // No prime is ever rejected.
  lemma PrimesAccepted(n: nat)
    requires Prime(n)
    ensures Accepts(n)
  {
    if !Witness(n) {
      forall i | 0 <= i < 12
        ensures n % WITNESSES[i] as int != 0
        ensures WITNESSES[i] as int % n != 0
      {
        var w := WITNESSES[i] as int;
        assert w != n;
        if w < n {
          DivModUnique(w, 0, w, n);
        } else {
          SmallWitness(i, n);
        }
      }
      forall d: nat, s: nat | Split(n, d, s)
        ensures PassesEach(n, d, s, 12)
      {
        forall i | 0 <= i < 12
          ensures Passes(n, d, s, WITNESSES[i] as int)
        {
          PrimesPass(n, d, s, WITNESSES[i] as int);
        }
      }
    }
  }

  // The verdict is whether no base meets a failure of Fermat's condition or a
  // nontrivial square root of one.
  ghost predicate Decides(n: nat, verdict: bool)
    requires n > 0
  {
    forall d: nat, s: nat :: Split(n, d, s) ==>
      (verdict <==> forall i :: 0 <= i < 12 ==> OnlyTrivialRoots(n, d, s, WITNESSES[i] as int))
  }

  // Where no witness decides by division, n is accepted exactly if no base meets
  // a failure of Fermat's condition or a nontrivial square root of one.
  lemma AcceptsExactly(n: nat)
    ensures n >= 2 && !Witness(n) && NoWitnessDivides(n) ==> Decides(n, Accepts(n))
  {
    hide Passes, OnlyTrivialRoots, Split;
    if n >= 2 && !Witness(n) && NoWitnessDivides(n) {
      assert n != 2 by { assert WITNESSES[0] == 2; }
      forall d: nat, s: nat | Split(n, d, s)
        ensures Accepts(n) <==> forall i :: 0 <= i < 12 ==> OnlyTrivialRoots(n, d, s, WITNESSES[i] as int)
      {
        forall i | 0 <= i < 12
          ensures Passes(n, d, s, WITNESSES[i] as int) == OnlyTrivialRoots(n, d, s, WITNESSES[i] as int)
        {
          PassesExactly(n, d, s, WITNESSES[i] as int);
        }
        if PassesEach(n, d, s, 12) { SplitPasses(n, d, s); }
      }
    }
  }

  // If n is accepted and no base itself, Fermat's condition holds for every base,
  // and no chain arrives at 1 from a nontrivial root of one.
  lemma AcceptedMeans(n: nat, d: nat, s: nat, i: nat, r: nat)
    requires n >= 2 && n - 1 == d * Pow2(s) && d % 2 == 1 && i < 12
    requires Accepts(n) && forall j :: 0 <= j < 12 ==> n != WITNESSES[j] as int
    ensures var w := WITNESSES[i] as int;
            && n % w != 0 && Pow(w, n - 1) % n == 1
            && (1 <= r <= s && Pow(w, d * Pow2(r)) % n == 1 ==>
                  Pow(w, d * Pow2(r - 1)) % n == 1 || Pow(w, d * Pow2(r - 1)) % n == n - 1)
  {
    hide Passes, Pow, Pow2;
    assert n != 2 by { assert WITNESSES[0] == 2; }
    assert !Witness(n);
    assert PassesEach(n, d, s, 12);
    PassingChain(n, d, s, WITNESSES[i] as int, r);
  }

  // If n is rejected, a base divides it or breaks one of the two.
  lemma RejectedMeans(n: nat, d: nat, s: nat) returns (i: nat, r: nat)
    requires n >= 2 && n - 1 == d * Pow2(s) && d % 2 == 1 && !Accepts(n)
    ensures i < 12 && n != WITNESSES[i] as int
    ensures var w := WITNESSES[i] as int;
            || n % w == 0
            || Pow(w, n - 1) % n != 1
            || (1 <= r <= s && Pow(w, d * Pow2(r)) % n == 1 &&
                Pow(w, d * Pow2(r - 1)) % n != 1 && Pow(w, d * Pow2(r - 1)) % n != n - 1)
  {
    hide Passes, Pow, Pow2;
    assert WITNESSES[0] == 2;
    i, r := 0, 0;
    if NoWitnessDivides(n) {
      if PassesEach(n, d, s, 12) { SplitPasses(n, d, s); }
      i :| 0 <= i < 12 && !Passes(n, d, s, WITNESSES[i] as int);
      r := FailingChain(n, d, s, WITNESSES[i] as int);
    } else {
      i :| 0 <= i < 12 && n % WITNESSES[i] as int == 0;
    }
  }

  // A number below a witness that is no witness itself is composite or below 2.
  lemma SmallWitness(i: nat, n: nat)
    requires i < 12 && n <= WITNESSES[i] as int && Prime(n)
    ensures Witness(n)
  {
    var w: int :| w in [2, 3, 5] && (n % w == 0 || n in [7, 11, 13, 17, 19, 23, 29, 31, 37]);
    if n % w == 0 {
      assert n == w;
    }
    forall j | 0 <= j < 12 && WITNESSES[j] as int == n ensures Witness(n) {}
    assert WITNESSES[0] == 2 && WITNESSES[1] == 3 && WITNESSES[2] == 5 && WITNESSES[3] == 7 && WITNESSES[4] == 11
      && WITNESSES[5] == 13 && WITNESSES[6] == 17 && WITNESSES[7] == 19 && WITNESSES[8] == 23 && WITNESSES[9] == 29
      && WITNESSES[10] == 31 && WITNESSES[11] == 37;
  }

  // Below 41^2 the verdict is exact.
  lemma ExactBelow1681(n: nat)
    requires n < 1681
    ensures Accepts(n) <==> Prime(n)
  {
    hide Passes;
    if Prime(n) {
      PrimesAccepted(n);
    } else if n >= 2 {
      var d :| 2 <= d < n && n % d == 0;
      var i := CompositeBelow1681(n, d, n / d);
      if Witness(n) {
        WitnessPrime(n, i);
        WitnessFactor(n, d);
      }
    }
  }

  lemma SmallerFactor(d: int, e: int)
    requires d > 0 && d * e < 1681
    ensures d < 41 || e < 41
  {
    if d >= 41 && e >= 41 {
      MulLe(41, d, 41);
      MulLe(41, e, d);
    }
  }

  // A witness dividing one factor divides the product.
  lemma WitnessOfFactor(f: nat, g: int) returns (i: nat)
    requires 2 <= f < 41
    ensures i < 12 && (f * g) % WITNESSES[i] as int == 0
  {
    i := FactorWitness(f);
    var w := WITNESSES[i] as int;
    var q := f / w;
    assert f == q * w;
    assert (q * w) * g == (q * g) * w;
    DivModUnique(f * g, q * g, 0, w);
  }

  lemma CompositeBelow1681(n: nat, d: nat, e: nat) returns (i: nat)
    requires 2 <= d < n < 1681 && n == d * e
    ensures i < 12 && n % WITNESSES[i] as int == 0
  {
    SmallerFactor(d, e);
    if d < 41 {
      i := WitnessOfFactor(d, e);
    } else {
      if e < 2 { MulLe(e, 1, d); }
      i := WitnessOfFactor(e, d);
      assert e * d == d * e;
    }
  }

  // Witnesses have no proper divisor.
  lemma WitnessFactor(n: nat, d: nat)
    requires Witness(n) && 2 <= d < n
    ensures n % d != 0
  {
  }

  lemma FactorWitness(f: nat) returns (i: nat)
    requires 2 <= f < 41
    ensures i < 12 && f % WITNESSES[i] as int == 0
  {
    if f % 2 == 0 { i := 0; } else if f % 3 == 0 { i := 1; } else if f % 5 == 0 { i := 2; }
    else if f == 7 { i := 3; } else if f == 11 { i := 4; } else if f == 13 { i := 5; }
    else if f == 17 { i := 6; } else if f == 19 { i := 7; } else if f == 23 { i := 8; }
    else if f == 29 { i := 9; } else if f == 31 { i := 10; } else { i := 11; }
  }

  lemma WitnessPrime(n: nat, i: nat)
    requires Witness(n) && i < 12 && n % WITNESSES[i] as int == 0
    ensures n == WITNESSES[i] as int
  {}

  // The trial divisions: 1 for a witness, 0 for a multiple of one, -1 otherwise.
  method TrialDivision(n: uint64) returns (verdict: int)
    requires n >= 2
    ensures verdict == 1 ==> Witness(n as int)
    ensures verdict == 0 ==> !Witness(n as int) && !NoWitnessDivides(n as int)
    ensures verdict != 1 && verdict != 0 ==> !Witness(n as int) && NoWitnessDivides(n as int)
  {
    for i := 0 to 12
      invariant forall j :: 0 <= j < i ==> n != WITNESSES[j] && n as int % WITNESSES[j] as int != 0
    {
      if n == WITNESSES[i] { return 1; }
      if n % WITNESSES[i] == 0 {
        assert !Witness(n as int) by {
          if Witness(n as int) { WitnessPrime(n as int, i); }
        }
        return 0;
      }
    }
    return -1;
  }

  // n - 1 = d * 2^s with d odd.
  method OddPart(n: uint64) returns (d: uint64, s: nat)
    requires n >= 2
    ensures Split(n as int, d as int, s)
  {
    d, s := n - 1, 0;
    while d % 2 == 0
      invariant d > 0 && d as int * Pow2(s) == n as int - 1
      decreases d
    {
      Double((d / 2) as int, Pow2(s));
      d, s := d / 2, s + 1;
    }
  }

  method IsPrime(n: uint64) returns (r: int)
    ensures r == 0 || r == 1
    ensures r == 1 <==> Accepts(n as int)
    ensures Prime(n as int) ==> r == 1
    ensures n >= 2 && !Witness(n as int) && NoWitnessDivides(n as int) ==> Decides(n as int, r == 1)
  {
    hide Passes, Prime, Witness, NoWitnessDivides, PassesAll, Split, OnlyTrivialRoots;
    AcceptsExactly(n as int);
    if Prime(n as int) { PrimesAccepted(n as int); }
    if n < 2 { return 0; }
    var verdict := TrialDivision(n);
    if verdict == 1 { return 1; }
    if verdict == 0 { return 0; }
    var d, s := OddPart(n);
    OddSplit(n as int, d as int, s);
    var ok := AllBases(n, d, s);
    return if ok then 1 else 0;
  }

  lemma OddSplit(n: nat, d: nat, s: nat)
    requires NoWitnessDivides(n) && Split(n, d, s)
    ensures s > 0
  {
    assert n % WITNESSES[0] as int != 0;
  }

  method AllBases(n: uint64, d: uint64, s: nat) returns (ok: bool)
    requires n >= 2 && s > 0 && Split(n as int, d as int, s)
    ensures ok <==> PassesAll(n as int)
  {
    hide Passes, Split, PassesAll;
    for i := 0 to 12
      invariant PassesEach(n as int, d as int, s, i)
    {
      var passes := Probe(n, d, s, WITNESSES[i]);
      if !passes {
        FailsOne(n as int, d as int, s, i);
        return false;
      }
    }
    SplitPasses(n as int, d as int, s);
    return true;
  }

  lemma FailsOne(n: nat, d: nat, s: nat, i: nat)
    requires n > 0 && Split(n, d, s) && i < 12 && !Passes(n, d, s, WITNESSES[i] as int)
    ensures !PassesAll(n)
  {
    hide Passes, Split;
  }

  // One base: the squaring chain w^d, w^2d, ..., w^(2^(s-1) d).
  method Probe(n: uint64, d: uint64, s: nat, w: uint64) returns (passes: bool)
    requires n >= 2 && s > 0
    ensures passes <==> Passes(n as int, d as int, s, w as int)
  {
    var x := PowMod64(w, d, n);
    assert d as int * Pow2(0) == d as int;
    if x == 1 || x == n - 1 { return true; }
    hide Pow, Pow2;
    for r := 1 to s
      invariant x as int == Pow(w as int, d as int * Pow2(r - 1)) % n as int
      invariant forall q :: 0 <= q < r ==> Pow(w as int, d as int * Pow2(q)) % n as int != n as int - 1
    {
      ghost var e := d as int * Pow2(r - 1);
      NextPower(d as int, r);
      SquareUp(w as int, e, n as int);
      x := MulMod64(x, x, n);
      if x == n - 1 { return true; }
    }
    return false;
  }

  lemma NextPower(d: nat, r: nat)
    requires r > 0
    ensures d * Pow2(r) == 2 * (d * Pow2(r - 1))
  {
    Double(d, Pow2(r - 1));
  }
}
