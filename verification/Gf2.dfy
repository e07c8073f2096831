// Polynomials over GF(2), coded as natural numbers.
// Bit i is the coefficient of x^i.  Addition is carry-less, and so is
// multiplication.
module Gf2 {
  import opened ModArith

  function Add(a: nat, b: nat): nat
    decreases a + b
  {
    if a == 0 && b == 0 then 0 else (a + b) % 2 + 2 * Add(a / 2, b / 2)
  }

  function Mul(a: nat, b: nat): nat
    decreases a
  {
    if a == 0 then 0 else Add(if a % 2 == 1 then b else 0, 2 * Mul(a / 2, b))
  }

  function Two(n: nat): (p: nat)
    ensures p >= 1
  {
    if n == 0 then 1 else 2 * Two(n - 1)
  }

  // ---- Addition ----

  lemma {:induction false} AddZero(a: nat)
    ensures Add(a, 0) == a && Add(0, a) == a
  {
    if a > 0 { AddZero(a / 2); }
  }

  lemma {:induction false} AddSelf(a: nat)
    ensures Add(a, a) == 0
  {
    if a > 0 { AddSelf(a / 2); }
  }

  lemma {:induction false} AddCommutes(a: nat, b: nat)
    ensures Add(a, b) == Add(b, a)
    decreases a + b
  {
    if a > 0 || b > 0 { AddCommutes(a / 2, b / 2); }
  }

  // Adding at the two lowest coefficients separately from the rest.
  lemma AddBit(p: nat, a: nat, q: nat, b: nat)
    requires p < 2 && q < 2
    ensures Add(p + 2 * a, q + 2 * b) == (p + q) % 2 + 2 * Add(a, b)
  {
    assert (p + 2 * a) / 2 == a && (q + 2 * b) / 2 == b;
    assert (p + 2 * a + (q + 2 * b)) % 2 == (p + q) % 2;
  }

  lemma {:induction false} AddAssociates(a: nat, b: nat, c: nat)
    ensures Add(Add(a, b), c) == Add(a, Add(b, c))
    decreases a + b + c
  {
    if a > 0 || b > 0 || c > 0 {
      AddAssociates(a / 2, b / 2, c / 2);
      hide Add;
      AssociateBit(a % 2, a / 2, b % 2, b / 2, c % 2, c / 2);
    }
  }

  lemma AssociateBit(a0: nat, a: nat, b0: nat, b: nat, c0: nat, c: nat)
    requires a0 < 2 && b0 < 2 && c0 < 2
    requires Add(Add(a, b), c) == Add(a, Add(b, c))
    ensures Add(Add(a0 + 2 * a, b0 + 2 * b), c0 + 2 * c) == Add(a0 + 2 * a, Add(b0 + 2 * b, c0 + 2 * c))
  {
    hide Add;
    var p, q := (a0 + b0) % 2, (b0 + c0) % 2;
    AddBit(a0, a, b0, b);
    AddBit(b0, b, c0, c);
    AddBit(p, Add(a, b), c0, c);
    AddBit(a0, a, q, Add(b, c));
    Parity(a0, b0, c0);
  }

  lemma Parity(a: nat, b: nat, c: nat)
    ensures ((a + b) % 2 + c) % 2 == (a + (b + c) % 2) % 2
  {}

  lemma AddDouble(a: nat, b: nat)
    ensures Add(2 * a, 2 * b) == 2 * Add(a, b)
  {
    hide Add;
    AddBit(0, a, 0, b);
  }

  // (a + b) + (c + d) == (a + c) + (b + d).
  lemma AddSwap(a: nat, b: nat, c: nat, d: nat)
    ensures Add(Add(a, b), Add(c, d)) == Add(Add(a, c), Add(b, d))
  {
    AddAssociates(a, b, Add(c, d));
    AddAssociates(b, c, d);
    AddCommutes(b, c);
    AddAssociates(c, b, d);
    AddAssociates(a, c, Add(b, d));
  }

  // Addition works below and above coefficient n separately.
  lemma {:induction false} AddSplit(n: nat, x: nat, a: nat, y: nat, b: nat)
    requires x < Two(n) && y < Two(n)
    ensures Add(x, y) < Two(n)
    ensures Add(x + Two(n) * a, y + Two(n) * b) == Add(x, y) + Two(n) * Add(a, b)
    decreases n
  {
    if n > 0 {
      var t, x0, x1, y0, y1 := Two(n - 1), x % 2, x / 2, y % 2, y / 2;
      AddSplit(n - 1, x1, a, y1, b);
      hide Add;
      Twice(t, a);
      Twice(t, b);
      Twice(t, Add(a, b));
      AddBit(x0, x1 + t * a, y0, y1 + t * b);
      AddBit(x0, x1, y0, y1);
    }
  }

  lemma Twice(t: nat, a: nat)
    ensures (2 * t) * a == 2 * (t * a)
    ensures t * a >= 0
  {}

  lemma AddBelow(n: nat, x: nat, y: nat)
    requires x < Two(n) && y < Two(n)
    ensures Add(x, y) < Two(n)
  {
    AddSplit(n, x, 0, y, 0);
  }

  // A polynomial of lower degree does not cancel the leading term.
  lemma AddHigh(n: nat, x: nat, y: nat)
    requires x < Two(n) <= y
    ensures Add(x, y) >= Two(n)
  {
    hide Add, Two;
    var q, r, t := y / Two(n), y % Two(n), Two(n);
    QuotientPositive(y, t);
    AddSplit(n, x, 0, r, q);
    AddZero(q);
    MulLe(1, q, t);
  }

  lemma QuotientPositive(y: nat, t: nat)
    requires 0 < t <= y
    ensures y / t >= 1 && y == y % t + t * (y / t)
    ensures t * 0 == 0 && (y / t) * t == t * (y / t)
  {
    if y / t <= 0 {
      MulLe(y / t, 0, t);
    }
  }

  // ---- Multiplication ----

  lemma {:induction false} MulDouble(a: nat, b: nat)
    ensures Mul(a, 2 * b) == 2 * Mul(a, b) && Mul(2 * a, b) == 2 * Mul(a, b)
  {
    if a > 0 {
      MulDouble(a / 2, b);
      AddDouble(if a % 2 == 1 then b else 0, 2 * Mul(a / 2, b));
      assert (2 * a) / 2 == a;
      AddZero(2 * Mul(a, b));
    }
  }

  lemma {:induction false} MulDistributes(a: nat, b: nat, c: nat)
    ensures Mul(a, Add(b, c)) == Add(Mul(a, b), Mul(a, c))
  {
    if a == 0 {
      AddZero(0);
    } else {
      MulDistributes(a / 2, b, c);
      var p, q := if a % 2 == 1 then b else 0, if a % 2 == 1 then c else 0;
      AddZero(0);
      AddDouble(Mul(a / 2, b), Mul(a / 2, c));
      AddSwap(p, 2 * Mul(a / 2, b), q, 2 * Mul(a / 2, c));
    }
  }

  lemma {:induction false} MulUnits(a: nat)
    ensures Mul(a, 0) == 0 && Mul(a, 1) == a && Mul(1, a) == a
  {
    AddZero(a);
    if a > 0 {
      MulUnits(a / 2);
      AddBit(a % 2, 0, 0, a / 2);
      AddZero(a / 2);
      AddZero(0);
    }
  }

  // The recursion on the second factor.
  lemma MulRight(a: nat, b: nat)
    ensures Mul(a, b) == Add(if b % 2 == 1 then a else 0, 2 * Mul(a, b / 2))
  {
    hide Add, Mul;
    AddBit(b % 2, 0, 0, b / 2);
    AddZero(b / 2);
    MulDistributes(a, b % 2, 2 * (b / 2));
    MulDouble(a, b / 2);
    MulUnits(a);
  }

  lemma {:induction false} MulCommutes(a: nat, b: nat)
    ensures Mul(a, b) == Mul(b, a)
  {
    if a == 0 {
      MulUnits(b);
    } else {
      MulCommutes(a / 2, b);
      MulRight(b, a);
    }
  }

  lemma {:induction false} MulAssociates(a: nat, b: nat, c: nat)
    ensures Mul(Mul(a, b), c) == Mul(a, Mul(b, c))
  {
    if a > 0 {
      MulAssociates(a / 2, b, c);
      var p, q := if a % 2 == 1 then b else 0, 2 * Mul(a / 2, b);
      MulCommutes(Add(p, q), c);
      MulDistributes(c, p, q);
      MulCommutes(c, p);
      MulCommutes(c, q);
      MulDouble(Mul(a / 2, b), c);
    }
  }

  // A nonzero multiple of b has at least the degree of b.
  lemma {:induction false} MulDegree(q: nat, b: nat, n: nat)
    requires q > 0 && Two(n) <= b < Two(n + 1)
    ensures Mul(q, b) >= Two(n)
  {
    if q == 1 {
      MulUnits(b);
    } else {
      MulDegree(q / 2, b, n);
      if q % 2 == 1 {
        AddHigh(n + 1, b, 2 * Mul(q / 2, b));
      } else {
        AddZero(2 * Mul(q / 2, b));
      }
    }
  }

  // ---- Congruence modulo a polynomial ----

  ghost predicate Cong(a: nat, b: nat, g: nat) {
    exists q :: Add(a, b) == Mul(q, g)
  }

  lemma CongBy(a: nat, b: nat, g: nat, q: nat)
    requires Add(a, b) == Mul(q, g)
    ensures Cong(a, b, g)
  {}

  lemma CongRefl(a: nat, g: nat)
    ensures Cong(a, a, g)
  {
    AddSelf(a);
    CongBy(a, a, g, 0);
  }

  lemma CongSym(a: nat, b: nat, g: nat)
    requires Cong(a, b, g)
    ensures Cong(b, a, g)
  {
    AddCommutes(a, b);
  }

  lemma CongAdd(a: nat, b: nat, c: nat, d: nat, g: nat)
    requires Cong(a, b, g) && Cong(c, d, g)
    ensures Cong(Add(a, c), Add(b, d), g)
  {
    var p :| Add(a, b) == Mul(p, g);
    var q :| Add(c, d) == Mul(q, g);
    AddSwap(a, c, b, d);
    MulCommutes(Add(p, q), g);
    MulDistributes(g, p, q);
    MulCommutes(g, p);
    MulCommutes(g, q);
    CongBy(Add(a, c), Add(b, d), g, Add(p, q));
  }

  lemma CongTrans(a: nat, b: nat, c: nat, g: nat)
    requires Cong(a, b, g) && Cong(b, c, g)
    ensures Cong(a, c, g)
  {
    CongAdd(a, b, b, c, g);
    AddCommutes(a, b);
    var p :| Add(Add(a, b), Add(b, c)) == Mul(p, g);
    AddAssociates(a, b, Add(b, c));
    AddAssociates(b, b, c);
    AddSelf(b);
    AddZero(c);
    CongBy(a, c, g, p);
  }

  lemma CongMul(a: nat, b: nat, c: nat, g: nat)
    requires Cong(a, b, g)
    ensures Cong(Mul(c, a), Mul(c, b), g)
  {
    var p :| Add(a, b) == Mul(p, g);
    MulDistributes(c, a, b);
    MulAssociates(c, p, g);
    CongBy(Mul(c, a), Mul(c, b), g, Mul(c, p));
  }

  // Remainders are unique.
  lemma CongUnique(a: nat, b: nat, g: nat, n: nat)
    requires Cong(a, b, g) && a < Two(n) && b < Two(n) && Two(n) <= g < Two(n + 1)
    ensures a == b
  {
    var p :| Add(a, b) == Mul(p, g);
    AddBelow(n, a, b);
    if p > 0 { MulDegree(p, g, n); }
    AddAssociates(a, b, b);
    AddSelf(b);
    AddZero(a);
    AddZero(b);
  }
}
