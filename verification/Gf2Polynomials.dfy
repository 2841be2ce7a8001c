/** Polynomials over GF(2): the natural number p stands for the polynomial whose coefficient of
    x^k is bit k of p. Addition is exclusive or, multiplication by x^n is a shift. */
module Gf2Polynomials {
  function Add(p: nat, q: nat): nat
    decreases p + q
  {
    if p == 0 && q == 0 then 0 else 2 * Add(p / 2, q / 2) + (if p % 2 != q % 2 then 1 else 0)
  }

  /** p * x^n. */
  function Shift(p: nat, n: nat): nat { if n == 0 then p else 2 * Shift(p, n - 1) }

  /** Long multiplication. */
  function Mul(q: nat, g: nat): nat {
    if q == 0 then 0 else Add(if q % 2 == 1 then g else 0, 2 * Mul(q / 2, g))
  }

  ghost predicate Divides(g: nat, p: nat) { exists q: nat :: p == Mul(q, g) }

  // ---- Addition ----

  lemma {:induction false} AddZero(p: nat)
    ensures Add(p, 0) == p && Add(0, p) == p && Add(p, p) == 0
  {
    if p > 0 {
      AddZero(p / 2);
    }
  }

  lemma {:induction false} AddCommutes(p: nat, q: nat)
    ensures Add(p, q) == Add(q, p)
    decreases p + q
  {
    if p + q > 0 {
      AddCommutes(p / 2, q / 2);
    }
  }

  lemma AddHalf(p: nat, q: nat)
    ensures Add(p, q) / 2 == Add(p / 2, q / 2)
    ensures Add(p, q) % 2 == if p % 2 != q % 2 then 1 else 0
  {
  }

  lemma AddBits(p: nat, a: nat, q: nat, b: nat)
    requires a < 2 && b < 2
    ensures Add(2 * p + a, 2 * q + b) == 2 * Add(p, q) + (if a != b then 1 else 0)
  {
    AddHalf(2 * p + a, 2 * q + b);
  }

  lemma {:induction false} AddAssociates(p: nat, q: nat, r: nat)
    ensures Add(Add(p, q), r) == Add(p, Add(q, r))
    decreases p + q + r
  {
    if p + q + r > 0 {
      AddHalf(p, q);
      AddHalf(q, r);
      AddHalf(Add(p, q), r);
      AddHalf(p, Add(q, r));
      AddAssociates(p / 2, q / 2, r / 2);
    }
  }

  /** (p + q) + (r + s) == (p + r) + (q + s) */
  lemma AddMiddle(p: nat, q: nat, r: nat, s: nat)
    ensures Add(Add(p, q), Add(r, s)) == Add(Add(p, r), Add(q, s))
  {
    AddAssociates(p, q, Add(r, s));
    AddAssociates(q, r, s);
    AddCommutes(q, r);
    AddAssociates(r, q, s);
    AddAssociates(p, r, Add(q, s));
  }

  /** What is added on both sides cancels; what is added twice goes away. */
  lemma AddCancels(p: nat, q: nat, r: nat)
    ensures Add(Add(p, q), q) == p
    ensures Add(p, r) == Add(q, r) ==> p == q
    ensures Add(p, q) == r <==> Add(r, q) == p
    ensures Add(p, q) == 0 <==> p == q
  {
    AddAssociates(p, q, q);
    AddZero(q);
    AddZero(p);
    AddAssociates(p, r, r);
    AddAssociates(q, r, r);
    AddZero(r);
    AddAssociates(r, q, q);
    AddCommutes(p, q);
  }

  lemma AddDouble(p: nat, q: nat)
    ensures Add(2 * p, 2 * q) == 2 * Add(p, q)
  {
    AddHalf(2 * p, 2 * q);
  }

  lemma {:induction false} AddShift(p: nat, q: nat, n: nat)
    ensures Add(Shift(p, n), Shift(q, n)) == Shift(Add(p, q), n)
  {
    if n > 0 {
      AddShift(p, q, n - 1);
      AddDouble(Shift(p, n - 1), Shift(q, n - 1));
    }
  }

  /** Bits that do not meet are added as numbers are. */
  lemma {:induction false} AddDisjoint(p: nat, q: nat, n: nat)
    requires q < Shift(1, n)
    ensures Add(Shift(p, n), q) == Shift(p, n) + q
  {
    if n == 0 {
      AddZero(p);
    } else {
      AddDisjoint(p, q / 2, n - 1);
      AddHalf(Shift(p, n), q);
    }
  }

  lemma {:induction false} AddBound(p: nat, q: nat, n: nat)
    requires p < Shift(1, n) && q < Shift(1, n)
    ensures Add(p, q) < Shift(1, n)
  {
    if n == 0 {
    } else {
      AddBound(p / 2, q / 2, n - 1);
      AddHalf(p, q);
    }
  }

  lemma {:induction false} ShiftSum(p: nat, q: nat, n: nat)
    ensures Shift(p + q, n) == Shift(p, n) + Shift(q, n)
  {
    if n > 0 {
      ShiftSum(p, q, n - 1);
    }
  }

  lemma {:induction false} ShiftShift(p: nat, m: nat, n: nat)
    ensures Shift(Shift(p, m), n) == Shift(p, m + n)
  {
    if n > 0 {
      ShiftShift(p, m, n - 1);
    }
  }

  /** A polynomial with a term x^n, and one of lower degree. */
  lemma AddTop(p: nat, q: nat, n: nat)
    requires Shift(1, n) <= p < 2 * Shift(1, n) && q < Shift(1, n)
    ensures Shift(1, n) <= Add(p, q) < 2 * Shift(1, n)
  {
    var low := p - Shift(1, n);
    AddDisjoint(1, low, n);
    AddBound(low, q, n);
    AddAssociates(Shift(1, n), low, q);
    AddDisjoint(1, Add(low, q), n);
  }

  // ---- Multiplication ----

  lemma MulStep(q: nat, g: nat)
    ensures Mul(q, g) == Add(if q % 2 == 1 then g else 0, 2 * Mul(q / 2, g))
  {
    AddZero(0);
  }

  lemma MulDouble(q: nat, g: nat)
    ensures Mul(2 * q, g) == 2 * Mul(q, g)
  {
    MulStep(2 * q, g);
    AddZero(2 * Mul(q, g));
  }

  lemma {:induction false} MulShift(q: nat, g: nat, n: nat)
    ensures Mul(Shift(q, n), g) == Shift(Mul(q, g), n)
  {
    if n > 0 {
      MulShift(q, g, n - 1);
      MulDouble(Shift(q, n - 1), g);
    }
  }

  lemma {:induction false} MulAdd(q: nat, r: nat, g: nat)
    ensures Mul(Add(q, r), g) == Add(Mul(q, g), Mul(r, g))
    decreases q + r
  {
    if q + r == 0 {
    } else {
      MulAdd(q / 2, r / 2, g);
      AddHalf(q, r);
      MulStep(q, g);
      MulStep(r, g);
      MulStep(Add(q, r), g);
      AddDouble(Mul(q / 2, g), Mul(r / 2, g));
      var gq, gr := if q % 2 == 1 then g else 0, if r % 2 == 1 then g else 0;
      AddMiddle(gq, 2 * Mul(q / 2, g), gr, 2 * Mul(r / 2, g));
      AddZero(g);
      AddZero(0);
    }
  }

  /** The product with a polynomial of degree d has degree at least d, unless it is zero. */
  lemma {:induction false} MulDegree(q: nat, g: nat, d: nat) returns (k: nat)
    requires q > 0 && Shift(1, d) <= g < 2 * Shift(1, d)
    ensures k >= d && Shift(1, k) <= Mul(q, g) < 2 * Shift(1, k)
  {
    if q == 1 {
      k := d;
      MulStep(1, g);
      AddZero(g);
    } else {
      var k0 := MulDegree(q / 2, g, d);
      k := k0 + 1;
      ShiftMonotone(d, k0);
      MulStep(q, g);
      AddCommutes(if q % 2 == 1 then g else 0, 2 * Mul(q / 2, g));
      AddTop(2 * Mul(q / 2, g), if q % 2 == 1 then g else 0, k);
    }
  }

  lemma Powers()
    ensures Shift(1, 8) == 0x100 && Shift(1, 15) == 0x8000 && Shift(1, 16) == 0x1_0000
  {
    assert Shift(1, 4) == 16;
    assert Shift(1, 12) == 0x1000;
  }

  lemma {:induction false} ShiftMonotone(m: nat, n: nat)
    requires m <= n
    ensures Shift(1, m) <= Shift(1, n)
  {
    if m < n {
      ShiftMonotone(m, n - 1);
    }
  }

  /** Quotient and remainder are unique. */
  lemma DivisionUnique(q: nat, r: nat, q': nat, r': nat, g: nat, d: nat)
    requires Shift(1, d) <= g < 2 * Shift(1, d) && r < Shift(1, d) && r' < Shift(1, d)
    requires Add(Mul(q, g), r) == Add(Mul(q', g), r')
    ensures q == q' && r == r'
  {
    var e := Add(q, q');
    MulAdd(q, q', g);
    AddMiddle(Mul(q, g), r, Mul(q', g), r');
    AddZero(Add(Mul(q, g), r));
    AddCancels(Mul(e, g), Add(r, r'), 0);
    AddBound(r, r', d);
    if e > 0 {
      var k := MulDegree(e, g, d);
      ShiftMonotone(d, k);
    }
    AddCancels(q, q', 0);
    AddCancels(r, r', 0);
  }

  /** A factor x can be dropped when g has a constant term. */
  lemma {:induction false} DropShift(g: nat, p: nat, n: nat)
    requires g % 2 == 1 && Divides(g, Shift(p, n))
    ensures Divides(g, p)
  {
    if n > 0 {
      var q: nat :| Shift(p, n) == Mul(q, g);
      MulStep(q, g);
      AddHalf(if q % 2 == 1 then g else 0, 2 * Mul(q / 2, g));
      assert q % 2 == 0;
      AddZero(2 * Mul(q / 2, g));
      assert Shift(p, n - 1) == Mul(q / 2, g);
      DropShift(g, p, n - 1);
    }
  }

  // ---- Parity: the value at x = 1 ----

  /** Whether the number of terms is odd. */
  function Odd(p: nat): bool { p != 0 && (p % 2 == 1) != Odd(p / 2) }

  lemma {:induction false} OddAdd(p: nat, q: nat)
    ensures Odd(Add(p, q)) == (Odd(p) != Odd(q))
    decreases p + q
  {
    if p + q > 0 {
      OddAdd(p / 2, q / 2);
      AddHalf(p, q);
      OddStep(p);
      OddStep(q);
      OddStep(Add(p, q));
    }
  }

  lemma OddStep(p: nat)
    ensures Odd(p) == ((p % 2 == 1) != Odd(p / 2))
  {
  }

  /** A multiple of a polynomial with an even number of terms has an even number of terms. */
  lemma {:induction false} MulEven(q: nat, g: nat)
    requires !Odd(g)
    ensures !Odd(Mul(q, g))
  {
    if q > 0 {
      MulEven(q / 2, g);
      OddStep(2 * Mul(q / 2, g));
      OddAdd(if q % 2 == 1 then g else 0, 2 * Mul(q / 2, g));
    }
  }
}
