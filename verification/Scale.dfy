/** scale32 of tos/system/scale.h: multiply by a/b in 32-bit unsigned arithmetic, rounding to the
    nearest integer. Every product and sum of the code wraps; the theorems say exactly when that
    does no harm. */
module Scaling {
  const WORD: nat := 0x1_0000_0000

  type uint32 = x: int | 0 <= x < WORD

  function Wrap(n: int): uint32 {
    n % WORD
  }

  /** The code, operation by operation. */
  function Scale32(x: uint32, a: uint32, b: uint32): uint32
    requires b > 0
  {
    var xOverB := x / b;
    var xModB := Wrap(x % b * a);
    Wrap(Wrap(xOverB * a) + Wrap(xModB + b / 2) / b)
  }

  /** x * a / b rounded to the nearest integer, halves up. */
  function Rounded(x: nat, a: nat, b: nat): int
    requires b > 0
  {
    (x * a + b / 2) / b
  }

  /** The largest intermediate value of the code before any wrapping. */
  function Intermediate(x: nat, a: nat, b: nat): int
    requires b > 0
  {
    x % b * a + b / 2
  }

  // ---- Arithmetic ----

  lemma DivUnique(n: int, d: int, q: int)
    requires d > 0 && q * d <= n < q * d + d
    ensures n / d == q
  {
    var p := n / d;
    assert p * d <= n < p * d + d;
    Closer(p, q, d);
    Closer(q, p, d);
  }

  lemma Closer(p: int, q: int, d: nat)
    requires p * d < q * d + d
    ensures p <= q
  {
    if p > q {
      Times(q + 1, p, d);
    }
  }

  lemma Times(m: int, n: int, d: nat)
    requires m <= n
    ensures m * d <= n * d
  {
    assert (n - m) * d >= 0;
  }

  /** Whole multiples of d come out of a division. */
  lemma DivPlus(m: int, d: int, n: int)
    requires d > 0
    ensures (m * d + n) / d == m + n / d
  {
    var q := n / d;
    assert q * d <= n < q * d + d;
    assert (m + q) * d == m * d + q * d;
    DivUnique(m * d + n, d, m + q);
  }

  lemma DivMonotone(m: int, n: int, d: int)
    requires d > 0 && m <= n
    ensures m / d <= n / d
  {
    assert m / d * d <= m && n < n / d * d + d;
    Closer(m / d, n / d, d);
  }

  lemma DivNonNegative(n: nat, d: nat)
    requires d > 0
    ensures n / d >= 0
  {
    assert n < n / d * d + d;
    Closer(0, n / d, d);
  }

  lemma WrapAdds(m: int, n: int)
    ensures Wrap(Wrap(m) + n) == Wrap(m + n)
  {
  }

  // ---- What the code computes ----

  /** Splitting x into quotient and remainder first changes nothing over the integers. */
  lemma RoundedSplits(x: nat, a: nat, b: nat)
    requires b > 0
    ensures Rounded(x, a, b) == x / b * a + Intermediate(x, a, b) / b
  {
    var q, m := x / b, x % b;
    assert x == q * b + m;
    assert x * a == (q * b + m) * a == q * a * b + m * a;
    DivPlus(q * a, b, m * a + b / 2);
  }

  lemma CodeSplits(x: uint32, a: uint32, b: uint32)
    requires b > 0
    ensures Scale32(x, a, b) == Wrap(x / b * a + Wrap(Intermediate(x, a, b)) / b)
  {
    WrapAdds(x % b * a, b / 2);
    WrapAdds(x / b * a, Wrap(Intermediate(x, a, b)) / b);
  }

  lemma WholeSplits(x: nat, a: nat, b: nat)
    requires b > 0
    ensures x * a + b / 2 == x / b * a * b + Intermediate(x, a, b)
  {
    var q, m := x / b, x % b;
    assert x == q * b + m;
    assert x * a == (q * b + m) * a == q * a * b + m * a;
  }

  /** What the code computes in every case: the division of x * a + b / 2 after as many whole words as the
      intermediate value holds are lost, modulo a word. */
  lemma ScaleAlways(x: uint32, a: uint32, b: uint32)
    requires b > 0
    ensures var lost := 0x1_0000_0000 * (Intermediate(x, a, b) / 0x1_0000_0000);
            Scale32(x, a, b) == (x * a + b / 2 - lost) / b % 0x1_0000_0000
  {
    var y := Intermediate(x, a, b);
    CodeSplits(x, a, b);
    WholeSplits(x, a, b);
    DivPlus(x / b * a, b, Wrap(y));
  }

  /** The part below the division never exceeds a after it. */
  lemma IntermediateQuotient(x: nat, a: nat, b: nat)
    requires b > 0
    ensures Intermediate(x, a, b) / b <= a
  {
    var m := x % b;
    assert m * a <= (b - 1) * a == a * b - a by { Times(m, b - 1, a); }
    assert Intermediate(x, a, b) < a * b + b;
    if Intermediate(x, a, b) / b > a {
      Times(a + 1, Intermediate(x, a, b) / b, b);
    }
  }

  /** Losing the high part of the intermediate value changes the quotient, by less than a word. */
  lemma LostQuotient(y: nat, b: uint32)
    requires b > 0 && y >= WORD
    ensures Wrap(y) / b < y / b
  {
    var k := y / WORD;
    assert y == k * WORD + Wrap(y) && k >= 1;
    Times(1, k, WORD);
    assert y >= b + Wrap(y);
    DivMonotone(b + Wrap(y), y, b);
    DivPlus(1, b, Wrap(y));
  }

  /** The result s of the code and the intended r as sums with a common part p: w is the wrapped
      quotient and v the full one, and they differ only when the intermediate value y does not fit. */
  ghost predicate Parts(s: int, r: int, y: int, p: int, w: int, v: int) {
    && s == Wrap(p + w) && r == p + v
    && 0 <= p && 0 <= w
    && (if y < WORD then w == v else 0 < v - w < WORD)
  }

  lemma SumCorrect(s: int, r: int, y: int, p: int, w: int, v: int)
    requires Parts(s, r, y, p, w, v)
    ensures s == r <==> y < WORD && r < WORD
  {
  }

  lemma QuotientParts(y: nat, b: uint32, a: uint32)
    requires b > 0 && y / b <= a
    ensures Wrap(y) / b >= 0
    ensures if y < WORD then Wrap(y) / b == y / b else 0 < y / b - Wrap(y) / b < WORD
  {
    DivNonNegative(Wrap(y), b);
    if y >= WORD {
      LostQuotient(y, b);
    }
  }

  lemma PartsNonNegative(x: uint32, a: uint32, b: uint32)
    requires b > 0
    ensures x / b * a >= 0 && Intermediate(x, a, b) >= 0
  {
    DivNonNegative(x, b);
    Times(0, x / b, a);
    Times(0, x % b, a);
  }

  lemma PartsOf(x: uint32, a: uint32, b: uint32, p: int, y: int, w: int, v: int)
    requires b > 0 && p == x / b * a && y == Intermediate(x, a, b) && w == Wrap(y) / b && v == y / b
    ensures Parts(Scale32(x, a, b), Rounded(x, a, b), y, p, w, v)
  {
    CodeSplits(x, a, b);
    RoundedSplits(x, a, b);
    IntermediateQuotient(x, a, b);
    PartsNonNegative(x, a, b);
    QuotientParts(y, b, a);
  }

  /** scale32 rounds x * a / b correctly exactly when the intermediate value and the result fit a
      word. */
  lemma ScaleCorrect(x: uint32, a: uint32, b: uint32)
    requires b > 0
    ensures Scale32(x, a, b) == Rounded(x, a, b) <==> Intermediate(x, a, b) < WORD && Rounded(x, a, b) < WORD
  {
    var p, y := x / b * a, Intermediate(x, a, b);
    var w, v := Wrap(y) / b, y / b;
    PartsOf(x, a, b, p, y, w, v);
    SumCorrect(Scale32(x, a, b), Rounded(x, a, b), y, p, w, v);
  }

  /** The condition on a and b alone: scale32 is right for every x whose result fits a word exactly
      when a * (b - 1) + b / 2 does. */
  lemma ScaleCorrectForAll(a: uint32, b: uint32)
    requires b > 0
    ensures (forall x: uint32 :: Rounded(x, a, b) < WORD ==> Scale32(x, a, b) == Rounded(x, a, b))
      <==> a * (b - 1) + b / 2 < WORD
  {
    if a * (b - 1) + b / 2 < WORD {
      forall x: uint32 | Rounded(x, a, b) < WORD
        ensures Scale32(x, a, b) == Rounded(x, a, b)
      {
        CorrectBelow(x, a, b);
      }
    } else {
      WrongAtLast(a, b);
    }
  }

  lemma IntermediateBound(x: nat, a: nat, b: nat)
    requires b > 0
    ensures Intermediate(x, a, b) <= a * (b - 1) + b / 2
  {
    Times(x % b, b - 1, a);
  }

  lemma CorrectBelow(x: uint32, a: uint32, b: uint32)
    requires b > 0 && a * (b - 1) + b / 2 < WORD && Rounded(x, a, b) < WORD
    ensures Scale32(x, a, b) == Rounded(x, a, b)
  {
    IntermediateBound(x, a, b);
    ScaleCorrect(x, a, b);
  }

  /** Past the bound, x = b - 1 is a witness: its result fits and comes out wrong. */
  lemma WrongAtLast(a: uint32, b: uint32)
    requires b > 0 && a * (b - 1) + b / 2 >= WORD
    ensures var x: uint32 := b - 1; Rounded(x, a, b) < WORD && Scale32(x, a, b) != Rounded(x, a, b)
  {
    var x: uint32 := b - 1;
    DivUnique(x, b, 0);
    assert x % b == x;
    IntermediateQuotient(x, a, b);
    ScaleCorrect(x, a, b);
  }

  /** The header asks for a * b to fit a word. That is enough when a is at least half of b. */
  lemma DocumentedBound(x: uint32, a: uint32, b: uint32)
    requires b > 0 && a * b < WORD && a >= b / 2 && Rounded(x, a, b) < WORD
    ensures Scale32(x, a, b) == Rounded(x, a, b)
  {
    assert a * (b - 1) == a * b - a;
    CorrectBelow(x, a, b);
  }

  /** For a smaller a it is not: the header's bound met, a result that fits, and a wrong value. */
  lemma DocumentedBoundFails()
    ensures 1 * (WORD - 1) < WORD
    ensures Rounded(WORD - 2, 1, WORD - 1) == 1 && Scale32(WORD - 2, 1, WORD - 1) == 0
  {
    DivUnique(WORD - 2 + (WORD - 1) / 2, WORD - 1, 1);
  }

  // ---- What rounding means ----

  /** Within one half of x * a / b. */
  lemma RoundedWithinHalf(x: nat, a: nat, b: nat)
    requires b > 0
    ensures 0 - b <= 2 * (Rounded(x, a, b) * b - x * a) <= b
  {
    var n := x * a + b / 2;
    var r := n / b;
    assert n == r * b + n % b;
  }

  lemma RoundedMonotone(x: nat, y: nat, a: nat, b: nat)
    requires b > 0 && x <= y
    ensures Rounded(x, a, b) <= Rounded(y, a, b)
  {
    Times(x, y, a);
    DivMonotone(x * a + b / 2, y * a + b / 2, b);
  }

  /** What a caller gets: under the bound on a and b, a result within one half, and monotone. */
  lemma ScaleIsRounding(x: uint32, y: uint32, a: uint32, b: uint32)
    requires b > 0 && a * (b - 1) + b / 2 < WORD && x <= y && Rounded(y, a, b) < WORD
    ensures 0 - b <= 2 * (Scale32(x, a, b) * b - x * a) <= b
    ensures Scale32(x, a, b) <= Scale32(y, a, b)
  {
    RoundedMonotone(x, y, a, b);
    CorrectBelow(x, a, b);
    CorrectBelow(y, a, b);
    RoundedWithinHalf(x, a, b);
  }
}
