/** What the CRC misses: which bursts of 17 bits, and which pairs of bits. The second question is that
    of the order of x modulo the polynomial, which is 32767 = 7 * 31 * 151. */
module CrcOrder {
  import opened Arithmetic
  import opened CrcSpec
  import opened CrcAgreement
  import opened Gf2Polynomials
  import opened CrcProperties

  // ---- Multiplication on the right, and multiples ----

  lemma {:induction false} MulDoubleRight(q: nat, g: nat)
    ensures Mul(q, 2 * g) == 2 * Mul(q, g)
  {
    if q > 0 {
      MulDoubleRight(q / 2, g);
      AddDouble(if q % 2 == 1 then g else 0, 2 * Mul(q / 2, g));
    }
  }

  lemma AddBit(h: nat, b: nat)
    requires b < 2
    ensures Add(b, 2 * h) == 2 * h + b
  {
    AddBits(0, b, h, 0);
    AddZero(h);
  }

  lemma {:induction false} MulOne(q: nat)
    ensures Mul(q, 1) == q
  {
    if q > 0 {
      MulOne(q / 2);
      AddBit(q / 2, q % 2);
    }
  }

  lemma {:induction false} MulPower(q: nat, n: nat)
    ensures Mul(q, Shift(1, n)) == Shift(q, n)
  {
    if n == 0 {
      MulOne(q);
    } else {
      MulPower(q, n - 1);
      MulDoubleRight(q, Shift(1, n - 1));
    }
  }

  lemma {:induction false} MulAddRight(q: nat, g: nat, h: nat)
    ensures Mul(q, Add(g, h)) == Add(Mul(q, g), Mul(q, h))
  {
    AddZero(0);
    if q > 0 {
      MulAddRight(q / 2, g, h);
      AddDouble(Mul(q / 2, g), Mul(q / 2, h));
      var bit := q % 2 == 1;
      AddMiddle(if bit then g else 0, 2 * Mul(q / 2, g), if bit then h else 0, 2 * Mul(q / 2, h));
    }
  }

  lemma DividesSelf(g: nat)
    ensures Divides(g, g)
  {
    MulStep(1, g);
    AddZero(g);
  }

  lemma DividesAdd(g: nat, p: nat, q: nat)
    requires Divides(g, p) && Divides(g, q)
    ensures Divides(g, Add(p, q))
  {
    var a: nat :| p == Mul(a, g);
    var b: nat :| q == Mul(b, g);
    MulAdd(a, b, g);
  }

  lemma DividesShift(g: nat, p: nat, n: nat)
    requires Divides(g, p)
    ensures Divides(g, Shift(p, n))
  {
    var a: nat :| p == Mul(a, g);
    MulShift(a, g, n);
  }

  lemma DividesZero(g: nat)
    ensures Divides(g, 0)
  {
    assert Mul(0, g) == 0;
  }

  lemma {:induction false} DividesMul(g: nat, q: nat, p: nat)
    requires Divides(g, p)
    ensures Divides(g, Mul(q, p))
  {
    DividesZero(g);
    if q > 0 {
      DividesMul(g, q / 2, p);
      DividesShift(g, Mul(q / 2, p), 1);
      assert Shift(Mul(q / 2, p), 1) == 2 * Mul(q / 2, p) by {
        assert Shift(Mul(q / 2, p), 0) == Mul(q / 2, p);
      }
      DividesAdd(g, if q % 2 == 1 then p else 0, 2 * Mul(q / 2, p));
    }
  }

  // ---- Bursts of 17 bits ----

  /** Messages of the same length that differ inside 17 consecutive bits have the same CRC exactly
      when they are equal or the 17 bits of the difference are the polynomial itself. */
  lemma Bursts17(c: bv16, m1: seq<bv8>, m2: seq<bv8>, w: nat, s: nat)
    requires |m1| == |m2| && w < 0x2_0000 && Add(Number(m1), Number(m2)) == Shift(w, s)
    ensures Crc(CrcByte, c, m1) == Crc(CrcByte, c, m2) <==> w == 0 || w == G
  {
    SameCrcIffDivides(c, m1, m2);
    ShiftedMultiple(w, s);
  }

  lemma ShiftedMultiple(w: nat, s: nat)
    requires w < 0x2_0000
    ensures Divides(G, Shift(w, s)) <==> w == 0 || w == G
  {
    if w == 0 || w == G {
      DividesZero(G);
      DividesSelf(G);
      DividesShift(G, w, s);
    } else if Divides(G, Shift(w, s)) {
      DropShift(G, w, s);
      LowMultiple(w);
    }
  }

  /** The only multiples of degree at most 16 are 0 and the polynomial. */
  lemma LowMultiple(w: nat)
    requires w < 0x2_0000 && Divides(G, w)
    ensures w == 0 || w == G
  {
    Powers();
    if w >= 0x1_0000 {
      DividesSelf(G);
      DividesAdd(G, w, G);
      ReduceTop(w - 0x1_0000, G - 0x1_0000);
      AddBound(w - 0x1_0000, G - 0x1_0000, 16);
      NoLowMultiple(Add(w, G));
      AddCancels(w, G, 0);
    } else {
      NoLowMultiple(w);
    }
  }

  lemma NoLowMultiple(w: nat)
    requires w < 0x1_0000 && Divides(G, w)
    ensures w == 0
  {
    var q: nat :| w == Mul(q, G);
    Powers();
    if q > 0 {
      var k := MulDegree(q, G, 16);
      ShiftMonotone(16, k);
    }
  }

  // ---- Congruence modulo the polynomial ----

  ghost predicate Cong(p: nat, r: nat) { Divides(G, Add(p, r)) }

  lemma CongSame(p: nat)
    ensures Cong(p, p)
  {
    AddZero(p);
    DividesZero(G);
  }

  lemma CongTransitive(p: nat, r: nat, s: nat)
    requires Cong(p, r) && Cong(r, s)
    ensures Cong(p, s)
  {
    DividesAdd(G, Add(p, r), Add(r, s));
    AddAssociates(p, r, Add(r, s));
    AddAssociates(r, r, s);
    AddZero(r);
    AddZero(s);
  }

  lemma CongAdd(p: nat, r: nat, q: nat, s: nat)
    requires Cong(p, r) && Cong(q, s)
    ensures Cong(Add(p, q), Add(r, s))
  {
    DividesAdd(G, Add(p, r), Add(q, s));
    AddMiddle(p, r, q, s);
  }

  lemma CongShift(p: nat, r: nat, n: nat)
    requires Cong(p, r)
    ensures Cong(Shift(p, n), Shift(r, n))
  {
    DividesShift(G, Add(p, r), n);
    AddShift(p, r, n);
  }

  lemma CongMul(q: nat, p: nat, r: nat)
    requires Cong(p, r)
    ensures Cong(Mul(q, p), Mul(q, r))
  {
    DividesMul(G, q, Add(p, r));
    MulAddRight(q, p, r);
  }

  lemma CongStep(c: bv16, s: bv16)
    requires s == Step(c)
    ensures Cong(2 * Value(c), Value(s))
  {
    ValueStep(c, s);
    var d := 2 * Value(c);
    if c & 0x8000 != 0 {
      AddAssociates(d, d, G);
      AddZero(d);
      AddZero(G);
      DividesSelf(G);
    } else {
      CongSame(d);
    }
  }

  // ---- Products of registers ----

  /** One turn of multiplication: times x, plus r if the bit is set. */
  function Turn(acc: bv16, r: bv16, bit: bool): bv16 { if bit then Step(acc) ^ r else Step(acc) }

  /** r times the low k bits of s. */
  function Product(r: bv16, s: bv16, k: nat): bv16
    decreases k
  {
    if k == 0 then 0 else Turn(Product(r, s >> 1, k - 1), r, s & 1 == 1)
  }

  /** One turn on polynomials: from p, congruent to a, to twice that plus r if the bit is set. */
  lemma TurnNumbers(p: nat, a: nat, s: nat, r: nat, bit: bool, t: nat)
    requires Cong(p, a) && Cong(2 * a, s) && t == (if bit then Add(s, r) else s)
    ensures Cong(Add(if bit then r else 0, 2 * p), t)
  {
    CongShift(p, a, 1);
    assert Shift(p, 0) == p && Shift(a, 0) == a;
    CongTransitive(2 * p, 2 * a, s);
    CongSame(r);
    CongAdd(2 * p, s, r, r);
    AddCommutes(2 * p, r);
    AddZero(2 * p);
  }

  lemma TurnValue(s: bv16, r: bv16, bit: bool, t: bv16)
    requires if bit then Sum(s, r, t) else t == s
    ensures Value(t) == if bit then Add(Value(s), Value(r)) else Value(s)
  {
    if bit {
      LowBitsSum(s, r, t, 16);
    }
  }

  lemma CongTurnBy(acc: bv16, r: bv16, bit: bool, s: bv16, t: bv16, p: nat)
    requires s == Step(acc) && (if bit then Sum(s, r, t) else t == s) && Cong(p, Value(acc))
    ensures Cong(Add(if bit then Value(r) else 0, 2 * p), Value(t))
  {
    CongStep(acc, s);
    TurnValue(s, r, bit, t);
    TurnNumbers(p, Value(acc), Value(s), Value(r), bit, Value(t));
  }

  lemma TurnIs(acc: bv16, r: bv16, bit: bool, s: bv16, t: bv16)
    requires t == Turn(acc, r, bit) && s == Step(acc)
    ensures if bit then Sum(s, r, t) else t == s
  {
  }

  lemma CongTurn(acc: bv16, r: bv16, bit: bool, t: bv16, p: nat)
    requires t == Turn(acc, r, bit) && Cong(p, Value(acc))
    ensures Cong(Add(if bit then Value(r) else 0, 2 * p), Value(t))
  {
    var s := Step(acc);
    TurnIs(acc, r, bit, s, t);
    CongTurnBy(acc, r, bit, s, t, p);
  }

  lemma LowBitsTimes(s: bv16, k: nat, v: nat)
    requires k > 0
    ensures Mul(LowBits(s, k), v) == Add(if s & 1 == 1 then v else 0, 2 * Mul(LowBits(s >> 1, k - 1), v))
  {
    MulStep(LowBits(s, k), v);
  }

  lemma {:induction false} CongProduct(r: bv16, s: bv16, k: nat)
    ensures Cong(Mul(LowBits(s, k), Value(r)), Value(Product(r, s, k)))
    decreases k
  {
    if k == 0 {
      ZeroBits(16);
      CongSame(0);
    } else {
      CongProduct(r, s >> 1, k - 1);
      LowBitsTimes(s, k, Value(r));
      CongTurn(Product(r, s >> 1, k - 1), r, s & 1 == 1, Product(r, s, k), Mul(LowBits(s >> 1, k - 1), Value(r)));
    }
  }

  /** Four turns, by the low bits of s from the highest down. */
  function FourTurns(acc: bv16, r: bv16, s: bv16): bv16 {
    Turn(Turn(Turn(Turn(acc, r, s & 8 != 0), r, s & 4 != 0), r, s & 2 != 0), r, s & 1 != 0)
  }

  lemma LowNibble(s: bv16)
    ensures (s & 1 == 1) == (s & 1 != 0) && ((s >> 1) & 1 == 1) == (s & 2 != 0)
    ensures ((s >> 2) & 1 == 1) == (s & 4 != 0) && ((s >> 3) & 1 == 1) == (s & 8 != 0)
    ensures (s >> 1) >> 1 == s >> 2 && (s >> 2) >> 1 == s >> 3 && (s >> 3) >> 1 == s >> 4
  {
  }

  lemma FourMore(r: bv16, s: bv16, k: nat)
    ensures Product(r, s, k + 4) == FourTurns(Product(r, s >> 4, k), r, s)
  {
    LowNibble(s);
    assert Product(r, s >> 3, k + 1) == Turn(Product(r, s >> 4, k), r, s & 8 != 0);
    assert Product(r, s >> 2, k + 2) == Turn(Product(r, s >> 3, k + 1), r, s & 4 != 0);
    assert Product(r, s >> 1, k + 3) == Turn(Product(r, s >> 2, k + 2), r, s & 2 != 0);
  }

  function Times(r: bv16, s: bv16): bv16 {
    FourTurns(FourTurns(FourTurns(FourTurns(0, r, s >> 12), r, s >> 8), r, s >> 4), r, s)
  }

  lemma TimesFrom(r: bv16, s: bv16, s4: bv16, s8: bv16, s12: bv16)
    requires s >> 4 == s4 && s4 >> 4 == s8 && s8 >> 4 == s12
    ensures FourTurns(FourTurns(FourTurns(FourTurns(0, r, s12), r, s8), r, s4), r, s) == Product(r, s, 16)
  {
    FourMore(r, s12, 0);
    FourMore(r, s8, 4);
    FourMore(r, s4, 8);
    FourMore(r, s, 12);
  }

  lemma TimesIsProduct(r: bv16, s: bv16)
    ensures Times(r, s) == Product(r, s, 16)
  {
    assert (s >> 4) >> 4 == s >> 8 && (s >> 8) >> 4 == s >> 12;
    TimesFrom(r, s, s >> 4, s >> 8, s >> 12);
  }

  // ---- Powers of x ----

  /** x^a is r modulo the polynomial. */
  ghost predicate Power(a: nat, r: bv16) { Cong(Shift(1, a), Value(r)) }

  lemma PowerTimes(a: nat, r: bv16, b: nat, s: bv16, t: bv16)
    requires Power(a, r) && Power(b, s) && t == Times(r, s)
    ensures Power(a + b, t)
  {
    TimesIsProduct(r, s);
    CongProduct(r, s, 16);
    ShiftShift(1, b, a);
    CongShift(Shift(1, b), Value(s), a);
    MulPower(Value(s), a);
    CongMul(Value(s), Shift(1, a), Value(r));
    CongTransitive(Shift(1, a + b), Shift(Value(s), a), Mul(Value(s), Value(r)));
    CongTransitive(Shift(1, a + b), Mul(Value(s), Value(r)), Value(t));
  }

  lemma PowerOne()
    ensures Power(1, 0x2)
  {
    ZeroBits(15);
    assert (1 as bv16) >> 1 == 0 && (1 as bv16) & 1 == 1;
    assert Value(1) == 1;
    CongStep(1, 2);
    assert Shift(1, 0) == 1;
  }

  lemma LowPowers()
    ensures Power(1, 0x2)
    ensures Power(2, 0x4)
    ensures Power(4, 0x10)
    ensures Power(8, 0x100)
    ensures Power(16, 0x1021)
    ensures Power(32, 0x3730)
  {
    PowerOne();
    PowerTimes(1, 0x2, 1, 0x2, 0x4);
    PowerTimes(2, 0x4, 2, 0x4, 0x10);
    PowerTimes(4, 0x10, 4, 0x10, 0x100);
    PowerTimes(8, 0x100, 8, 0x100, 0x1021);
    PowerTimes(16, 0x1021, 16, 0x1021, 0x3730);
  }

  lemma MiddlePowers()
    ensures Power(1, 0x2)
    ensures Power(8, 0x100)
    ensures Power(16, 0x1021)
    ensures Power(32, 0x3730)
    ensures Power(64, 0xb861)
    ensures Power(128, 0xaefc)
    ensures Power(512, 0x13fc)
    ensures Power(1024, 0x36c4)
    ensures Power(4096, 0xaa9e)
  {
    LowPowers();
    PowerTimes(32, 0x3730, 32, 0x3730, 0xb861);
    PowerTimes(64, 0xb861, 64, 0xb861, 0xaefc);
    PowerTimes(128, 0xaefc, 128, 0xaefc, 0x8e29);
    PowerTimes(256, 0x8e29, 256, 0x8e29, 0x13fc);
    PowerTimes(512, 0x13fc, 512, 0x13fc, 0x36c4);
    PowerTimes(1024, 0x36c4, 1024, 0x36c4, 0xfd50);
    PowerTimes(2048, 0xfd50, 2048, 0xfd50, 0xaa9e);
  }

  lemma HighPowers()
    ensures Power(32768, 0x2)
  {
    MiddlePowers();
    PowerTimes(4096, 0xaa9e, 4096, 0xaa9e, 0x881c);
    PowerTimes(8192, 0x881c, 8192, 0x881c, 0x4458);
    PowerTimes(16384, 0x4458, 16384, 0x4458, 0x2);
  }

  lemma Power217()
    ensures Power(217, 0x48e3)
  {
    MiddlePowers();
    PowerTimes(1, 0x2, 8, 0x100, 0x200);
    PowerTimes(9, 0x200, 16, 0x1021, 0x6662);
    PowerTimes(25, 0x6662, 64, 0xb861, 0xde8a);
    PowerTimes(89, 0xde8a, 128, 0xaefc, 0x48e3);
  }

  lemma Power1057()
    ensures Power(1057, 0xf2af)
  {
    MiddlePowers();
    PowerTimes(1, 0x2, 32, 0x3730, 0x6e60);
    PowerTimes(33, 0x6e60, 1024, 0x36c4, 0xf2af);
  }

  lemma Power4681()
    ensures Power(4681, 0x2c42)
  {
    MiddlePowers();
    PowerTimes(1, 0x2, 8, 0x100, 0x200);
    PowerTimes(9, 0x200, 64, 0xb861, 0x8fa6);
    PowerTimes(73, 0x8fa6, 512, 0x13fc, 0x4500);
    PowerTimes(585, 0x4500, 4096, 0xaa9e, 0x2c42);
  }

  // ---- The order of x ----

  /** x^d is 1 modulo the polynomial. */
  ghost predicate Root(d: nat) { Cong(Shift(1, d), 1) }

  lemma RootZero()
    ensures Root(0)
  {
    CongSame(1);
    assert Shift(1, 0) == 1;
  }

  lemma RootAdd(a: nat, b: nat)
    requires Root(a) && Root(b)
    ensures Root(a + b)
  {
    CongShift(Shift(1, a), 1, b);
    ShiftShift(1, a, b);
    CongTransitive(Shift(1, a + b), Shift(1, b), 1);
  }

  lemma RootSubtract(a: nat, b: nat)
    requires Root(a + b) && Root(b)
    ensures Root(a)
  {
    AddCommutes(Shift(1, b), 1);
    CongTransitive(Shift(1, a + b), 1, Shift(1, b));
    ShiftShift(1, a, b);
    AddShift(Shift(1, a), 1, b);
    DropShift(G, Add(Shift(1, a), 1), b);
  }

  /** The sum of n times u. */
  function Repeat(u: nat, n: nat): nat { if n == 0 then 0 else u + Repeat(u, n - 1) }

  lemma {:induction false} RepeatIs(u: nat, n: nat)
    ensures Repeat(u, n) == u * n
  {
    if n > 0 {
      RepeatIs(u, n - 1);
      Distribute(n - 1, 1, u);
    }
  }

  lemma {:induction false} RepeatAdd(u: nat, a: nat, b: nat)
    ensures Repeat(u, a + b) == Repeat(u, a) + Repeat(u, b)
  {
    if b > 0 {
      RepeatAdd(u, a, b - 1);
    }
  }

  lemma RepeatCommutes(u: nat, n: nat)
    ensures Repeat(u, n) == Repeat(n, u)
  {
    RepeatIs(u, n);
    RepeatIs(n, u);
  }

  lemma {:induction false} RootRepeat(d: nat, n: nat)
    requires Root(d)
    ensures Root(Repeat(d, n))
  {
    if n == 0 {
      RootZero();
    } else {
      RootRepeat(d, n - 1);
      RootAdd(d, Repeat(d, n - 1));
    }
  }

  lemma Root32767()
    ensures Root(32767)
  {
    HighPowers();
    TwoIsX();
    assert Shift(1, 32768) == Shift(Shift(1, 32767), 1) by {
      ShiftShift(1, 32767, 1);
    }
    assert Shift(1, 1) == 2 by {
      assert Shift(1, 0) == 1;
    }
    AddShift(Shift(1, 32767), 1, 1);
    DropShift(G, Add(Shift(1, 32767), 1), 1);
  }

  lemma TwoIsX()
    ensures Value(0x1) == 1 && Value(0x2) == 2
  {
    ZeroBits(15);
    ZeroBits(14);
    assert (1 as bv16) >> 1 == 0 && (1 as bv16) & 1 == 1 && (2 as bv16) >> 1 == 1 && (2 as bv16) & 1 == 0;
    assert LowBits(1, 15) == 1;
  }

  /** A power whose register is not 1 is not 1. */
  lemma NotRoot(d: nat, r: bv16)
    requires Power(d, r) && r != 1
    ensures !Root(d)
  {
    if Root(d) {
      AddCommutes(Shift(1, d), 1);
      CongTransitive(1, Shift(1, d), Value(r));
      TwoIsX();
      ValueBound(r);
      Powers();
      AddBound(1, Value(r), 16);
      NoLowMultiple(Add(1, Value(r)));
      AddCancels(1, Value(r), 0);
      ValueInjective(1, r);
    }
  }

  lemma MultipleSelf(g: nat)
    ensures Multiple(g, g)
  {
    assert g == 1 * g;
  }

  lemma MultipleAdd(a: nat, b: nat, g: nat)
    requires Multiple(a, g) && Multiple(b, g)
    ensures Multiple(a + b, g)
  {
    var k: nat :| a == k * g;
    var l: nat :| b == l * g;
    Distribute(k, l, g);
    assert a + b == (k + l) * g;
  }

  lemma RootReduce(u: nat, a: nat, b: nat)
    requires Root(Repeat(u, a + b)) && Root(Repeat(u, b))
    ensures Root(Repeat(u, a))
  {
    RepeatAdd(u, a, b);
    RootSubtract(Repeat(u, a), Repeat(u, b));
  }

  /** Euclid's algorithm on the roots that are a and b times u. */
  lemma {:induction false} RootDivisor(u: nat, a: nat, b: nat) returns (g: nat)
    requires a > 0 && b > 0 && Root(Repeat(u, a)) && Root(Repeat(u, b))
    ensures g > 0 && Root(Repeat(u, g)) && Multiple(a, g) && Multiple(b, g)
    decreases a + b
  {
    if a == b {
      g := a;
      MultipleSelf(g);
    } else if a > b {
      RootReduce(u, a - b, b);
      g := RootDivisor(u, a - b, b);
      MultipleAdd(a - b, b, g);
    } else {
      RootReduce(u, b - a, a);
      g := RootDivisor(u, a, b - a);
      MultipleAdd(a, b - a, g);
    }
  }

  ghost predicate Prime(p: nat) { p > 1 && forall g: nat :: Multiple(p, g) ==> g == 1 || g == p }

  lemma Primes()
    ensures Prime(7) && Prime(31) && Prime(151)
  {
    forall g: nat, p: nat | (p == 7 || p == 31 || p == 151) && Multiple(p, g)
      ensures g == 1 || g == p
    {
      var k: nat :| p == k * g;
      TwelveSuffices(k, g);
      if k <= 12 {
        TrialDivision(p, k, g);
      } else {
        TrialDivision(p, g, k);
      }
    }
  }

  lemma TwelveSuffices(k: nat, g: nat)
    ensures k > 12 && g > 12 ==> k * g >= 169
  {
    if k > 12 && g > 12 {
      assert (k - 13) * (g - 13) >= 0;
    }
  }

  lemma TrialDivision(p: nat, k: nat, g: nat)
    requires p == k * g && k <= 12 && (p == 7 || p == 31 || p == 151)
    ensures (k == 1 && g == p) || (k == p && g == 1)
  {
    assert k == 0 || k == 1 || k == 2 || k == 3 || k == 4 || k == 5 || k == 6 || k == 7 || k == 8 || k == 9
           || k == 10 || k == 11 || k == 12;
  }

  /** If x is 1 to the power p times u, for a prime p, and not to the power u, then p divides every d
      with x^d = 1. */
  lemma PrimeDivides(u: nat, p: nat, d: nat)
    requires Prime(p) && Root(Repeat(u, p)) && !Root(u) && Root(d)
    ensures Multiple(d, p)
  {
    if d == 0 {
      assert d == 0 * p;
    } else {
      RootRepeat(d, u);
      RepeatCommutes(d, u);
      var g := RootDivisor(u, d, p);
      assert Repeat(u, 1) == u + Repeat(u, 0) == u;
    }
  }

  lemma Combine(d: nat, a: int, b: int, e: int)
    requires d == 7 * a && d == 31 * b && d == 151 * e
    ensures d % 32767 == 0
  {
    assert d == 217 * (9 * b - 2 * a);
    MultipleRemainder(d, 23 * (9 * b - 2 * a) - 16 * e);
  }

  lemma MultipleRemainder(d: nat, k: int)
    requires d == 32767 * k
    ensures d % 32767 == 0
  {
  }

  /** The order of x: x^d is 1 exactly for the multiples of 32767. */
  lemma OrderOfX(d: nat)
    ensures Root(d) <==> d % 32767 == 0
  {
    Root32767();
    if d % 32767 == 0 {
      RootRepeat(32767, d / 32767);
      RepeatIs(32767, d / 32767);
    } else if Root(d) {
      OnlyMultiples(d);
    }
  }

  lemma RootsOfPrimes()
    ensures Root(Repeat(4681, 7)) && Root(Repeat(1057, 31)) && Root(Repeat(217, 151))
  {
    Root32767();
    RepeatIs(4681, 7);
    RepeatIs(1057, 31);
    RepeatIs(217, 151);
  }

  lemma ThreePrimes(d: nat)
    requires Root(d)
    ensures Multiple(d, 7) && Multiple(d, 31) && Multiple(d, 151)
  {
    Primes();
    RootsOfPrimes();
    NotRoots();
    PrimeDivides(4681, 7, d);
    PrimeDivides(1057, 31, d);
    PrimeDivides(217, 151, d);
  }

  lemma OnlyMultiples(d: nat)
    requires Root(d)
    ensures d % 32767 == 0
  {
    ThreePrimes(d);
    var a: nat :| d == a * 7;
    var b: nat :| d == b * 31;
    var e: nat :| d == e * 151;
    Combine(d, a, b, e);
  }

  lemma NotRoots()
    ensures !Root(217) && !Root(1057) && !Root(4681)
  {
    Power217();
    NotRoot(217, 0x48e3);
    Power1057();
    NotRoot(1057, 0xf2af);
    Power4681();
    NotRoot(4681, 0x2c42);
  }

  // ---- Two wrong bits ----

  /** Messages that differ in exactly two bits, d apart, have the same CRC exactly when 32767 divides d. */
  lemma TwoBitErrors(c: bv16, m1: seq<bv8>, m2: seq<bv8>, i: nat, d: nat)
    requires |m1| == |m2| && d > 0 && Add(Number(m1), Number(m2)) == Add(Shift(1, i), Shift(1, i + d))
    ensures Crc(CrcByte, c, m1) == Crc(CrcByte, c, m2) <==> d % 32767 == 0
  {
    SameCrcIffDivides(c, m1, m2);
    OrderOfX(d);
    var e := Add(Shift(1, d), 1);
    ShiftShift(1, d, i);
    AddShift(Shift(1, d), 1, i);
    AddCommutes(Shift(1, i), Shift(1, i + d));
    if Root(d) {
      DividesShift(G, e, i);
    } else if Divides(G, Shift(e, i)) {
      DropShift(G, e, i);
    }
  }

  lemma {:induction false} NumberBound(msg: seq<bv8>)
    ensures Number(msg) < Shift(1, 8 * |msg|)
  {
    if msg != [] {
      var n := |msg| - 1;
      NumberBound(msg[..n]);
      ByteValueBound(msg[n]);
      ShiftEight(Number(msg[..n]));
      ShiftEight(Shift(1, 8 * n));
      ShiftShift(1, 8 * n, 8);
    }
  }

  /** Both bits lie within the messages. */
  lemma BitsWithin(p: nat, q: nat, n: nat, i: nat, j: nat)
    requires p < Shift(1, n) && q < Shift(1, n) && i < j && Add(p, q) == Add(Shift(1, i), Shift(1, j))
    ensures j < n
  {
    AddBound(p, q, n);
    ShiftBelow(i, j);
    AddTop(Shift(1, j), Shift(1, i), j);
    AddCommutes(Shift(1, i), Shift(1, j));
    if j >= n {
      ShiftMonotone(n, j);
    }
  }

  /** In messages of up to 4095 bytes every error of two bits is detected. */
  lemma TwoBitErrorsDetected(c: bv16, m1: seq<bv8>, m2: seq<bv8>, i: nat, d: nat)
    requires |m1| == |m2| < 4096 && d > 0 && Add(Number(m1), Number(m2)) == Add(Shift(1, i), Shift(1, i + d))
    ensures Crc(CrcByte, c, m1) != Crc(CrcByte, c, m2)
  {
    var n := 8 * |m1|;
    BitsOfMessages(m1, m2, i, i + d, n);
    BelowOrder(d, n);
    TwoBitErrors(c, m1, m2, i, d);
  }

  lemma BelowOrder(d: nat, n: nat)
    requires 0 < d < n <= 32767
    ensures d % 32767 != 0
  {
  }

  lemma BitsOfMessages(m1: seq<bv8>, m2: seq<bv8>, i: nat, j: nat, n: nat)
    requires |m1| == |m2| && n == 8 * |m1| && i < j && Add(Number(m1), Number(m2)) == Add(Shift(1, i), Shift(1, j))
    ensures j < n
  {
    NumberBound(m1);
    NumberBound(m2);
    BitsWithin(Number(m1), Number(m2), n, i, j);
  }

  lemma {:induction false} ShiftBelow(m: nat, n: nat)
    requires m < n
    ensures Shift(1, m) < Shift(1, n)
  {
    if m + 1 < n {
      ShiftBelow(m, n - 1);
    } else {
      ShiftMonotone(0, m);
      assert Shift(1, 0) == 1;
    }
  }
}
