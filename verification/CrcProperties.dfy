/** What the CRC is: the remainder of the message polynomial, and what it detects. */
module CrcProperties {
  import opened CrcSpec
  import opened CrcAgreement
  import opened Gf2Polynomials

  /** x^16 + x^12 + x^5 + 1, the polynomial of ITU-T Recommendation V.41, section 2. */
  const G: nat := 0x11021

  // ---- Words as polynomials ----

  /** The number in the low k bits of c. */
  function LowBits(c: bv16, k: nat): nat
    decreases k
  {
    if k == 0 then 0 else 2 * LowBits(c >> 1, k - 1) + (if c & 1 == 1 then 1 else 0)
  }

  function Value(c: bv16): nat { LowBits(c, 16) }

  lemma {:induction false} LowBitsBound(c: bv16, k: nat)
    ensures LowBits(c, k) < Shift(1, k)
    decreases k
  {
    if k > 0 {
      LowBitsBound(c >> 1, k - 1);
    }
  }

  lemma SumHalves(a: bv16, b: bv16, c: bv16)
    requires Sum(a, b, c)
    ensures Sum(a >> 1, b >> 1, c >> 1)
    ensures (c & 1 == 1) <==> ((a & 1 == 1) != (b & 1 == 1))
  {
  }

  lemma {:induction false} LowBitsSum(a: bv16, b: bv16, c: bv16, k: nat)
    requires Sum(a, b, c)
    ensures LowBits(c, k) == Add(LowBits(a, k), LowBits(b, k))
    decreases k
  {
    if k > 0 {
      SumHalves(a, b, c);
      LowBitsSum(a >> 1, b >> 1, c >> 1, k - 1);
      JoinBits(LowBits(a >> 1, k - 1), LowBits(b >> 1, k - 1), LowBits(c >> 1, k - 1),
        a & 1 == 1, b & 1 == 1, c & 1 == 1);
    }
  }

  lemma JoinBits(p: nat, q: nat, r: nat, x: bool, y: bool, z: bool)
    requires r == Add(p, q) && z == (x != y)
    ensures 2 * r + (if z then 1 else 0) == Add(2 * p + (if x then 1 else 0), 2 * q + (if y then 1 else 0))
  {
    AddBits(p, if x then 1 else 0, q, if y then 1 else 0);
  }

  /** c shifted right k times. */
  function Shr(c: bv16, k: nat): bv16
    decreases k
  {
    if k == 0 then c else Shr(c >> 1, k - 1)
  }

  lemma {:induction false} LowBitsTop(c: bv16, k: nat)
    ensures LowBits(c, k + 1) == LowBits(c, k) + (if Shr(c, k) & 1 == 1 then Shift(1, k) else 0)
    decreases k
  {
    if k > 0 {
      LowBitsTop(c >> 1, k - 1);
    }
  }

  lemma ShrFifteen(c: bv16)
    ensures Shr(c, 15) == c >> 15
  {
    assert Shr(c, 15) == Shr(c >> 2, 13);
    assert Shr(c >> 2, 13) == Shr(c >> 4, 11);
    assert Shr(c >> 4, 11) == Shr(c >> 6, 9);
    assert Shr(c >> 6, 9) == Shr(c >> 8, 7);
    assert Shr(c >> 8, 7) == Shr(c >> 10, 5);
    assert Shr(c >> 10, 5) == Shr(c >> 12, 3);
    assert Shr(c >> 12, 3) == Shr(c >> 14, 1);
  }

  lemma ValueTop(c: bv16)
    ensures Value(c) == LowBits(c, 15) + (if c & 0x8000 != 0 then 0x8000 else 0)
    ensures LowBits(c, 15) < 0x8000
  {
    LowBitsTop(c, 15);
    ShrFifteen(c);
    TopBit(c);
    LowBitsBound(c, 15);
    Powers();
  }

  lemma {:induction false} ZeroBits(k: nat)
    ensures LowBits(0, k) == 0
    decreases k
  {
    if k > 0 {
      assert (0 as bv16) >> 1 == 0 && (0 as bv16) & 1 == 0;
      ZeroBits(k - 1);
    }
  }

  lemma HalfOfEven(d: bv16, c: bv16, k: nat)
    requires d >> 1 == c && d & 1 == 0
    ensures LowBits(d, k + 1) == 2 * LowBits(c, k)
  {
  }

  lemma EighthOf(d: bv16, e: bv16, f: bv16, c: bv16, k: nat)
    requires d >> 1 == e && e >> 1 == f && f >> 1 == c && d & 1 == 0 && e & 1 == 0 && f & 1 == 0
    ensures LowBits(d, k + 3) == 8 * LowBits(c, k)
  {
    HalfOfEven(d, e, k + 2);
    HalfOfEven(e, f, k + 1);
    HalfOfEven(f, c, k);
  }

  lemma TopAlone(top: bv16)
    requires top == 0 || top == 0x8000
    ensures LowBits(top, 15) == 0
  {
    ZeroBits(15);
    EighthOf(0x8, 0x4, 0x2, 0x1, 0);
    EighthOf(0x40, 0x20, 0x10, 0x8, 3);
    EighthOf(0x200, 0x100, 0x80, 0x40, 6);
    EighthOf(0x1000, 0x800, 0x400, 0x200, 9);
    EighthOf(0x8000, 0x4000, 0x2000, 0x1000, 12);
  }

  lemma TapsValue()
    ensures Value(0x1021) == 0x1021
  {
    assert LowBits(0x1, 4) == 1;
    assert LowBits(0x10, 8) == 16 * LowBits(0x1, 4);
    assert LowBits(0x102, 12) == 16 * LowBits(0x10, 8) + 2;
    assert LowBits(0x1021, 16) == 16 * LowBits(0x102, 12) + 1;
  }

  lemma SplitTop(c: bv16, low: bv16, top: bv16, d: bv16)
    requires low == c & 0x7fff && top == c & 0x8000 && d == c << 1
    ensures Sum(low, top, c) && d >> 1 == low && d & 1 == 0
    ensures top == 0 || top == 0x8000
  {
  }

  lemma DoubleLow(d: bv16, low: bv16)
    requires d >> 1 == low && d & 1 == 0
    ensures Value(d) == 2 * LowBits(low, 15)
  {
  }

  lemma LowOf(low: bv16, top: bv16, c: bv16)
    requires Sum(low, top, c) && (top == 0 || top == 0x8000)
    ensures LowBits(low, 15) == LowBits(c, 15)
  {
    LowBitsSum(low, top, c, 15);
    TopAlone(top);
    AddZero(LowBits(low, 15));
  }

  lemma StepCases(c: bv16, d: bv16, s: bv16)
    requires d == c << 1 && s == Step(c)
    ensures if c & 0x8000 != 0 then Sum(d, 0x1021, s) else s == d
  {
  }

  /** One turn of the loop: double, and subtract the polynomial if the degree reached 16. */
  lemma ValueStep(c: bv16, s: bv16)
    requires s == Step(c)
    ensures Value(s) == if c & 0x8000 != 0 then Add(2 * Value(c), G) else 2 * Value(c)
  {
    var d, low, top := c << 1, c & 0x7fff, c & 0x8000;
    SplitTop(c, low, top, d);
    StepCases(c, d, s);
    ValueStepFrom(c, d, low, top, s);
  }

  lemma ValueStepFrom(c: bv16, d: bv16, low: bv16, top: bv16, s: bv16)
    requires Sum(low, top, c) && d >> 1 == low && d & 1 == 0 && (top == 0 || top == 0x8000)
    requires if c & 0x8000 != 0 then Sum(d, 0x1021, s) else s == d
    ensures Value(s) == if c & 0x8000 != 0 then Add(2 * Value(c), G) else 2 * Value(c)
  {
    ValueTop(c);
    DoubleLow(d, low);
    LowOf(low, top, c);
    var carry := c & 0x8000 != 0;
    if carry {
      LowBitsSum(d, 0x1021, s, 16);
      TapsValue();
    }
    StepNumber(LowBits(c, 15), carry, Value(c), Value(d), Value(s));
  }

  lemma StepNumber(low: nat, carry: bool, c: nat, d: nat, s: nat)
    requires low < 0x8000 && d == 2 * low && c == low + (if carry then 0x8000 else 0)
    requires s == if carry then Add(d, 0x1021) else d
    ensures s == if carry then Add(2 * c, G) else 2 * c
  {
    if carry {
      ReduceTop(2 * low, 0x1021);
    }
  }

  lemma ReduceTop(u: nat, w: nat)
    requires u < 0x1_0000 && w < 0x1_0000
    ensures Add(0x1_0000 + u, 0x1_0000 + w) == Add(u, w)
  {
    Powers();
    var x := Shift(1, 16);
    AddDisjoint(1, u, 16);
    AddDisjoint(1, w, 16);
    AddMiddle(x, u, x, w);
    AddZero(x);
    AddZero(Add(u, w));
  }

  // ---- The register as a remainder ----

  /** Subtracting g once more on both sides changes nothing. */
  lemma Reduce(a: nat, v: nat, g: nat)
    ensures Add(Add(a, g), Add(v, g)) == Add(a, v)
  {
    AddMiddle(a, g, v, g);
    AddZero(g);
    AddZero(Add(a, v));
  }

  /** n turns multiply by x^n and subtract a multiple of the polynomial. */
  lemma {:induction false} ValueSteps(c: bv16, n: nat) returns (q: nat)
    ensures Add(Mul(q, G), Value(Steps(c, n))) == Shift(Value(c), n)
  {
    if n == 0 {
      q := 0;
      AddZero(Value(c));
    } else {
      var r := ValueSteps(c, n - 1);
      q := NextQuotient(r, Steps(c, n - 1), Steps(c, n), Shift(Value(c), n - 1));
    }
  }

  lemma NextQuotient(r: nat, d: bv16, s: bv16, p: nat) returns (q: nat)
    requires s == Step(d) && Add(Mul(r, G), Value(d)) == p
    ensures Add(Mul(q, G), Value(s)) == 2 * p
  {
    ValueStep(d, s);
    q := QuotientBit(G, r, d & 0x8000 != 0, Value(d), Value(s));
  }

  lemma QuotientBit(g: nat, r: nat, carry: bool, v: nat, w: nat) returns (q: nat)
    requires w == if carry then Add(2 * v, g) else 2 * v
    ensures Add(Mul(q, g), w) == 2 * Add(Mul(r, g), v)
  {
    AddDouble(Mul(r, g), v);
    MulDouble(r, g);
    q := 2 * r;
    if carry {
      q := 2 * r + 1;
      MulOdd(r, g);
      Reduce(2 * Mul(r, g), 2 * v, g);
    }
  }

  lemma MulOdd(r: nat, g: nat)
    ensures Mul(2 * r + 1, g) == Add(2 * Mul(r, g), g)
  {
    MulStep(2 * r + 1, g);
    AddCommutes(g, 2 * Mul(r, g));
  }

  lemma Doubling(c: bv16, d: bv16)
    requires d == c << 1 && c & 0x8000 == 0
    ensures Value(d) == 2 * Value(c)
  {
    var low, top := c & 0x7fff, c & 0x8000;
    SplitTop(c, low, top, d);
    DoubleLow(d, low);
    LowOf(low, top, c);
    ValueTop(c);
  }

  lemma Doubling2(c: bv16, d: bv16)
    requires d == c << 2 && c & 0xc000 == 0
    ensures Value(d) == 4 * Value(c)
  {
    var m := c << 1;
    assert m & 0x8000 == 0 && c & 0x8000 == 0 && d == m << 1;
    Doubling(c, m);
    Doubling(m, d);
  }

  lemma Doubling4(c: bv16, d: bv16)
    requires d == c << 4 && c & 0xf000 == 0
    ensures Value(d) == 16 * Value(c)
  {
    var m := c << 2;
    assert m & 0xc000 == 0 && c & 0xc000 == 0 && d == m << 2;
    Doubling2(c, m);
    Doubling2(m, d);
  }

  lemma Doubling8(c: bv16, d: bv16)
    requires d == c << 8 && c & 0xff00 == 0
    ensures Value(d) == Shift(Value(c), 8)
  {
    var m := c << 4;
    assert m & 0xf000 == 0 && c & 0xf000 == 0 && d == m << 4;
    Doubling4(c, m);
    Doubling4(m, d);
    ShiftEight(Value(c));
  }

  // ---- Messages ----

  function ByteValue(b: bv8): nat { Value(b as bv16) }

  /** The message as a polynomial: the bits of its bytes, first byte and high bit first. */
  function Number(msg: seq<bv8>): nat {
    if msg == [] then 0 else Shift(Number(msg[..|msg| - 1]), 8) + ByteValue(msg[|msg| - 1])
  }

  lemma ByteBound(w: bv16, h: bv16)
    requires w & 0xff00 == 0 && h == w << 8
    ensures Value(w) < 256
  {
    Doubling8(w, h);
    ShiftEight(Value(w));
    LowBitsBound(h, 16);
    Powers();
  }

  lemma ByteValueBound(b: bv8)
    ensures ByteValue(b) < 256
  {
    ByteBound(b as bv16, (b as bv16) << 8);
  }

  lemma ShiftTwo(p: nat)
    ensures Shift(p, 2) == 4 * p
  {
    assert Shift(p, 1) == 2 * p;
  }

  lemma ShiftEight(p: nat)
    ensures Shift(p, 8) == 256 * p
  {
    ShiftTwo(p);
    ShiftTwo(4 * p);
    ShiftTwo(16 * p);
    ShiftTwo(64 * p);
    ShiftShift(p, 2, 2);
    ShiftShift(p, 4, 2);
    ShiftShift(p, 6, 2);
  }

  /** One byte: the register and the byte at its top are multiplied by x^8 and reduced. */
  lemma ByteQuotient(c: bv16, b: bv8) returns (q: nat)
    ensures Add(Mul(q, G), Value(CrcByte(c, b))) == Shift(Add(Value(c), Shift(ByteValue(b), 8)), 8)
  {
    q := WordQuotient(c, b as bv16, (b as bv16) << 8, c ^ ((b as bv16) << 8));
  }

  lemma WordQuotient(c: bv16, w: bv16, h: bv16, u: bv16) returns (q: nat)
    requires w & 0xff00 == 0 && h == w << 8 && Sum(c, h, u)
    ensures Add(Mul(q, G), Value(Steps(u, 8))) == Shift(Add(Value(c), Shift(Value(w), 8)), 8)
  {
    q := ValueSteps(u, 8);
    Doubling8(w, h);
    LowBitsSum(c, h, u, 16);
  }

  lemma SumRegrouped(m: nat, r: nat, b: nat, x: nat, a: nat, n: nat, c: nat)
    requires Add(m, r) == Add(a, n) && Add(r, b) == x && Add(n, b) == c
    ensures Add(m, x) == Add(a, c)
  {
    AddAssociates(m, r, b);
    AddAssociates(a, n, b);
  }

  /** The remainder equation one byte later, on polynomials: from m g + r == a + n x^16 and
      k g + r' == (r + b x^8) x^8 to the same equation for a x^8 and n x^8 + b. */
  lemma NextByte(g: nat, a: nat, n: nat, b: nat, m: nat, r: nat, k: nat, r': nat)
    requires b < 256 && Add(Mul(m, g), r) == Add(a, Shift(n, 16))
    requires Add(Mul(k, g), r') == Shift(Add(r, Shift(b, 8)), 8)
    ensures Add(Mul(Add(Shift(m, 8), k), g), r') == Add(Shift(a, 8), Shift(Shift(n, 8) + b, 16))
  {
    var mg, x := Mul(m, g), Add(r, Shift(b, 8));
    var c := Shift(Shift(n, 8) + b, 8);
    NextCoefficient(n, b, c);
    SumRegrouped(mg, r, Shift(b, 8), x, a, Shift(n, 16), c);
    AddShift(mg, x, 8);
    AddShift(a, c, 8);
    MulShift(m, g, 8);
    MulAdd(Shift(m, 8), k, g);
    AddAssociates(Shift(mg, 8), Mul(k, g), r');
    ShiftShift(Shift(n, 8) + b, 8, 8);
  }

  lemma NextCoefficient(n: nat, b: nat, c: nat)
    requires b < 256 && c == Shift(Shift(n, 8) + b, 8)
    ensures Add(Shift(n, 16), Shift(b, 8)) == c
  {
    Powers();
    AddDisjoint(n, b, 8);
    AddShift(Shift(n, 8), b, 8);
    ShiftShift(n, 8, 8);
  }

  /** v is what remains of a + n x^16 after subtracting q times the polynomial. */
  ghost predicate Remains(q: nat, v: nat, a: nat, n: nat) { Add(Mul(q, G), v) == Add(a, Shift(n, 16)) }

  lemma NextRemainder(m: nat, r: bv16, b: bv8, r': bv16, a: nat, n: nat) returns (q: nat)
    requires Remains(m, Value(r), a, n) && r' == CrcByte(r, b)
    ensures Remains(q, Value(r'), Shift(a, 8), Shift(n, 8) + ByteValue(b))
  {
    var k := ByteQuotient(r, b);
    ByteValueBound(b);
    NextByte(G, a, n, ByteValue(b), m, Value(r), k, Value(r'));
    q := Add(Shift(m, 8), k);
  }

  lemma NextRemains(m: nat, r: bv16, b: bv8, r': bv16, a: nat, a': nat, n: nat, n': nat) returns (q: nat)
    requires Remains(m, Value(r), a, n) && r' == CrcByte(r, b)
    requires a' == Shift(a, 8) && n' == Shift(n, 8) + ByteValue(b)
    ensures Remains(q, Value(r'), a', n')
  {
    q := NextRemainder(m, r, b, r', a, n);
  }

  /** The running CRC from register c over a message m of n bytes is the remainder of
      c(x) x^(8n) + m(x) x^16 divided by the polynomial; the quotient is returned. */
  lemma {:induction false} RunningRemainder(c: bv16, msg: seq<bv8>) returns (q: nat)
    ensures Remains(q, Value(Crc(CrcByte, c, msg)), Shift(Value(c), 8 * |msg|), Number(msg))
  {
    if msg == [] {
      q := 0;
      NothingRemains(Value(c));
    } else {
      var init, b := msg[..|msg| - 1], msg[|msg| - 1];
      var m := RunningRemainder(c, init);
      ShiftByte(Value(c), |init|, |msg|);
      q := NextRemains(m, Crc(CrcByte, c, init), b, Crc(CrcByte, c, msg),
        Shift(Value(c), 8 * |init|), Shift(Value(c), 8 * |msg|), Number(init), Number(msg));
    }
  }

  lemma ShiftByte(v: nat, n: nat, k: nat)
    requires k == n + 1
    ensures Shift(Shift(v, 8 * n), 8) == Shift(v, 8 * k)
  {
    ShiftShift(v, 8 * n, 8);
  }

  lemma NothingRemains(v: nat)
    ensures Remains(0, v, Shift(v, 0), Number([]))
  {
    AddZero(v);
    EmptyMessage();
  }

  lemma EmptyMessage()
    ensures Shift(Number([]), 16) == 0
  {
    ShiftSum(0, 0, 16);
  }

  lemma ValueBound(c: bv16)
    ensures Value(c) < 0x1_0000
  {
    LowBitsBound(c, 16);
    Powers();
  }

  /** The CRC of a message from register 0 is the remainder of m(x) x^16: the only r of degree below
      16 that differs from it by a multiple of the polynomial. */
  lemma CrcIsRemainder(msg: seq<bv8>, r: nat)
    requires r < 0x1_0000
    ensures r == Value(Crc(CrcByte, 0, msg)) <==> exists q: nat :: Add(Mul(q, G), r) == Shift(Number(msg), 16)
  {
    var v := Value(Crc(CrcByte, 0, msg));
    var q := RunningRemainder(0, msg);
    ZeroBits(16);
    ZeroShift(8 * |msg|);
    AddZero(Shift(Number(msg), 16));
    ValueBound(Crc(CrcByte, 0, msg));
    Powers();
    if k: nat :| Add(Mul(k, G), r) == Shift(Number(msg), 16) {
      DivisionUnique(q, v, k, r, G, 16);
    }
  }

  lemma {:induction false} ZeroShift(n: nat)
    ensures Shift(0, n) == 0
  {
    if n > 0 {
      ZeroShift(n - 1);
    }
  }

  // ---- Error detection ----

  lemma {:induction false} ZeroOnly(c: bv16, k: nat)
    requires LowBits(c, k) == 0 && Shr(c, k) == 0
    ensures c == 0
    decreases k
  {
    if k > 0 {
      ZeroOnly(c >> 1, k - 1);
      assert c >> 1 == 0 && c & 1 == 0 ==> c == 0;
    }
  }

  lemma ValueInjective(a: bv16, b: bv16)
    requires Value(a) == Value(b)
    ensures a == b
  {
    var d := a ^ b;
    assert Sum(a, b, d);
    LowBitsSum(a, b, d, 16);
    AddZero(Value(a));
    ShrSixteen(d);
    ZeroOnly(d, 16);
    SumZero(a, b, d);
  }

  lemma SumZero(a: bv16, b: bv16, d: bv16)
    requires Sum(a, b, d) && d == 0
    ensures a == b
  {
  }

  lemma ShrSixteen(c: bv16)
    ensures Shr(c, 16) == 0
  {
    ShrFifteen(c >> 1);
    assert (c >> 1) >> 15 == 0;
  }

  /** Two messages of the same length have the same CRC, from whatever register both start, exactly
      when the polynomial divides their difference. */
  lemma SameCrcIffDivides(c: bv16, m1: seq<bv8>, m2: seq<bv8>)
    requires |m1| == |m2|
    ensures Crc(CrcByte, c, m1) == Crc(CrcByte, c, m2) <==> Divides(G, Add(Number(m1), Number(m2)))
  {
    var c1, c2 := Crc(CrcByte, c, m1), Crc(CrcByte, c, m2);
    var q1 := RunningRemainder(c, m1);
    var q2 := RunningRemainder(c, m2);
    ValueBound(c1);
    ValueBound(c2);
    RemaindersAgree(q1, Value(c1), q2, Value(c2), Shift(Value(c), 8 * |m1|), Number(m1), Number(m2));
    if Value(c1) == Value(c2) {
      ValueInjective(c1, c2);
    }
  }

  lemma RemaindersAgree(q1: nat, r1: nat, q2: nat, r2: nat, a: nat, n1: nat, n2: nat)
    requires Remains(q1, r1, a, n1) && Remains(q2, r2, a, n2) && r1 < 0x1_0000 && r2 < 0x1_0000
    ensures r1 == r2 <==> Divides(G, Add(n1, n2))
  {
    var q, r, e := Add(q1, q2), Add(r1, r2), Add(n1, n2);
    DifferenceEquation(q1, r1, q2, r2, a, n1, n2);
    assert Add(Mul(q, G), r) == Shift(e, 16);
    AddZero(r1);
    AddCancels(r1, r2, 0);
    if r1 == r2 {
      AddZero(Mul(q, G));
      assert Divides(G, Shift(e, 16));
      DropShift(G, e, 16);
    }
    if k: nat :| e == Mul(k, G) {
      MulShift(k, G, 16);
      AddZero(Mul(Shift(k, 16), G));
      Powers();
      AddBound(r1, r2, 16);
      DivisionUnique(q, r, Shift(k, 16), 0, G, 16);
    }
  }

  lemma DifferenceEquation(q1: nat, r1: nat, q2: nat, r2: nat, a: nat, n1: nat, n2: nat)
    requires Remains(q1, r1, a, n1) && Remains(q2, r2, a, n2)
    ensures Add(Mul(Add(q1, q2), G), Add(r1, r2)) == Shift(Add(n1, n2), 16)
  {
    MulAdd(q1, q2, G);
    AddMiddle(Mul(q1, G), Mul(q2, G), r1, r2);
    AddMiddle(a, Shift(n1, 16), a, Shift(n2, 16));
    AddZero(a);
    AddShift(n1, n2, 16);
    AddZero(Shift(Add(n1, n2), 16));
  }

  /** Messages of the same length that differ in an odd number of bits have different CRCs. */
  lemma OddErrorsDetected(c: bv16, m1: seq<bv8>, m2: seq<bv8>)
    requires |m1| == |m2| && Odd(Add(Number(m1), Number(m2)))
    ensures Crc(CrcByte, c, m1) != Crc(CrcByte, c, m2)
  {
    SameCrcIffDivides(c, m1, m2);
    if q: nat :| Add(Number(m1), Number(m2)) == Mul(q, G) {
      GEven();
      MulEven(q, G);
    }
  }

  lemma GEven()
    ensures !Odd(G)
  {
    assert !Odd(0x11) && Odd(0x110) == Odd(0x11) && Odd(0x1102) == !Odd(0x110);
  }

  /** The messages differ only inside the 16 consecutive bits whose lowest has weight x^s. */
  ghost predicate DifferWithin16(m1: seq<bv8>, m2: seq<bv8>, s: nat) {
    exists w: nat :: w < 0x1_0000 && Add(Number(m1), Number(m2)) == Shift(w, s)
  }

  /** Different messages of the same length that differ only inside 16 consecutive bits have different CRCs. */
  lemma BurstsDetected(c: bv16, m1: seq<bv8>, m2: seq<bv8>, s: nat)
    requires |m1| == |m2| && m1 != m2 && DifferWithin16(m1, m2, s)
    ensures Crc(CrcByte, c, m1) != Crc(CrcByte, c, m2)
  {
    SameCrcIffDivides(c, m1, m2);
    var e := Add(Number(m1), Number(m2));
    var w: nat :| w < 0x1_0000 && e == Shift(w, s);
    if Divides(G, e) {
      DropShift(G, w, s);
      var q: nat :| w == Mul(q, G);
      Powers();
      if q > 0 {
        var k := MulDegree(q, G, 16);
        ShiftMonotone(16, k);
      }
      ZeroShift(s);
      AddCancels(Number(m1), Number(m2), 0);
      NumberInjective(m1, m2);
    }
  }

  lemma DigitsUnique(p: nat, a: nat, q: nat, b: nat)
    requires a < 256 && b < 256 && Shift(p, 8) + a == Shift(q, 8) + b
    ensures p == q && a == b
  {
    ShiftEight(p);
    ShiftEight(q);
  }

  /** Messages of the same number end in the same byte, and in front of it have the same number. */
  lemma LastByteSame(m1: seq<bv8>, m2: seq<bv8>, n: nat)
    requires |m1| == |m2| == n + 1 && Number(m1) == Number(m2)
    ensures Number(m1[..n]) == Number(m2[..n]) && m1[n] == m2[n]
  {
    ByteValueBound(m1[n]);
    ByteValueBound(m2[n]);
    DigitsUnique(Number(m1[..n]), ByteValue(m1[n]), Number(m2[..n]), ByteValue(m2[n]));
    ByteValueInjective(m1[n], m2[n]);
  }

  lemma ByteValueInjective(a: bv8, b: bv8)
    requires ByteValue(a) == ByteValue(b)
    ensures a == b
  {
    ValueInjective(a as bv16, b as bv16);
  }

  lemma SplitSame<T>(s: seq<T>, t: seq<T>, n: nat)
    requires |s| == |t| == n + 1 && s[..n] == t[..n] && s[n] == t[n]
    ensures s == t
  {
    assert s == s[..n] + [s[n]] && t == t[..n] + [t[n]];
  }

  lemma {:induction false} NumberInjective(m1: seq<bv8>, m2: seq<bv8>)
    requires |m1| == |m2| && Number(m1) == Number(m2)
    ensures m1 == m2
  {
    if m1 != [] {
      var n := |m1| - 1;
      LastByteSame(m1, m2, n);
      NumberInjective(m1[..n], m2[..n]);
      SplitSame(m1, m2, n);
    }
  }

  // ---- Appending the CRC, and linearity ----

  lemma StepsZero(c: bv16, n: nat)
    ensures Steps(c, n) == 0 <==> c == 0
    decreases n
  {
    if n > 0 {
      StepsZero(c, n - 1);
      StepZero(Steps(c, n - 1), Steps(c, n));
    }
  }

  lemma StepZero(c: bv16, s: bv16)
    requires s == Step(c)
    ensures s == 0 <==> c == 0
  {
  }

  /** A second byte b takes a register d, eight turns on from w, to 0 exactly when it equals w. */
  lemma SecondByteZero(w: bv16, b: bv16, x: bv16, d: bv16, l: bv16, u: bv16)
    requires Sum(w, b, x) && d == Steps(w, 8) && l == Steps(b, 8) && Sum(d, l, u)
    ensures Steps(u, 8) == 0 <==> x == 0
  {
    StepsSum(w, b, x, 8);
    SumUnique(d, l, u, Steps(x, 8));
    StepsZero(u, 8);
    StepsZero(x, 8);
  }

  lemma ByteSteps(c: bv16, b: bv8, h: bv16, u: bv16)
    requires h == (b as bv16) << 8 && Sum(c, h, u)
    ensures CrcByte(c, b) == Steps(u, 8)
  {
  }

  lemma TwoBytesZero(c: bv16, hi: bv8, lo: bv8, h: bv16, w: bv16, b: bv16, x: bv16, d: bv16, l: bv16, u: bv16)
    requires h == (hi as bv16) << 8 && Sum(c, h, w) && b == lo as bv16 && Sum(w, b, x)
    requires d == CrcByte(c, hi) && l == (lo as bv16) << 8 && Sum(d, l, u)
    ensures CrcByte(d, lo) == 0 <==> x == 0
  {
    ByteSteps(c, hi, h, w);
    ByteSteps(d, lo, l, u);
    LowByteSteps(lo);
    SecondByteZero(w, b, x, d, l, u);
  }

  ghost predicate SumOfBytes(c: bv16, hi: bv8, lo: bv8, x: bv16) { x == c ^ ((hi as bv16) << 8) ^ (lo as bv16) }

  lemma SumExists(a: bv16, b: bv16) returns (c: bv16)
    ensures Sum(a, b, c)
  {
    c := a ^ b;
  }

  lemma SumsOfBytes(c: bv16, hi: bv8, lo: bv8, h: bv16, b: bv16, w: bv16, x: bv16)
    requires h == (hi as bv16) << 8 && b == lo as bv16 && Sum(c, h, w) && Sum(w, b, x)
    ensures SumOfBytes(c, hi, lo, x)
  {
  }

  lemma TwoBytesSum(c: bv16, hi: bv8, lo: bv8) returns (x: bv16)
    ensures SumOfBytes(c, hi, lo, x)
    ensures CrcByte(CrcByte(c, hi), lo) == 0 <==> x == 0
  {
    var h, b, d, l := (hi as bv16) << 8, lo as bv16, CrcByte(c, hi), (lo as bv16) << 8;
    var w := SumExists(c, h);
    x := SumExists(w, b);
    var u := SumExists(d, l);
    TwoBytesZero(c, hi, lo, h, w, b, x, d, l, u);
    SumsOfBytes(c, hi, lo, h, b, w, x);
  }

  /** Two more bytes bring the register to 0 exactly when they are its high byte and its low byte. */
  lemma ResidueZero(c: bv16, hi: bv8, lo: bv8)
    ensures CrcByte(CrcByte(c, hi), lo) == 0 <==> hi == (c >> 8) as bv8 && lo == (c & 0xff) as bv8
  {
    var x := TwoBytesSum(c, hi, lo);
    BytesMatch(c, hi, lo, x);
  }

  lemma BytesMatch(c: bv16, hi: bv8, lo: bv8, x: bv16)
    requires SumOfBytes(c, hi, lo, x)
    ensures x == 0 <==> hi == (c >> 8) as bv8 && lo == (c & 0xff) as bv8
  {
  }

  function XorBytes(m1: seq<bv8>, m2: seq<bv8>): (m: seq<bv8>)
    requires |m1| == |m2|
    ensures |m| == |m1|
  {
    if m1 == [] then []
    else XorBytes(m1[..|m1| - 1], m2[..|m2| - 1]) + [m1[|m1| - 1] ^ m2[|m2| - 1]]
  }

  /** The CRC is linear: the register sum and the message sum give the CRC sum. */
  lemma {:induction false} CrcLinear(c1: bv16, c2: bv16, c: bv16, m1: seq<bv8>, m2: seq<bv8>)
    requires |m1| == |m2| && Sum(c1, c2, c)
    ensures Sum(Crc(CrcByte, c1, m1), Crc(CrcByte, c2, m2), Crc(CrcByte, c, XorBytes(m1, m2)))
  {
    if m1 != [] {
      var n, m := |m1| - 1, XorBytes(m1, m2);
      CrcLinear(c1, c2, c, m1[..n], m2[..n]);
      assert m[..n] == XorBytes(m1[..n], m2[..n]);
      ByteLinear(Crc(CrcByte, c1, m1[..n]), Crc(CrcByte, c2, m2[..n]), Crc(CrcByte, c, m[..n]), m1[n], m2[n], m[n]);
    }
  }

  lemma ByteLinear(c1: bv16, c2: bv16, c: bv16, b1: bv8, b2: bv8, b: bv8)
    requires Sum(c1, c2, c) && b == b1 ^ b2
    ensures Sum(CrcByte(c1, b1), CrcByte(c2, b2), CrcByte(c, b))
  {
    var u1, u2, u := c1 ^ ((b1 as bv16) << 8), c2 ^ ((b2 as bv16) << 8), c ^ ((b as bv16) << 8);
    EnteredSum(c1, c2, c, b1, b2, b, u1, u2, u);
    StepsSum(u1, u2, u, 8);
  }

  lemma EnteredSum(c1: bv16, c2: bv16, c: bv16, b1: bv8, b2: bv8, b: bv8, u1: bv16, u2: bv16, u: bv16)
    requires c == c1 ^ c2 && b == b1 ^ b2
    requires u1 == c1 ^ ((b1 as bv16) << 8) && u2 == c2 ^ ((b2 as bv16) << 8) && u == c ^ ((b as bv16) << 8)
    ensures u == u1 ^ u2
  {
  }

  /** The three implementations give the same running value on every message from every register. */
  lemma {:induction false} ImplementationsAgree(c: bv16, msg: seq<bv8>)
    ensures Crc(FastCrcByte, c, msg) == Crc(CrcByte, c, msg) == Crc(TableCrcByte, c, msg)
  {
    if msg != [] {
      ImplementationsAgree(c, msg[..|msg| - 1]);
      FastAgrees(Crc(CrcByte, c, msg[..|msg| - 1]), msg[|msg| - 1]);
      TableAgrees(Crc(CrcByte, c, msg[..|msg| - 1]), msg[|msg| - 1]);
    }
  }
}
