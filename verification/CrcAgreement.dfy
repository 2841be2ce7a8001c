/** The table form and the loop-free form compute what the loop computes. */
module CrcAgreement {
  import opened CrcSpec

  function EightSteps(c: bv16): bv16 { Step(Step(Step(Step(Step(Step(Step(Step(c)))))))) }

  lemma EightStepsUnrolled(c: bv16)
    ensures Steps(c, 8) == EightSteps(c)
  {
    assert Steps(c, 2) == Step(Step(c));
    assert Steps(c, 4) == Step(Step(Steps(c, 2)));
    assert Steps(c, 6) == Step(Step(Steps(c, 4)));
  }

  // ---- The printed table ----

  lemma LowerHalf(i: bv8)
    requires i < 128
    ensures TableEntry(i) == EightSteps((i as bv16) << 8)
  {
  }

  lemma UpperHalf(i: bv8)
    requires i >= 128
    ensures TableEntry(i) == EightSteps((i as bv16) << 8)
  {
  }

  /** Every word of the table is eight turns of the loop on its index. */
  lemma TableIsEightSteps(i: bv8)
    ensures TableEntry(i) == Steps((i as bv16) << 8, 8)
  {
    EightStepsUnrolled((i as bv16) << 8);
    if i < 128 {
      LowerHalf(i);
    } else {
      UpperHalf(i);
    }
  }

  // ---- The loop is linear over exclusive or ----

  ghost predicate Sum(a: bv16, b: bv16, c: bv16) { c == a ^ b }

  /** Step without the branch. */
  function Flat(c: bv16): bv16 { (c << 1) ^ (c >> 15) ^ ((c >> 15) << 5) ^ ((c >> 15) << 12) }

  lemma TopBit(c: bv16)
    ensures c & 0x8000 != 0 ==> c >> 15 == 1
    ensures c & 0x8000 == 0 ==> c >> 15 == 0
  {
  }

  lemma StepIsFlat(c: bv16)
    ensures Step(c) == Flat(c)
  {
    TopBit(c);
  }

  lemma FlatLinear(a: bv16, b: bv16)
    ensures Flat(a ^ b) == Flat(a) ^ Flat(b)
  {
  }

  lemma StepSum(a: bv16, b: bv16, c: bv16)
    requires Sum(a, b, c)
    ensures Sum(Step(a), Step(b), Step(c))
  {
    StepIsFlat(a);
    StepIsFlat(b);
    StepIsFlat(c);
    FlatLinear(a, b);
  }

  lemma {:induction false} StepsSum(a: bv16, b: bv16, c: bv16, n: nat)
    requires Sum(a, b, c)
    ensures Sum(Steps(a, n), Steps(b, n), Steps(c, n))
  {
    if n > 0 {
      StepsSum(a, b, c, n - 1);
      StepSum(Steps(a, n - 1), Steps(b, n - 1), Steps(c, n - 1));
    }
  }

  // ---- Both fast forms: one word for the byte that leaves, exclusive or with the byte that stays ----

  lemma HighByteEight(x: bv8)
    ensures EightSteps((x as bv16) << 8) == FastCrcByte(0, x)
  {
  }

  lemma HighByteSteps(x: bv8)
    ensures Steps((x as bv16) << 8, 8) == FastCrcByte(0, x)
  {
    HighByteEight(x);
    EightStepsUnrolled((x as bv16) << 8);
  }

  lemma LowByteEight(x: bv8)
    ensures EightSteps(x as bv16) == (x as bv16) << 8
  {
  }

  lemma LowByteSteps(x: bv8)
    ensures Steps(x as bv16, 8) == (x as bv16) << 8
  {
    LowByteEight(x);
    EightStepsUnrolled(x as bv16);
  }

  lemma Halves(crc: bv16, b: bv8, x: bv8, lo: bv8)
    requires x == ((crc >> 8) as bv8) ^ b && lo == (crc & 0xff) as bv8
    ensures Sum((x as bv16) << 8, lo as bv16, crc ^ ((b as bv16) << 8))
    ensures (lo as bv16) << 8 == crc << 8
  {
  }

  /** The register after the loop, from its high byte plus the message byte (x) and its low byte. */
  lemma LoopSplits(crc: bv16, b: bv8, x: bv8)
    requires x == ((crc >> 8) as bv8) ^ b
    ensures Sum(Steps((x as bv16) << 8, 8), crc << 8, CrcByte(crc, b))
  {
    var lo := (crc & 0xff) as bv8;
    Halves(crc, b, x, lo);
    StepsSum((x as bv16) << 8, lo as bv16, crc ^ ((b as bv16) << 8), 8);
    LowByteSteps(lo);
  }

  lemma TableAgrees(crc: bv16, b: bv8)
    ensures TableCrcByte(crc, b) == CrcByte(crc, b)
  {
    var x := ((crc >> 8) as bv8) ^ b;
    LoopSplits(crc, b, x);
    TableIsEightSteps(x);
  }

  ghost predicate SumWithin(mask: bv16, a: bv16, b: bv16, c: bv16) { c & mask == (a ^ b) & mask }

  lemma FastNibble0(crc: bv16, b: bv8, x: bv8)
    requires x == ((crc >> 8) as bv8) ^ b
    ensures SumWithin(0xf, FastCrcByte(0, x), crc << 8, FastCrcByte(crc, b))
  {
  }

  lemma FastNibble1(crc: bv16, b: bv8, x: bv8)
    requires x == ((crc >> 8) as bv8) ^ b
    ensures SumWithin(0xf0, FastCrcByte(0, x), crc << 8, FastCrcByte(crc, b))
  {
  }

  lemma FastNibble2(crc: bv16, b: bv8, x: bv8)
    requires x == ((crc >> 8) as bv8) ^ b
    ensures SumWithin(0xf00, FastCrcByte(0, x), crc << 8, FastCrcByte(crc, b))
  {
  }

  lemma FastNibble3(crc: bv16, b: bv8, x: bv8)
    requires x == ((crc >> 8) as bv8) ^ b
    ensures SumWithin(0xf000, FastCrcByte(0, x), crc << 8, FastCrcByte(crc, b))
  {
  }

  lemma JoinNibbles(a: bv16, b: bv16, c: bv16)
    requires SumWithin(0xf, a, b, c) && SumWithin(0xf0, a, b, c)
    requires SumWithin(0xf00, a, b, c) && SumWithin(0xf000, a, b, c)
    ensures Sum(a, b, c)
  {
  }

  lemma SumUnique(a: bv16, b: bv16, c: bv16, d: bv16)
    requires Sum(a, b, c) && Sum(a, b, d)
    ensures c == d
  {
  }

  lemma FastSplits(crc: bv16, b: bv8, x: bv8)
    requires x == ((crc >> 8) as bv8) ^ b
    ensures Sum(FastCrcByte(0, x), crc << 8, FastCrcByte(crc, b))
  {
    FastNibble0(crc, b, x);
    FastNibble1(crc, b, x);
    FastNibble2(crc, b, x);
    FastNibble3(crc, b, x);
    JoinNibbles(FastCrcByte(0, x), crc << 8, FastCrcByte(crc, b));
  }

  lemma FastAgrees(crc: bv16, b: bv8)
    ensures FastCrcByte(crc, b) == CrcByte(crc, b)
  {
    var x := ((crc >> 8) as bv8) ^ b;
    LoopSplits(crc, b, x);
    FastSplits(crc, b, x);
    HighByteSteps(x);
    SumUnique(FastCrcByte(0, x), crc << 8, FastCrcByte(crc, b), CrcByte(crc, b));
  }
}
