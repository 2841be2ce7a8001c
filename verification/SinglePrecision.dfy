/** The load limit of tos/lib/tossim/hashtable.c in the single precision the code computes it in. */
module SinglePrecision {
  import opened Arithmetic
  import opened HashTableSpec
  import Scaling

  /** How far apart the neighbours of m are among numbers of 24 binary digits. */
  function Spacing(m: nat): (q: nat)
    ensures q >= 1
  {
    if m < 0x100_0000 then 1 else 2 * Spacing(m / 2)
  }

  /** m rounded to such a number, to the even one of two that are as near. */
  function Nearest(m: nat): nat {
    var q := Spacing(m);
    var r := m % q;
    if 2 * r < q || (2 * r == q && m / q % 2 == 0) then m - r else m - r + q
  }

  /** 0.65 in single precision, in units of 2^-24. */
  const FACTOR: nat := 0xa6_6666

  /** The product of the length, as a single precision number, with the factor, rounded up. */
  function CodeLimit(n: nat): nat {
    (Nearest(Nearest(n) * FACTOR) + 0xff_ffff) / 0x100_0000
  }

  lemma FactorIs()
    ensures 0x80_0000 <= FACTOR < 0x100_0000 && -10 <= 20 * FACTOR - 13 * 0x100_0000 <= 10
  {
  }

  lemma {:induction false} SpacingIs(m: nat, k: nat, q: nat)
    requires q == Pow2(k) && m < 0x100_0000 * q && (k > 0 ==> 0x80_0000 * q <= m)
    ensures Spacing(m) == q
  {
    if k > 0 {
      SpacingIs(m / 2, k - 1, q / 2);
    }
  }

  /** v is c spacings of q, and none is nearer to m, nor as near and even. */
  predicate Near(m: nat, q: nat, c: nat, v: nat) {
    v == c * q && 0 - q <= 2 * (m - v) <= q && (c % 2 == 0 || 0 - q < 2 * (m - v) < q)
  }

  lemma NearestIs(m: nat, k: nat, q: nat, c: nat, v: nat)
    requires q == Pow2(k) && m < 0x100_0000 * q && (k > 0 ==> 0x80_0000 * q <= m)
    requires Near(m, q, c, v)
    ensures Nearest(m) == v
  {
    SpacingIs(m, k, q);
    if v <= m {
      Quotient(m, q, c, m - v);
    } else {
      assert v == (c - 1) * q + q;
      Quotient(m, q, c - 1, m - (v - q));
    }
  }

  lemma Quotient(m: nat, q: nat, c: nat, r: nat)
    requires q > 0 && m == c * q + r && r < q
    ensures m / q == c && m % q == r
  {
    Scaling.DivUnique(m, q, c);
  }

  /** The limit l of a length n from the two roundings, to s1 and s2. */
  lemma LimitIs(n: nat, k1: nat, q1: nat, c1: nat, s1: nat, k2: nat, q2: nat, c2: nat, s2: nat, l: nat)
    requires q1 == Pow2(k1) && n < 0x100_0000 * q1 && (k1 > 0 ==> 0x80_0000 * q1 <= n)
    requires Near(n, q1, c1, s1) && Near(s1 * FACTOR, q2, c2, s2)
    requires q2 == Pow2(k2) && s1 * FACTOR < 0x100_0000 * q2 && (k2 > 0 ==> 0x80_0000 * q2 <= s1 * FACTOR)
    requires (s2 + 0xff_ffff) / 0x100_0000 == l
    ensures CodeLimit(n) == l
  {
    NearestIs(n, k1, q1, c1, s1);
    NearestIs(s1 * FACTOR, k2, q2, c2, s2);
  }

  lemma Powers()
    ensures Pow2(0) == 1 && Pow2(1) == 2 && Pow2(2) == 4 && Pow2(3) == 8 && Pow2(4) == 16
    ensures Pow2(5) == 32 && Pow2(6) == 64 && Pow2(7) == 128 && Pow2(8) == 256 && Pow2(9) == 512
    ensures Pow2(10) == 1024 && Pow2(11) == 2048 && Pow2(12) == 4096 && Pow2(13) == 8192 && Pow2(14) == 16384
    ensures Pow2(15) == 32768 && Pow2(16) == 65536 && Pow2(17) == 131072 && Pow2(18) == 262144 && Pow2(19) == 524288
    ensures Pow2(20) == 1048576 && Pow2(21) == 2097152 && Pow2(22) == 4194304
    ensures Pow2(23) == 8388608 && Pow2(24) == 16777216
    ensures Pow2(25) == 33554432 && Pow2(26) == 67108864 && Pow2(27) == 134217728
    ensures Pow2(28) == 268435456 && Pow2(29) == 536870912
    ensures Pow2(30) == 1073741824
  {
    assert Pow2(1) == 2 * Pow2(0);
    assert Pow2(2) == 2 * Pow2(1);
    assert Pow2(3) == 2 * Pow2(2);
    assert Pow2(4) == 2 * Pow2(3);
    assert Pow2(5) == 2 * Pow2(4);
    assert Pow2(6) == 2 * Pow2(5);
    assert Pow2(7) == 2 * Pow2(6);
    assert Pow2(8) == 2 * Pow2(7);
    assert Pow2(9) == 2 * Pow2(8);
    assert Pow2(10) == 2 * Pow2(9);
    assert Pow2(11) == 2 * Pow2(10);
    assert Pow2(12) == 2 * Pow2(11);
    assert Pow2(13) == 2 * Pow2(12);
    assert Pow2(14) == 2 * Pow2(13);
    assert Pow2(15) == 2 * Pow2(14);
    assert Pow2(16) == 2 * Pow2(15);
    assert Pow2(17) == 2 * Pow2(16);
    assert Pow2(18) == 2 * Pow2(17);
    assert Pow2(19) == 2 * Pow2(18);
    assert Pow2(20) == 2 * Pow2(19);
    assert Pow2(21) == 2 * Pow2(20);
    assert Pow2(22) == 2 * Pow2(21);
    assert Pow2(23) == 2 * Pow2(22);
    assert Pow2(24) == 2 * Pow2(23);
    assert Pow2(25) == 2 * Pow2(24);
    assert Pow2(26) == 2 * Pow2(25);
    assert Pow2(27) == 2 * Pow2(26);
    assert Pow2(28) == 2 * Pow2(27);
    assert Pow2(29) == 2 * Pow2(28);
    assert Pow2(30) == 2 * Pow2(29);
  }

  lemma Limits1(i: nat)
    requires 0 <= i < 7
    ensures CodeLimit(PRIMES[i]) == LoadLimit(PRIMES[i])
  {
    Powers();
    match i
    case 0 => LimitIs(53, 0, 1, 53, 53, 6, 64, 9030860, 577975040, 35);
    case 1 => LimitIs(97, 0, 1, 97, 97, 6, 64, 16528179, 1057803456, 64);
    case 2 => LimitIs(193, 0, 1, 193, 193, 7, 128, 16442982, 2104701696, 126);
    case 3 => LimitIs(389, 0, 1, 389, 389, 8, 256, 16570777, 4242118912, 253);
    case 4 => LimitIs(769, 0, 1, 769, 769, 9, 512, 16379084, 8386091008, 500);
    case 5 => LimitIs(1543, 0, 1, 1543, 1543, 10, 1024, 16432332, 16826707968, 1003);
    case 6 => LimitIs(3079, 0, 1, 3079, 3079, 11, 2048, 16395059, 33577080832, 2002);
  }

  lemma Limits2(i: nat)
    requires 7 <= i < 13
    ensures CodeLimit(PRIMES[i]) == LoadLimit(PRIMES[i])
  {
    Powers();
    match i
    case 7 => LimitIs(6151, 0, 1, 6151, 6151, 12, 4096, 16376422, 67077824512, 3999);
    case 8 => LimitIs(12289, 0, 1, 12289, 12289, 13, 8192, 16359116, 134013878272, 7988);
    case 9 => LimitIs(24593, 0, 1, 24593, 24593, 14, 16384, 16369100, 268191334400, 15986);
    case 10 => LimitIs(49157, 0, 1, 49157, 49157, 15, 32768, 16359449, 536066424832, 31953);
    case 11 => LimitIs(98317, 0, 1, 98317, 98317, 16, 65536, 16359948, 1072165552128, 63907);
    case 12 => LimitIs(196613, 0, 1, 196613, 196613, 17, 131072, 16358201, 2144102121472, 127799);
  }

  lemma Limits3(i: nat)
    requires 13 <= i < 19
    ensures CodeLimit(PRIMES[i]) == LoadLimit(PRIMES[i])
  {
    Powers();
    match i
    case 13 => LimitIs(393241, 0, 1, 393241, 393241, 18, 262144, 16358825, 4288367820800, 255607);
    case 14 => LimitIs(786433, 0, 1, 786433, 786433, 19, 524288, 16357806, 8576201392128, 511182);
    case 15 => LimitIs(1572869, 0, 1, 1572869, 1572869, 20, 1048576, 16357837, 17152435290112, 1022365);
    case 16 => LimitIs(3145739, 0, 1, 3145739, 3145739, 21, 2097152, 16357842, 34304881065984, 2044731);
    case 17 => LimitIs(6291469, 0, 1, 6291469, 6291469, 22, 4194304, 16357819, 68609665662976, 4089455);
    case 18 => LimitIs(12582917, 0, 1, 12582917, 12582917, 23, 8388608, 16357791, 137219096444928, 8178896);
  }

  lemma Limits4(i: nat)
    requires 19 <= i < 26
    ensures CodeLimit(PRIMES[i]) == LoadLimit(PRIMES[i])
  {
    Powers();
    match i
    case 19 => LimitIs(25165843, 1, 2, 12582922, 25165844, 24, 16777216, 16357798, 274438310330368, 16357798);
    case 20 => LimitIs(50331653, 2, 4, 12582913, 50331652, 25, 33554432, 16357786, 548876218007552, 32715572);
    case 21 => LimitIs(100663319, 3, 8, 12582915, 100663320, 26, 67108864, 16357789, 1097752637341696, 65431156);
    case 22 => LimitIs(201326611, 4, 16, 12582913, 201326608, 27, 134217728, 16357786, 2195504872030208, 130862288);
    case 23 => LimitIs(402653189, 5, 32, 12582912, 402653184, 28, 268435456, 16357785, 4391009475624960, 261724560);
    case 24 => LimitIs(805306457, 6, 64, 12582913, 805306432, 29, 536870912, 16357786, 8782019488120832, 523449152);
    case 25 =>
      LimitIs(1610612741, 7, 128, 12582912, 1610612736, 30, 1073741824, 16357785, 17564037902499840, 1046898240);
  }

  /** For every length the limit of the code is the load limit. */
  lemma CodeLimits(i: nat)
    requires i < |PRIMES|
    ensures CodeLimit(PRIMES[i]) == LoadLimit(PRIMES[i])
  {
    if i < 7 {
      Limits1(i);
    } else if i < 13 {
      Limits2(i);
    } else if i < 19 {
      Limits3(i);
    } else {
      Limits4(i);
    }
  }
}
