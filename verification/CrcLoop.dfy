/** The bitwise CRC of tos/lib/tosboot/crc.h, with its do-while loop. */
module TosbootCrc {
  import opened CrcSpec

  ghost predicate After(c: bv16, n: nat, r: bv16) { r == Steps(c, n) }

  lemma TurnIsStep(r: bv16, s: bv16)
    requires s == if r & 0x8000 != 0 then (r << 1) ^ 0x1021 else r << 1
    ensures s == Step(r)
  {
  }

  lemma OneTurn(c: bv16, n: nat, r: bv16, s: bv16)
    requires After(c, n, r) && s == Step(r)
    ensures After(c, n + 1, s)
  {
    assert Steps(c, n + 1) == Step(Steps(c, n));
  }

  method CrcByteLoop(crc: bv16, b: bv8) returns (r: bv16)
    ensures r == CrcByte(crc, b)
  {
    r := crc ^ ((b as bv16) << 8);
    ghost var c := r;
    var i: nat := 8;
    var again := true;
    while again
      invariant i <= 8 && (again <==> i > 0)
      invariant After(c, 8 - i, r)
      decreases i
    {
      ghost var before := r;
      if r & 0x8000 != 0 {
        r := (r << 1) ^ 0x1021;
      } else {
        r := r << 1;
      }
      TurnIsStep(before, r);
      OneTurn(c, 8 - i, before, r);
      i := i - 1;
      again := i != 0;
    }
  }

  /** The running CRC of a message. */
  method CrcMessage(crc: bv16, msg: seq<bv8>) returns (r: bv16)
    ensures r == Crc(CrcByte, crc, msg)
  {
    r := crc;
    for k := 0 to |msg|
      invariant r == Crc(CrcByte, crc, msg[..k])
    {
      r := CrcByteLoop(r, msg[k]);
      assert msg[..k + 1][..k] == msg[..k];
    }
    assert msg[..|msg|] == msg;
  }
}
