/** The three CRC-16 byte steps on values: the loop form of tos/lib/tosboot/crc.h as a function,
    the loop-free form of tos/system/crc.h and the table form of tos/chips/xe1205/crc.h. */
module CrcSpec {
  /** One turn of the loop: shift left, and reduce if a one fell out. 0x1021 is x^12 + x^5 + 1. */
  function Step(c: bv16): bv16 { if c & 0x8000 != 0 then (c << 1) ^ 0x1021 else c << 1 }

  function Steps(c: bv16, n: nat): bv16
    decreases n
  {
    if n == 0 then c else Step(Steps(c, n - 1))
  }

  /** The loop form: the byte enters at the top, then eight turns. */
  function CrcByte(crc: bv16, b: bv8): bv16 { Steps(crc ^ ((b as bv16) << 8), 8) }

  /** The loop-free form. */
  function FastCrcByte(crc: bv16, b: bv8): bv16 {
    var c1 := (crc >> 8) | (crc << 8);
    var c2 := c1 ^ (b as bv16);
    var c3 := c2 ^ ((c2 & 0xff) >> 4);
    var c4 := c3 ^ (c3 << 12);
    c4 ^ ((c4 & 0xff) << 5)
  }

  // ---- The 256 precomputed words, eight to a row as printed ----

  function Pick(lo: bv8, w0: bv16, w1: bv16, w2: bv16, w3: bv16, w4: bv16, w5: bv16, w6: bv16, w7: bv16): bv16 {
    match lo
    case 0 => w0
    case 1 => w1
    case 2 => w2
    case 3 => w3
    case 4 => w4
    case 5 => w5
    case 6 => w6
    case _ => w7
  }

  /** Word i of the table: place i mod 8 of row i / 8. */
  function TableEntry(i: bv8): bv16 {
    var lo := i & 7;
    match i >> 3
    case 0 => Pick(lo, 0x0000, 0x1021, 0x2042, 0x3063, 0x4084, 0x50a5, 0x60c6, 0x70e7)
    case 1 => Pick(lo, 0x8108, 0x9129, 0xa14a, 0xb16b, 0xc18c, 0xd1ad, 0xe1ce, 0xf1ef)
    case 2 => Pick(lo, 0x1231, 0x0210, 0x3273, 0x2252, 0x52b5, 0x4294, 0x72f7, 0x62d6)
    case 3 => Pick(lo, 0x9339, 0x8318, 0xb37b, 0xa35a, 0xd3bd, 0xc39c, 0xf3ff, 0xe3de)
    case 4 => Pick(lo, 0x2462, 0x3443, 0x0420, 0x1401, 0x64e6, 0x74c7, 0x44a4, 0x5485)
    case 5 => Pick(lo, 0xa56a, 0xb54b, 0x8528, 0x9509, 0xe5ee, 0xf5cf, 0xc5ac, 0xd58d)
    case 6 => Pick(lo, 0x3653, 0x2672, 0x1611, 0x0630, 0x76d7, 0x66f6, 0x5695, 0x46b4)
    case 7 => Pick(lo, 0xb75b, 0xa77a, 0x9719, 0x8738, 0xf7df, 0xe7fe, 0xd79d, 0xc7bc)
    case 8 => Pick(lo, 0x48c4, 0x58e5, 0x6886, 0x78a7, 0x0840, 0x1861, 0x2802, 0x3823)
    case 9 => Pick(lo, 0xc9cc, 0xd9ed, 0xe98e, 0xf9af, 0x8948, 0x9969, 0xa90a, 0xb92b)
    case 10 => Pick(lo, 0x5af5, 0x4ad4, 0x7ab7, 0x6a96, 0x1a71, 0x0a50, 0x3a33, 0x2a12)
    case 11 => Pick(lo, 0xdbfd, 0xcbdc, 0xfbbf, 0xeb9e, 0x9b79, 0x8b58, 0xbb3b, 0xab1a)
    case 12 => Pick(lo, 0x6ca6, 0x7c87, 0x4ce4, 0x5cc5, 0x2c22, 0x3c03, 0x0c60, 0x1c41)
    case 13 => Pick(lo, 0xedae, 0xfd8f, 0xcdec, 0xddcd, 0xad2a, 0xbd0b, 0x8d68, 0x9d49)
    case 14 => Pick(lo, 0x7e97, 0x6eb6, 0x5ed5, 0x4ef4, 0x3e13, 0x2e32, 0x1e51, 0x0e70)
    case 15 => Pick(lo, 0xff9f, 0xefbe, 0xdfdd, 0xcffc, 0xbf1b, 0xaf3a, 0x9f59, 0x8f78)
    case 16 => Pick(lo, 0x9188, 0x81a9, 0xb1ca, 0xa1eb, 0xd10c, 0xc12d, 0xf14e, 0xe16f)
    case 17 => Pick(lo, 0x1080, 0x00a1, 0x30c2, 0x20e3, 0x5004, 0x4025, 0x7046, 0x6067)
    case 18 => Pick(lo, 0x83b9, 0x9398, 0xa3fb, 0xb3da, 0xc33d, 0xd31c, 0xe37f, 0xf35e)
    case 19 => Pick(lo, 0x02b1, 0x1290, 0x22f3, 0x32d2, 0x4235, 0x5214, 0x6277, 0x7256)
    case 20 => Pick(lo, 0xb5ea, 0xa5cb, 0x95a8, 0x8589, 0xf56e, 0xe54f, 0xd52c, 0xc50d)
    case 21 => Pick(lo, 0x34e2, 0x24c3, 0x14a0, 0x0481, 0x7466, 0x6447, 0x5424, 0x4405)
    case 22 => Pick(lo, 0xa7db, 0xb7fa, 0x8799, 0x97b8, 0xe75f, 0xf77e, 0xc71d, 0xd73c)
    case 23 => Pick(lo, 0x26d3, 0x36f2, 0x0691, 0x16b0, 0x6657, 0x7676, 0x4615, 0x5634)
    case 24 => Pick(lo, 0xd94c, 0xc96d, 0xf90e, 0xe92f, 0x99c8, 0x89e9, 0xb98a, 0xa9ab)
    case 25 => Pick(lo, 0x5844, 0x4865, 0x7806, 0x6827, 0x18c0, 0x08e1, 0x3882, 0x28a3)
    case 26 => Pick(lo, 0xcb7d, 0xdb5c, 0xeb3f, 0xfb1e, 0x8bf9, 0x9bd8, 0xabbb, 0xbb9a)
    case 27 => Pick(lo, 0x4a75, 0x5a54, 0x6a37, 0x7a16, 0x0af1, 0x1ad0, 0x2ab3, 0x3a92)
    case 28 => Pick(lo, 0xfd2e, 0xed0f, 0xdd6c, 0xcd4d, 0xbdaa, 0xad8b, 0x9de8, 0x8dc9)
    case 29 => Pick(lo, 0x7c26, 0x6c07, 0x5c64, 0x4c45, 0x3ca2, 0x2c83, 0x1ce0, 0x0cc1)
    case 30 => Pick(lo, 0xef1f, 0xff3e, 0xcf5d, 0xdf7c, 0xaf9b, 0xbfba, 0x8fd9, 0x9ff8)
    case _ => Pick(lo, 0x6e17, 0x7e36, 0x4e55, 0x5e74, 0x2e93, 0x3eb2, 0x0ed1, 0x1ef0)
  }

  /** The table form. */
  function TableCrcByte(fcs: bv16, c: bv8): bv16 { TableEntry(((fcs >> 8) as bv8) ^ c) ^ (fcs << 8) }

  /** The running value after a whole message, for any of the byte steps. */
  function Crc(step: (bv16, bv8) -> bv16, crc: bv16, msg: seq<bv8>): bv16 {
    if msg == [] then crc else step(Crc(step, crc, msg[..|msg| - 1]), msg[|msg| - 1])
  }
}
