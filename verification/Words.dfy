// 32-bit words as numbers: cut in two at a bit, a word is quotient and remainder, so shifts and
// masks are division and remainder.
module Words {
  import opened Arithmetic

  lemma Same(a: bv32, b: bv32)
    requires a == b
    ensures a as int == b as int
  {}

  lemma Below(a: bv32)
    ensures 0 <= a as int < 0x1_0000_0000
  {}

  // ------------------------------------------------------------------ bit 1

  lemma LowBit(a: bv32)
    ensures (a & 1) as int == if a & 1 != 0 then 1 else 0
  {}

  lemma Parity(a: bv32)
    ensures (a as int) % 2 == 1 <==> a & 1 != 0
  {
    Sum1(a);
    LowBit(a);
    OddOrEven((a >> 1) as int, (a & 1) as int, a as int);
  }

  lemma OddOrEven(q: int, r: int, x: int)
    requires x == 2 * q + r && 0 <= r <= 1
    ensures x % 2 == r
  {}

  lemma Sum1(a: bv32)
    ensures a as int == 2 * ((a >> 1) as int) + ((a & 0x1) as int)
  {
    Join1(a, a);
    Same(a, ((a >> 1) << 1) | (a & 0x1));
  }

  lemma Join1(h: bv32, l: bv32)
    ensures (((h >> 1) << 1) | (l & 0x1)) as int == 2 * ((h >> 1) as int) + ((l & 0x1) as int)
  {}

  // ------------------------------------------------------------------ bit 2

  lemma Cut2(a: bv32)
    ensures (a as int) / 4 == (a >> 2) as int
    ensures (a as int) % 4 == (a & 0x3) as int
  {
    Sum2(a);
    Low2(a);
    Division(a as int, (a >> 2) as int, (a & 0x3) as int, 4);
  }

  lemma Sum2(a: bv32)
    ensures a as int == 4 * ((a >> 2) as int) + ((a & 0x3) as int)
  {
    Join2(a, a);
    Same(a, ((a >> 2) << 2) | (a & 0x3));
  }

  lemma Join2(h: bv32, l: bv32)
    ensures (((h >> 2) << 2) | (l & 0x3)) as int == 4 * ((h >> 2) as int) + ((l & 0x3) as int)
  {}

  lemma Low2(a: bv32)
    ensures 0 <= (a & 0x3) as int < 4
  {}

  // ------------------------------------------------------------------ bit 3

  lemma Sum3(a: bv32)
    ensures a as int == 8 * ((a >> 3) as int) + ((a & 0x7) as int)
  {
    Join3(a, a);
    Same(a, ((a >> 3) << 3) | (a & 0x7));
  }

  lemma Join3(h: bv32, l: bv32)
    ensures (((h >> 3) << 3) | (l & 0x7)) as int == 8 * ((h >> 3) as int) + ((l & 0x7) as int)
  {}

  lemma Low3(a: bv32)
    ensures 0 <= (a & 0x7) as int < 8
  {}

  // ------------------------------------------------------------------ bit 8

  lemma Cut8(a: bv32)
    ensures (a as int) / 256 == (a >> 8) as int
    ensures (a as int) % 256 == (a & 0xff) as int
  {
    Sum8(a);
    Low8(a);
    Division(a as int, (a >> 8) as int, (a & 0xff) as int, 256);
  }

  lemma Sum8(a: bv32)
    ensures a as int == 256 * ((a >> 8) as int) + ((a & 0xff) as int)
  {
    Join8(a, a);
    Same(a, ((a >> 8) << 8) | (a & 0xff));
  }

  lemma Join8(h: bv32, l: bv32)
    ensures (((h >> 8) << 8) | (l & 0xff)) as int == 256 * ((h >> 8) as int) + ((l & 0xff) as int)
  {}

  lemma Low8(a: bv32)
    ensures 0 <= (a & 0xff) as int < 256
  {}

  // ------------------------------------------------------------------ bit 9

  lemma Sum9(a: bv32)
    ensures a as int == 512 * ((a >> 9) as int) + ((a & 0x1ff) as int)
  {
    Join9(a, a);
    Same(a, ((a >> 9) << 9) | (a & 0x1ff));
  }

  lemma Join9(h: bv32, l: bv32)
    ensures (((h >> 9) << 9) | (l & 0x1ff)) as int == 512 * ((h >> 9) as int) + ((l & 0x1ff) as int)
  {}

  // ------------------------------------------------------------------ bit 10

  lemma Cut10(a: bv32)
    ensures (a as int) / 1024 == (a >> 10) as int
    ensures (a as int) % 1024 == (a & 0x3ff) as int
  {
    Sum10(a);
    Low10(a);
    Division(a as int, (a >> 10) as int, (a & 0x3ff) as int, 1024);
  }

  lemma Sum10(a: bv32)
    ensures a as int == 1024 * ((a >> 10) as int) + ((a & 0x3ff) as int)
  {
    Join10(a, a);
    Same(a, ((a >> 10) << 10) | (a & 0x3ff));
  }

  lemma Join10(h: bv32, l: bv32)
    ensures (((h >> 10) << 10) | (l & 0x3ff)) as int == 1024 * ((h >> 10) as int) + ((l & 0x3ff) as int)
  {}

  lemma Low10(a: bv32)
    ensures 0 <= (a & 0x3ff) as int < 1024
  {}

  // ------------------------------------------------------------------ bit 12

  lemma Cut12(a: bv32)
    ensures (a as int) / 4096 == (a >> 12) as int
    ensures (a as int) % 4096 == (a & 0xfff) as int
  {
    Sum12(a);
    Low12(a);
    Division(a as int, (a >> 12) as int, (a & 0xfff) as int, 4096);
  }

  lemma Sum12(a: bv32)
    ensures a as int == 4096 * ((a >> 12) as int) + ((a & 0xfff) as int)
  {
    Join12(a, a);
    Same(a, ((a >> 12) << 12) | (a & 0xfff));
  }

  lemma Join12(h: bv32, l: bv32)
    ensures (((h >> 12) << 12) | (l & 0xfff)) as int == 4096 * ((h >> 12) as int) + ((l & 0xfff) as int)
  {}

  lemma Low12(a: bv32)
    ensures 0 <= (a & 0xfff) as int < 4096
  {
    Raised12(a);
    Below((a & 0xfff) << 20);
  }

  lemma Raised12(a: bv32)
    ensures ((a & 0xfff) << 20) as int == 1048576 * ((a & 0xfff) as int)
  {}

  // ------------------------------------------------------------------ bit 22

  lemma Cut22(a: bv32)
    ensures (a as int) / 4194304 == (a >> 22) as int
    ensures (a as int) % 4194304 == (a & 0x3fffff) as int
  {
    Sum22(a);
    Low22(a);
    Division(a as int, (a >> 22) as int, (a & 0x3fffff) as int, 4194304);
  }

  lemma Sum22(a: bv32)
    ensures a as int == 4194304 * ((a >> 22) as int) + ((a & 0x3fffff) as int)
  {
    Join22(a, a);
    Same(a, ((a >> 22) << 22) | (a & 0x3fffff));
  }

  lemma Join22(h: bv32, l: bv32)
    ensures (((h >> 22) << 22) | (l & 0x3fffff)) as int == 4194304 * ((h >> 22) as int) + ((l & 0x3fffff) as int)
  {}

  lemma Low22(a: bv32)
    ensures 0 <= (a & 0x3fffff) as int < 4194304
  {
    Raised22(a);
    Below((a & 0x3fffff) << 10);
  }

  lemma Raised22(a: bv32)
    ensures ((a & 0x3fffff) << 10) as int == 1024 * ((a & 0x3fffff) as int)
  {}

  // ---------------------------------------------------------- masks that stay up

  lemma Above12(a: bv32)
    ensures (a & 0xffff_f000) as int == 4096 * ((a >> 12) as int)
  {}

  /** Two bits above six others. */
  lemma TwoAboveSix(h: bv32, l: bv32)
    ensures (((h & 0x3) << 6) | (l & 0x3f)) as int == 64 * ((h & 0x3) as int) + ((l & 0x3f) as int)
  {}

  // ------------------------------------------------------------ the flag bits

  /** A word as the bits above the flags, bit 8, bits 3 to 7, and the lowest three. */
  lemma Fields(a: bv32)
    ensures a as int == 512 * ((a >> 9) as int) + 256 * (((a & 0x1ff) >> 8) as int) +
                        8 * (((a & 0xff) >> 3) as int) + ((a & 0x7) as int)
  {
    Sum9(a);
    Inner8(a);
    Inner3(a);
  }

  lemma Inner8(a: bv32)
    ensures (a & 0x1ff) as int == 256 * (((a & 0x1ff) >> 8) as int) + ((a & 0xff) as int)
  {
    Sum8(a & 0x1ff);
    Same((a & 0x1ff) & 0xff, a & 0xff);
  }

  lemma Inner3(a: bv32)
    ensures (a & 0xff) as int == 8 * (((a & 0xff) >> 3) as int) + ((a & 0x7) as int)
  {
    Sum3(a & 0xff);
    Same((a & 0xff) & 0x7, a & 0x7);
  }

  lemma OneBit(a: bv32)
    ensures 0 <= ((a & 0x1ff) >> 8) as int <= 1
  {}

  lemma FiveBits(a: bv32)
    ensures 0 <= ((a & 0xff) >> 3) as int < 32
  {}

  /** A word with bits 0, 1, 2 and 8 set, by its other bits. */
  lemma OrFlags(a: bv32)
    ensures (a | 0x107) as int == 512 * ((a >> 9) as int) + 256 + 8 * (((a & 0xff) >> 3) as int) + 7
  {}
}
