// Disk geometry: sector numbers as cylinder, head and sector, by division and by carries, and
// the registers they travel in.
module Disk {
  import opened Arithmetic
  import opened Words

  /** heads and sectors count from the BIOS's answer; sectors are numbered from 1. */
  datatype Geometry = Geometry(cylinders: int, heads: int, sectors: int)

  datatype Chs = Chs(cylinder: int, head: int, sector: int)

  predicate GeometryOk(g: Geometry) { 1 <= g.cylinders <= 1024 && 1 <= g.heads <= 255 && 1 <= g.sectors <= 63 }

  function Capacity(g: Geometry): int { g.cylinders * g.heads * g.sectors }

  predicate OnDisk(g: Geometry, c: Chs) {
    0 <= c.cylinder < g.cylinders && 0 <= c.head < g.heads && 1 <= c.sector <= g.sectors
  }

  /** The sector number a position stands for. */
  function Number(g: Geometry, c: Chs): int { (c.cylinder * g.heads + c.head) * g.sectors + c.sector - 1 }

  /** The conversion by division. */
  function FromNumber(g: Geometry, x: int): Chs
    requires GeometryOk(g)
  {
    Chs(x / g.sectors / g.heads, x / g.sectors % g.heads, x % g.sectors + 1)
  }

  /** The position stepped by carries. */
  function Successor(g: Geometry, c: Chs): Chs {
    if c.sector + 1 <= g.sectors then c.(sector := c.sector + 1)
    else if c.head + 1 < g.heads then Chs(c.cylinder, c.head + 1, 1)
    else Chs(c.cylinder + 1, 0, 1)
  }

  /** Division inverts the numbering of positions. */
  lemma NumberInverts(g: Geometry, c: Chs)
    requires GeometryOk(g) && OnDisk(g, c)
    ensures FromNumber(g, Number(g, c)) == c
  {
    Division(Number(g, c), c.cylinder * g.heads + c.head, c.sector - 1, g.sectors);
    Division(c.cylinder * g.heads + c.head, c.cylinder, c.head, g.heads);
  }

  lemma DividedHasNumber(g: Geometry, x: int)
    requires GeometryOk(g) && 0 <= x
    ensures var c := FromNumber(g, x);
      0 <= c.cylinder && 0 <= c.head < g.heads && 1 <= c.sector <= g.sectors && Number(g, c) == x
  {
    var track := x / g.sectors;
    Remainder(x, g.sectors);
    Remainder(track, g.heads);
  }

  lemma Remainder(x: int, d: int)
    requires 0 <= x && 0 < d
    ensures x == x / d * d + x % d && 0 <= x / d <= x
  {
    if x < x / d { MulLe(1, d, x / d); }
  }

  lemma FromNumberOnDisk(g: Geometry, x: int)
    requires GeometryOk(g) && 0 <= x
    ensures Number(g, FromNumber(g, x)) == x && (OnDisk(g, FromNumber(g, x)) <==> x < Capacity(g))
  {
    DividedHasNumber(g, x);
    NumberBound(g, FromNumber(g, x));
  }

  lemma SuccessorCounts(g: Geometry, c: Chs)
    requires GeometryOk(g) && OnDisk(g, c)
    ensures Number(g, Successor(g, c)) == Number(g, c) + 1
    ensures OnDisk(g, Successor(g, c)) <==> Number(g, c) + 1 < Capacity(g)
  {
    var d, track := Successor(g, c), c.cylinder * g.heads + c.head;
    if c.sector + 1 > g.sectors {
      if c.head + 1 < g.heads {
        assert (track + 1) * g.sectors == track * g.sectors + g.sectors;
      } else {
        assert (c.cylinder + 1) * g.heads == c.cylinder * g.heads + c.head + 1;
        assert (track + 1) * g.sectors == track * g.sectors + g.sectors;
      }
    }
    NumberBound(g, d);
  }

  /** Within the ranges of head and sector, the number is on the disk when the cylinder is. */
  lemma NumberBound(g: Geometry, c: Chs)
    requires GeometryOk(g) && 0 <= c.cylinder && 0 <= c.head < g.heads && 1 <= c.sector <= g.sectors
    ensures Number(g, c) < Capacity(g) <==> c.cylinder < g.cylinders
  {
    var t, tracks := c.cylinder * g.heads + c.head, g.cylinders * g.heads;
    if c.cylinder < g.cylinders {
      MulLess(c.cylinder, g.cylinders, g.heads);
      MulLess(t, tracks, g.sectors);
    } else {
      MulLe(g.cylinders, c.cylinder, g.heads);
      MulLe(tracks, t, g.sectors);
    }
  }

  // ----------------------------------------------------- positions as registers

  /** ch and cl as the loader packs them. */
  function Ch(cylinder: int): int { cylinder % 256 }
  function Cl(cylinder: int, sector: int): int { cylinder / 256 % 4 * 64 + sector }

  /** What the BIOS makes of ch, cl and dh. */
  function Decode(ch: int, cl: int, dh: int): Chs { Chs(cl / 64 * 256 + ch, dh, cl % 64) }

  lemma LowBits(x: nat)
    ensures x / 256 % 4 * 256 + x % 256 == x % 1024
  {}

  lemma PackingInverts(c: Chs)
    requires 0 <= c.cylinder && 1 <= c.sector <= 63
    ensures Decode(Ch(c.cylinder), Cl(c.cylinder, c.sector), c.head) == c <==> c.cylinder < 1024
  {}

  /** The packing is what the mask, shift and or of the loader compute. */
  lemma PackingIsMasks(cylinder: bv32, sector: bv32)
    ensures Ch(cylinder as int) == (cylinder & 0xff) as int
    ensures Cl(cylinder as int, (sector & 0x3f) as int) ==
            ((((cylinder >> 8) & 0x3) << 6) | (sector & 0x3f)) as int
  {
    Cut8(cylinder);
    Cut2(cylinder >> 8);
    TwoAboveSix(cylinder >> 8, sector);
  }

  /** chs_get_geometry: the counts read from the BIOS's answer; heads are counted in a byte. */
  function ReadGeometry(ch: int, cl: int, dh: int): Geometry {
    Geometry(cl / 64 * 256 + ch + 1, (dh + 1) % 256, cl % 64)
  }

  /** The geometry is read back correctly exactly when the disk has fewer than 256 heads. */
  lemma GeometryIsRead(g: Geometry)
    requires 1 <= g.cylinders <= 1024 && 1 <= g.heads <= 256 && 1 <= g.sectors <= 63
    ensures ReadGeometry(Ch(g.cylinders - 1), Cl(g.cylinders - 1, g.sectors), g.heads - 1) == g <==> g.heads < 256
  {
    LowBits(g.cylinders - 1);
    TwoFields((g.cylinders - 1) / 256 % 4, g.sectors);
  }

  lemma TwoFields(high: int, low: int)
    requires 0 <= high && 0 <= low < 64
    ensures (high * 64 + low) / 64 == high && (high * 64 + low) % 64 == low
  {}
}
