// The two sector loops side by side: when they put the same sectors at the same places, and
// when they report the same.
module BothLoaders {
  import opened Disk
  import opened Loader

  /** The first sector that one read a sector puts past the top of the segments. */
  function FirstWrap(segment: int): int { (HALF - segment + 31) / 32 }

  /** n sectors, `left` of them before the end of the disk, that both loops serve alike: they
      end on the disk or the disk ends with a chunk, and at most one is read, or there is no
      offset and no read of the first loop passes the top of the segments. */
  predicate ServedAlike(n: nat, left: int, segment: int, offset: int) {
    (n <= left || left % CHUNK == 0) && PlacedAlike(Min(n, left), segment, offset)
  }

  predicate PlacedAlike(m: int, segment: int, offset: int) {
    var w := FirstWrap(segment);
    m <= 1 || (offset == 0 && (m <= w || (w % CHUNK == 0 && m <= w + HALF / 32)))
  }

  /** From a sector on the disk on, the loops put the same sectors at the same places exactly
      for these requests. */
  lemma LoadersAgree(g: Geometry, lba: int, n: nat, segment: int, offset: int)
    requires GeometryOk(g) && 0 <= lba < Capacity(g) && 0 <= segment < HALF && 0 <= offset < HALF
    ensures InRange(g, FromNumber(g, lba))
    ensures LbaPlaced(Capacity(g), lba, n, segment, offset) == ChsPlaced(g, lba, n, segment, offset) <==>
            ServedAlike(n, Capacity(g) - lba, segment, offset)
  {
    ReadsOnDisk(g, lba, n);
    AgreeOnDisk(ReadFrom(g, lba, n).sectors, lba, n, Capacity(g), segment, offset);
  }

  /** Behind the end of the disk they do exactly when nothing is asked for, or the cylinder's
      low ten bits name none. */
  lemma LoadersAgreeBehind(g: Geometry, lba: int, n: nat, segment: int, offset: int)
    requires GeometryOk(g) && Capacity(g) <= lba < HALF && 0 <= lba
    ensures InRange(g, FromNumber(g, lba))
    ensures LbaPlaced(Capacity(g), lba, n, segment, offset) == ChsPlaced(g, lba, n, segment, offset) <==>
            n == 0 || FromNumber(g, lba).cylinder % 1024 >= g.cylinders
  {
    DivideIsInRange(g, lba);
    ReadsNothing(g, FromNumber(g, lba), n);
    LbaReadsNothing(lba, n, Capacity(g));
  }

  lemma ReadsNothing(g: Geometry, c: Chs, n: nat)
    requires GeometryOk(g) && InRange(g, c)
    ensures ReadAll(g, BiosOf(g), c, n).sectors == [] <==> n == 0 || c.cylinder % 1024 >= g.cylinders
  {
    ReadableIs(g, c);
    ReadsFirst(g, BiosOf(g), c, n);
  }

  /** What the loops place of a request that starts on the disk. */
  lemma BothPlaced(g: Geometry, lba: int, n: nat, segment: int, offset: int)
    requires GeometryOk(g) && 0 <= lba < Capacity(g)
    ensures InRange(g, FromNumber(g, lba))
    ensures ChsPlaced(g, lba, n, segment, offset) == Place(From(lba, Min(n, Capacity(g) - lba)), segment, offset, 1)
    ensures |LbaPlaced(Capacity(g), lba, n, segment, offset)| == LbaCount(lba, n, Capacity(g))
  {
    ReadsOnDisk(g, lba, n);
  }

  lemma LbaReadsNothing(lba: int, n: nat, cap: int)
    requires cap <= lba
    ensures LbaCount(lba, n, cap) == 0
  {}

  lemma AgreeOnDisk(sectors: seq<int>, lba: int, n: nat, cap: int, segment: int, offset: int)
    requires 0 <= lba < cap && 0 <= segment < HALF && 0 <= offset < HALF && sectors == From(lba, Min(n, cap - lba))
    ensures LbaPlaced(cap, lba, n, segment, offset) == Place(sectors, segment, offset, 1) <==>
            ServedAlike(n, cap - lba, segment, offset)
  {
    PlacementsAgree(lba, Min(n, cap - lba), segment, offset);
  }

  lemma PlacementsAgree(lba: int, m: nat, segment: int, offset: int)
    requires 0 <= segment < HALF && 0 <= offset < HALF
    ensures Place(From(lba, m), segment, offset, CHUNK) == Place(From(lba, m), segment, offset, 1) <==>
            PlacedAlike(m, segment, offset)
  {
    var s, t := Place(From(lba, m), segment, offset, CHUNK), Place(From(lba, m), segment, offset, 1);
    var w := FirstWrap(segment);
    if m > 1 && offset != 0 {
      SecondSector(segment, offset);
      assert s[1].addr != t[1].addr;
    } else if m > w && w % CHUNK != 0 {
      WrapInside(segment, w);
      assert s[w].addr != t[w].addr;
    } else if m > w + HALF / 32 {
      WrapAgain(segment, w);
      assert s[w + HALF / 32].addr != t[w + HALF / 32].addr;
    } else {
      forall k: nat | k < m ensures Addr(k, segment, offset, CHUNK) == Addr(k, segment, offset, 1) {
        SameAddr(k, segment, offset);
      }
    }
  }

  lemma SecondSector(segment: int, offset: int)
    requires 0 <= segment < HALF && 0 < offset < HALF
    ensures Addr(1, segment, offset, CHUNK) != Addr(1, segment, offset, 1)
  {}

  lemma WrapInside(segment: int, w: nat)
    requires 0 <= segment < HALF && w == FirstWrap(segment) && w % CHUNK != 0
    ensures Addr(w, segment, 0, CHUNK) != Addr(w, segment, 0, 1)
  {}

  lemma WrapAgain(segment: int, w: nat)
    requires 0 <= segment < HALF && w == FirstWrap(segment) && w % CHUNK == 0
    ensures Addr(w + HALF / 32, segment, 0, CHUNK) != Addr(w + HALF / 32, segment, 0, 1)
  {
    var k := w + HALF / 32;
    SixteenLeft(w);
    CutOnce(segment + 32 * (k - 16));
    CutTwice(segment + 32 * k);
  }

  /** 2048 sectors are sixteen chunks and sixteen sectors. */
  lemma SixteenLeft(w: nat)
    requires w % CHUNK == 0
    ensures (w + HALF / 32) % CHUNK == 16 && (w + HALF / 32) / CHUNK * CHUNK == w + HALF / 32 - 16
  {}

  lemma CutTwice(x: int)
    requires 2 * HALF <= x < 3 * HALF
    ensures x % HALF == x - 2 * HALF
  {}

  lemma SameAddr(k: nat, segment: int, offset: int)
    requires 0 <= segment < HALF
    requires k == 0 || (offset == 0 && k < FirstWrap(segment)) ||
             (offset == 0 && FirstWrap(segment) % CHUNK == 0 && k < FirstWrap(segment) + HALF / 32)
    ensures Addr(k, segment, offset, CHUNK) == Addr(k, segment, offset, 1)
  {
    if k < FirstWrap(segment) { SameBelow(k, segment, offset); } else { SameBehind(k, segment); }
  }

  lemma SameBelow(k: nat, segment: int, offset: int)
    requires 0 <= segment < HALF && segment + 32 * k < HALF && (k == 0 || offset == 0)
    ensures Addr(k, segment, offset, CHUNK) == Addr(k, segment, offset, 1)
  {}

  lemma SameBehind(k: nat, segment: int)
    requires 0 <= segment < HALF && FirstWrap(segment) % CHUNK == 0
    requires FirstWrap(segment) <= k < FirstWrap(segment) + HALF / 32
    ensures Addr(k, segment, 0, CHUNK) == Addr(k, segment, 0, 1)
  {
    var p := k / CHUNK * CHUNK;
    assert FirstWrap(segment) <= p <= k;
    CutOnce(segment + 32 * p);
    CutOnce(segment + 32 * k);
  }

  lemma CutOnce(x: int)
    requires HALF <= x < 2 * HALF
    ensures x % HALF == x - HALF
  {}

  /** They report alike unless the last sector asked for is the disk's last. */
  lemma ReportsAgree(g: Geometry, lba: int, n: nat)
    requires GeometryOk(g) && 0 <= lba < Capacity(g)
    ensures InRange(g, FromNumber(g, lba))
    ensures (n == 0 || lba + n <= Capacity(g)) == ReadFrom(g, lba, n).ok <==>
            n == 0 || lba + n != Capacity(g)
  {
    ReadsOnDisk(g, lba, n);
  }

  /** One sector more than a disk of 200 holds, 200 cylinders of one sector say: one loop stops
      after its first chunk, the other at the end of the disk. */
  lemma LoadersPartAtTheEnd(g: Geometry)
    requires GeometryOk(g) && Capacity(g) == 200
    ensures InRange(g, FromNumber(g, 0))
    ensures |LbaPlaced(200, 0, 201, 0, 0)| == 127 && |ChsPlaced(g, 0, 201, 0, 0)| == 200
  {
    BothPlaced(g, 0, 201, 0, 0);
  }
}
