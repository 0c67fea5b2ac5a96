// Stage 2 of the boot loader: reading sectors through the extended (LBA) calls of the BIOS and
// through cylinder, head and sector. The disk is abstract: it holds a number of sectors, and a
// read that leaves it fails.
module Loader {
  import opened Arithmetic
  import opened Disk

  const HALF := 0x1_0000        // 16-bit words wrap here
  const SECTOR := 512
  const CHUNK := 127

  /** A disk sector and the linear address it was put at. */
  datatype Placed = Placed(sector: int, addr: int)

  /** n sectors from lba on. */
  function From(lba: int, n: nat): (s: seq<int>)
    ensures |s| == n
  {
    seq(n, k => lba + k)
  }

  /** n sectors from lba on, one behind the other from base on. */
  function Contiguous(lba: int, n: nat, base: int): (s: seq<Placed>)
    ensures |s| == n
  {
    seq(n, k => Placed(lba + k, base + k * SECTOR))
  }

  /** Where the k-th sector goes when every read takes `chunk` sectors: a read starts at a
      segment of its own, cut to 16 bits, and only the first one adds the offset. */
  function Addr(k: nat, segment: int, offset: int, chunk: nat): int
    requires chunk > 0
  {
    16 * ((segment + 32 * (k / chunk * chunk)) % HALF) + k % chunk * SECTOR + (if k < chunk then offset else 0)
  }

  /** The sectors read, and where they went. */
  function Place(sectors: seq<int>, segment: int, offset: int, chunk: nat): (s: seq<Placed>)
    requires chunk > 0
    ensures |s| == |sectors|
  {
    seq(|sectors|, k requires 0 <= k < |sectors| => Placed(sectors[k], Addr(k, segment, offset, chunk)))
  }

  /** The sectors land one behind the other exactly when one read does it all, or there is no
      offset and the last read's segment still fits 16 bits. */
  lemma PlacementIsContiguous(lba: int, n: nat, segment: int, offset: int, chunk: nat)
    requires 0 <= segment < HALF && 0 <= offset < HALF && (chunk == 1 || chunk == CHUNK)
    ensures Place(From(lba, n), segment, offset, chunk) == Contiguous(lba, n, 16 * segment + offset) <==>
            n <= chunk || (offset == 0 && segment + 32 * ((n - 1) / chunk * chunk) < HALF)
  {
    if n <= chunk || (offset == 0 && segment + 32 * ((n - 1) / chunk * chunk) < HALF) {
      forall k: nat | k < n ensures Addr(k, segment, offset, chunk) == 16 * segment + offset + k * SECTOR {
        AddrOff(k, segment, offset, chunk);
      }
    } else {
      PlacementBreaks(lba, n, segment, offset, chunk);
    }
  }

  lemma PlacementBreaks(lba: int, n: nat, segment: int, offset: int, chunk: nat)
    requires 0 <= segment < HALF && 0 <= offset < HALF && (chunk == 1 || chunk == CHUNK) && n > chunk
    requires offset != 0 || segment + 32 * ((n - 1) / chunk * chunk) >= HALF
    ensures Place(From(lba, n), segment, offset, chunk) != Contiguous(lba, n, 16 * segment + offset)
  {
    var k := if offset != 0 then chunk else (n - 1) / chunk * chunk;
    AddrOff(k, segment, offset, chunk);
    assert Place(From(lba, n), segment, offset, chunk)[k].addr != Contiguous(lba, n, 16 * segment + offset)[k].addr;
  }

  /** The k-th sector is off its place by the offset it lacks and by the cut of its segment. */
  lemma AddrOff(k: nat, segment: int, offset: int, chunk: nat)
    requires 0 <= segment < HALF && 0 <= offset < HALF && (chunk == 1 || chunk == CHUNK)
    ensures var start := segment + 32 * (k / chunk * chunk);
      && Addr(k, segment, offset, chunk) ==
         16 * segment + offset + k * SECTOR - 16 * (start - start % HALF) - (if k < chunk then 0 else offset)
      && start - start % HALF >= 0 && (start - start % HALF == 0 <==> start < HALF)
  {
    var p := k / chunk * chunk;
    assert k == p + k % chunk;
    CutOff(segment + 32 * p);
  }

  lemma CutOff(x: nat)
    ensures x - x % HALF >= 0 && (x - x % HALF == 0 <==> x < HALF)
  {}

  /** Sectors one behind the other from base on. */
  function Row(sectors: seq<int>, base: int): (s: seq<Placed>)
    ensures |s| == |sectors|
  {
    seq(|sectors|, j requires 0 <= j < |sectors| => Placed(sectors[j], base + j * SECTOR))
  }

  lemma InARow(lba: int, n: nat, base: int)
    ensures Row(From(lba, n), base) == Contiguous(lba, n, base)
  {}

  lemma FromJoins(lba: int, p: nat, count: nat)
    ensures From(lba, p + count) == From(lba, p) + From(lba + p, count)
  {}

  lemma InRead(p: nat, k: nat, chunk: nat)
    requires (chunk == 1 || chunk == CHUNK) && p % chunk == 0 && p <= k < p + chunk
    ensures k / chunk * chunk == p && k % chunk == k - p && (k < chunk <==> p == 0)
  {}

  /** A 16-bit segment stepped once for each of k sectors. */
  function Segment(first: int, k: nat): (s: int)
    requires 0 <= first < HALF
    ensures 0 <= s < HALF
  {
    if k == 0 then first else (Segment(first, k - 1) + 32) % HALF
  }

  lemma {:induction false} SegmentIs(first: int, k: nat)
    requires 0 <= first < HALF
    ensures Segment(first, k) == (first + 32 * k) % HALF
  {
    if k > 0 {
      SegmentIs(first, k - 1);
      StepOfRemainder(first + 32 * (k - 1));
    }
  }

  lemma StepOfRemainder(x: nat)
    ensures (x % HALF + 32) % HALF == (x + 32) % HALF
  {}

  lemma {:induction false} SegmentSteps(first: int, j: nat, k: nat)
    requires 0 <= first < HALF
    ensures Segment(Segment(first, j), k) == Segment(first, j + k)
  {
    if k > 0 {
      SegmentSteps(first, j, k - 1);
      assert j + k - 1 == j + (k - 1);
    }
  }

  /** The address a loop will give the BIOS after k sectors. */
  ghost predicate Aimed(segment: int, offset: int, k: nat, pSegment: int, pOffset: int)
    requires 0 <= segment < HALF
  {
    pSegment == Segment(segment, k) && pOffset == if k == 0 then offset else 0
  }

  /** One more read, of at most `chunk` sectors. */
  lemma PlaceGrows(sectors: seq<int>, more: seq<int>, segment: int, offset: int, chunk: nat,
                   pSegment: int, pOffset: int)
    requires (chunk == 1 || chunk == CHUNK) && |sectors| % chunk == 0 && |more| <= chunk
    requires 0 <= segment < HALF && Aimed(segment, offset, |sectors|, pSegment, pOffset)
    ensures Place(sectors + more, segment, offset, chunk) ==
            Place(sectors, segment, offset, chunk) + Row(more, 16 * pSegment + pOffset)
  {
    SegmentIs(segment, |sectors|);
    forall k: nat | |sectors| <= k < |sectors| + |more|
      ensures k / chunk * chunk == |sectors| && k % chunk == k - |sectors| && (k < chunk <==> |sectors| == 0)
    {
      InRead(|sectors|, k, chunk);
    }
  }

  lemma WholeChunks(chunks: nat)
    ensures CHUNK * chunks % CHUNK == 0
  {}

  lemma PlaceChunk(lba: int, chunks: nat, count: nat, segment: int, offset: int, pSegment: int, pOffset: int)
    requires 0 <= segment < HALF && 0 < count <= CHUNK
    requires Aimed(segment, offset, CHUNK * chunks, pSegment, pOffset)
    ensures var p := CHUNK * chunks;
      Place(From(lba, p + count), segment, offset, CHUNK) ==
      Place(From(lba, p), segment, offset, CHUNK) + Contiguous(lba + p, count, 16 * pSegment + pOffset)
  {
    var p := CHUNK * chunks;
    WholeChunks(chunks);
    FromJoins(lba, p, count);
    PlaceGrows(From(lba, p), From(lba + p, count), segment, offset, CHUNK, pSegment, pOffset);
    InARow(lba + p, count, 16 * pSegment + pOffset);
  }

  function Min(x: int, y: int): int { if x < y then x else y }

  /** Count sectors less to read, by sub on the low word and sbb on the high one. */
  method CountDown(low: int, high: int, count: int) returns (low': int, high': int)
    requires 0 <= low < HALF && 0 <= high < HALF && 0 <= count < HALF && count <= high * HALF + low
    ensures 0 <= low' < HALF && 0 <= high' < HALF && high' * HALF + low' == high * HALF + low - count
  {
    var borrow := if low < count then 1 else 0;
    low' := (low - count) % HALF;
    high' := (high - borrow) % HALF;
  }

  /** The segment behind the sectors read. */
  method StepSegment(segment: int, count: nat) returns (segment': int)
    requires 0 <= segment < HALF
    ensures segment' == Segment(segment, count)
  {
    segment' := (segment + count * 32) % HALF;
    SegmentIs(segment, count);
  }

  // ---------------------------------------------------------- sectors to load

  /** k sectors are the fewest that hold size bytes. */
  predicate Holds(k: int, size: int) { SECTOR * (k - 1) < size <= SECTOR * k }

  function Halved(x: nat, times: nat): nat { if times == 0 then x else Halved(x, times - 1) / 2 }

  lemma NineHalves(x: nat)
    ensures Halved(x, 9) == x / SECTOR
  {
    assert Halved(x, 1) == x / 2;
    assert Halved(x, 2) == x / 4;
    assert Halved(x, 3) == x / 8;
    assert Halved(x, 4) == x / 16;
    assert Halved(x, 5) == x / 32;
    assert Halved(x, 6) == x / 64;
    assert Halved(x, 7) == x / 128;
    assert Halved(x, 8) == x / 256;
  }

  /** Sectors of a size as the 32-bit sum and the shifts make them. */
  function Rounded(size: nat): nat { (size + 511) % (HALF * HALF) / SECTOR }

  /** The rounding gives the fewest sectors exactly when the sum does not wrap. */
  lemma RoundingIsExact(size: nat)
    requires size < HALF * HALF
    ensures Holds(Rounded(size), size) <==> size + 511 < HALF * HALF
  {}

  /** Nine shifts of both words, the bit leaving one entering the other. */
  method DivideBy512(low: int, high: int) returns (ax: int, dx: int)
    requires 0 <= low < HALF && 0 <= high < HALF
    ensures 0 <= ax < HALF && 0 <= dx < HALF && dx * HALF + ax == (high * HALF + low) / SECTOR
  {
    ax, dx := low, high;
    ghost var sum := high * HALF + low;
    var cx := 9;
    while cx != 0
      invariant 0 <= cx <= 9 && 0 <= ax < HALF && 0 <= dx < HALF
      invariant dx * HALF + ax == Halved(sum, 9 - cx)
    {
      var bit := dx % 2;
      dx := dx / 2;
      ax := bit * (HALF / 2) + ax / 2;
      cx := cx - 1;
    }
    NineHalves(sum);
  }

  /** add on the low word and adc on the high one. */
  method Add511(low: int, high: int) returns (ax: int, dx: int)
    requires 0 <= low < HALF && 0 <= high < HALF
    ensures 0 <= ax < HALF && 0 <= dx < HALF
    ensures dx * HALF + ax == (high * HALF + low + 511) % (HALF * HALF)
  {
    var carry := if low + 511 >= HALF then 1 else 0;
    ax, dx := (low + 511) % HALF, (high + carry) % HALF;
  }

  /** How many sectors of stage 2 are still to load, two being there already. */
  method SectorsPending(low: int, high: int) returns (pending: bool, ax: int, dx: int)
    requires 0 <= low < HALF && 0 <= high < HALF
    ensures 0 <= ax < HALF && 0 <= dx < HALF
    ensures var k := Rounded(high * HALF + low);
      (pending <==> k > 2) && (pending ==> dx * HALF + ax == k - 2)
  {
    ax, dx := Add511(low, high);
    ax, dx := DivideBy512(ax, dx);
    pending := dx != 0 || ax > 2;
    if pending {
      var borrow := if ax < 2 then 1 else 0;
      ax, dx := (ax - 2) % HALF, dx - borrow;
    }
  }

  // --------------------------------------------------------------------- LBA

  /** How many sectors the loop reads: all when they are on the disk, otherwise the whole
      chunks that are. */
  function LbaCount(lba: int, n: nat, capacity: int): (m: nat)
    ensures m <= n
  {
    if n == 0 || lba + n <= capacity then n else if capacity <= lba then 0 else (capacity - lba) / CHUNK * CHUNK
  }

  lemma LbaCountIs(lba: int, n: nat, capacity: int, p: nat, chunks: nat)
    requires p == CHUNK * chunks
    requires p < n && lba + p + Min(CHUNK, n - p) > capacity && (p > 0 ==> lba + p <= capacity)
    ensures LbaCount(lba, n, capacity) == p && lba + n > capacity
  {}

  /** What the loop has placed when it returns. */
  function LbaPlaced(cap: int, lba: int, n: nat, segment: int, offset: int): seq<Placed> {
    Place(From(lba, LbaCount(lba, n, cap)), segment, offset, CHUNK)
  }

  /** load_sectors_lba. The count arrives in two words; every read takes at most 127 sectors. */
  method LoadSectorsLba(low: int, high: int, lba: int, offset: int, segment: int, capacity: int)
    returns (ok: bool, placed: seq<Placed>)
    requires 0 <= low < HALF && 0 <= high < HALF && 0 <= lba < HALF && 0 <= segment < HALF
    ensures var n := high * HALF + low;
      && placed == LbaPlaced(capacity, lba, n, segment, offset)
      && (ok <==> n == 0 || lba + n <= capacity)
  {
    var remainingLow, remainingHigh := low, high;
    var pLba, pSegment, pOffset := lba, segment, offset;
    placed := [];
    ghost var n, chunks: nat := high * HALF + low, 0;
    while remainingLow != 0 || remainingHigh != 0
      invariant 0 <= remainingLow < HALF && 0 <= remainingHigh < HALF
      invariant |placed| <= n && remainingHigh * HALF + remainingLow == n - |placed|
      invariant pLba == lba + |placed|
      invariant Aimed(segment, offset, |placed|, pSegment, pOffset)
      invariant |placed| == n || |placed| == CHUNK * chunks
      invariant |placed| > 0 ==> lba + |placed| <= capacity
      invariant placed == Place(From(lba, |placed|), segment, offset, CHUNK)
      decreases n - |placed|
    {
      var sectors := if remainingHigh == 0 && remainingLow <= CHUNK then remainingLow else CHUNK;
      if pLba + sectors > capacity {
        LbaCountIs(lba, n, capacity, |placed|, chunks);
        return false, placed;
      }
      PlaceChunk(lba, chunks, sectors, segment, offset, pSegment, pOffset);
      SegmentSteps(segment, |placed|, sectors);
      chunks := chunks + 1;
      placed := placed + Contiguous(pLba, sectors, 16 * pSegment + pOffset);
      pLba := pLba + sectors;
      remainingLow, remainingHigh := CountDown(remainingLow, remainingHigh, sectors);
      pSegment := StepSegment(pSegment, sectors);
      pOffset := 0;
    }
    ok := true;
  }

  // ------------------------------------------------------------------ CHS loop

  /** A position the loader can hold: head and sector in range, the cylinder in a word. */
  predicate InRange(g: Geometry, c: Chs) {
    0 <= c.cylinder < HALF && 0 <= c.head < g.heads && 1 <= c.sector <= g.sectors
  }

  /** The sector a BIOS reads for a position, -1 for an error. */
  type Bios = Chs -> int

  /** The BIOS of a disk of the geometry: the position reaches it in ch, cl and dh. */
  function BiosOf(g: Geometry): Bios {
    (c: Chs) =>
      var d := Decode(Ch(c.cylinder), Cl(c.cylinder, c.sector), c.head);
      if OnDisk(g, d) then Number(g, d) else -1
  }

  /** The carries, the cylinder in a word. */
  function Next(g: Geometry, c: Chs): (d: Chs)
    requires GeometryOk(g) && InRange(g, c)
    ensures InRange(g, d)
  {
    var d := Successor(g, c);
    d.(cylinder := d.cylinder % HALF)
  }

  /** The carry reached the cylinder, and led off the disk. */
  predicate Ends(g: Geometry, c: Chs) {
    c.sector == g.sectors && c.head + 1 == g.heads && (c.cylinder + 1) % HALF >= g.cylinders
  }

  /** Whether a loop reports success, and the sectors it read. */
  datatype Run = Run(ok: bool, sectors: seq<int>)

  /** load_sectors_chs from a position on: a read may fail, and the end of the disk ends the
      loop with an error. */
  function ReadAll(g: Geometry, bios: Bios, c: Chs, n: nat): Run
    requires GeometryOk(g) && InRange(g, c)
    decreases n
  {
    if n == 0 then Run(true, [])
    else if bios(c) < 0 then Run(false, [])
    else if Ends(g, c) then Run(false, [bios(c)])
    else
      var r := ReadAll(g, bios, Next(g, c), n - 1);
      Run(r.ok, [bios(c)] + r.sectors)
  }

  /** On a disk of the geometry, from the position of a sector number. */
  function ReadFrom(g: Geometry, lba: int, n: nat): Run
    requires GeometryOk(g) && InRange(g, FromNumber(g, lba))
  {
    ReadAll(g, BiosOf(g), FromNumber(g, lba), n)
  }

  lemma ReadIs(g: Geometry, c: Chs)
    requires GeometryOk(g) && OnDisk(g, c)
    ensures BiosOf(g)(c) == Number(g, c) >= 0
  {
    PackingInverts(c);
    NumberIsNatural(g, c);
  }

  lemma NumberIsNatural(g: Geometry, c: Chs)
    requires GeometryOk(g) && OnDisk(g, c)
    ensures 0 <= Number(g, c)
  {
    MulLe(0, c.cylinder, g.heads);
    MulLe(0, c.cylinder * g.heads + c.head, g.sectors);
  }

  lemma FromFirst(x: int, n: nat)
    requires n > 0
    ensures From(x, n) == [x] + From(x + 1, n - 1)
  {}

  /** pos(x) is a position the loop can hold, the BIOS reads sector x there, the disk ends at
      the last sector, and the carries lead to the next one. */
  ghost predicate Tracks(g: Geometry, bios: Bios, pos: int -> Chs, cap: int, x: int)
    requires GeometryOk(g)
  {
    var c := pos(x);
    && InRange(g, c) && bios(c) == x && (Ends(g, c) <==> x + 1 == cap)
    && (x + 1 < cap ==> Next(g, c) == pos(x + 1))
  }

  lemma {:induction false} ReadsOn(g: Geometry, bios: Bios, pos: int -> Chs, cap: int, x: int, n: nat)
    requires GeometryOk(g) && 0 <= x < cap
    requires forall y {:trigger Tracks(g, bios, pos, cap, y)} | 0 <= y < cap :: Tracks(g, bios, pos, cap, y)
    ensures InRange(g, pos(x))
    ensures ReadAll(g, bios, pos(x), n) == Run(n == 0 || x + n < cap, From(x, Min(n, cap - x)))
    decreases n
  {
    assert Tracks(g, bios, pos, cap, x);
    if n > 0 {
      FromFirst(x, Min(n, cap - x));
      if x + 1 < cap { ReadsOn(g, bios, pos, cap, x + 1, n - 1); }
    }
  }

  /** From a sector on the disk the loop reads the sectors asked for, the stepped position
      always being the divided one, up to the end of the disk. It reports an error after the
      disk's last sector, even when that was the last one asked for. */
  lemma ReadsOnDisk(g: Geometry, x: int, n: nat)
    requires GeometryOk(g) && 0 <= x < Capacity(g)
    ensures InRange(g, FromNumber(g, x))
    ensures ReadFrom(g, x, n) == Run(n == 0 || x + n < Capacity(g), From(x, Min(n, Capacity(g) - x)))
  {
    var pos := y => FromNumber(g, y);
    forall y | 0 <= y < Capacity(g) ensures Tracks(g, BiosOf(g), pos, Capacity(g), y) { TracksDisk(g, pos, y); }
    ReadsOn(g, BiosOf(g), pos, Capacity(g), x, n);
  }

  lemma TracksDisk(g: Geometry, pos: int -> Chs, x: int)
    requires GeometryOk(g) && 0 <= x < Capacity(g) && (forall y :: pos(y) == FromNumber(g, y))
    ensures Tracks(g, BiosOf(g), pos, Capacity(g), x)
  {
    var c := FromNumber(g, x);
    FromNumberOnDisk(g, x);
    ReadIs(g, c);
    EndsIs(g, c);
    if x + 1 < Capacity(g) { SteppedIsDivided(g, x); }
  }

  lemma EndsIs(g: Geometry, c: Chs)
    requires GeometryOk(g) && OnDisk(g, c)
    ensures Ends(g, c) <==> Number(g, c) + 1 == Capacity(g)
  {
    SuccessorCounts(g, c);
    NumberBound(g, c);
  }

  /** The position stepped by carries is the position of the next number. */
  lemma SteppedIsDivided(g: Geometry, x: int)
    requires GeometryOk(g) && 0 <= x && x + 1 < Capacity(g)
    ensures OnDisk(g, FromNumber(g, x)) && Next(g, FromNumber(g, x)) == FromNumber(g, x + 1)
  {
    var c := FromNumber(g, x);
    FromNumberOnDisk(g, x);
    SuccessorCounts(g, c);
    NumberInverts(g, Successor(g, c));
  }

  lemma DivideIsInRange(g: Geometry, x: int)
    requires GeometryOk(g) && 0 <= x < HALF
    ensures InRange(g, FromNumber(g, x))
  {
    DividedHasNumber(g, x);
    Remainder(x, g.sectors);
    Remainder(x / g.sectors, g.heads);
  }

  /** Behind the end of the disk the loop reads only sectors nobody asked for: what it reads
      is right exactly when it starts on the disk or reads nothing, the cylinder's low ten
      bits naming none. */
  lemma ReadsWhatWasAsked(g: Geometry, lba: int, n: nat)
    requires GeometryOk(g) && 0 <= lba < HALF
    ensures InRange(g, FromNumber(g, lba))
    ensures var s := ReadFrom(g, lba, n).sectors; s == From(lba, |s|) <==>
      n == 0 || lba < Capacity(g) || FromNumber(g, lba).cylinder % 1024 >= g.cylinders
  {
    DivideIsInRange(g, lba);
    if lba < Capacity(g) { ReadsOnDisk(g, lba, n); } else { ReadsBehind(g, FromNumber(g, lba), lba, n); }
  }

  lemma ReadsBehind(g: Geometry, c: Chs, lba: int, n: nat)
    requires GeometryOk(g) && InRange(g, c) && Capacity(g) <= lba
    ensures var s := ReadAll(g, BiosOf(g), c, n).sectors;
      s == From(lba, |s|) <==> n == 0 || c.cylinder % 1024 >= g.cylinders
  {
    ReadsFirst(g, BiosOf(g), c, n);
    ReadableIs(g, c);
    if n > 0 && c.cylinder % 1024 < g.cylinders { assert From(lba, n)[0] == lba; }
  }

  lemma ReadsFirst(g: Geometry, bios: Bios, c: Chs, n: nat)
    requires GeometryOk(g) && InRange(g, c)
    ensures var s := ReadAll(g, bios, c, n).sectors;
      if n == 0 || bios(c) < 0 then s == [] else |s| > 0 && s[0] == bios(c)
  {}

  /** Whether a position can be read at all, and that a sector on the disk is what is read. */
  lemma ReadableIs(g: Geometry, c: Chs)
    requires GeometryOk(g) && InRange(g, c)
    ensures BiosOf(g)(c) < Capacity(g)
    ensures BiosOf(g)(c) >= 0 <==> c.cylinder % 1024 < g.cylinders
  {
    LowBits(c.cylinder);
    var d := c.(cylinder := c.cylinder % 1024);
    assert Decode(Ch(c.cylinder), Cl(c.cylinder, c.sector), c.head) == d;
    NumberBound(g, d);
    if OnDisk(g, d) { NumberIsNatural(g, d); } else { CapacityIsPositive(g); }
  }

  lemma CapacityIsPositive(g: Geometry)
    requires GeometryOk(g)
    ensures Capacity(g) > 0
  {
    MulLe(1, g.cylinders, g.heads);
    MulLe(1, g.cylinders * g.heads, g.sectors);
  }

  /** What the loop has placed when it returns. */
  function ChsPlaced(g: Geometry, lba: int, n: nat, segment: int, offset: int): seq<Placed>
    requires GeometryOk(g) && InRange(g, FromNumber(g, lba))
  {
    Place(ReadFrom(g, lba, n).sectors, segment, offset, 1)
  }

  /** load_sectors_chs: the first position, then one sector a time. */
  method LoadSectorsChs(low: int, high: int, lba: int, offset: int, segment: int, g: Geometry)
    returns (ok: bool, placed: seq<Placed>)
    requires 0 <= low < HALF && 0 <= high < HALF && 0 <= lba < HALF && 0 <= segment < HALF && GeometryOk(g)
    ensures InRange(g, FromNumber(g, lba))
    ensures var n := high * HALF + low;
      ok == ReadFrom(g, lba, n).ok && placed == ChsPlaced(g, lba, n, segment, offset)
  {
    var cyl, head, sec := LbaToChs(lba, g);
    ok, placed := ChsLoop(low, high, cyl, head, sec, offset, segment, g, BiosOf(g));
  }

  /** The loop over sectors, its position in a byte for sector and head and a word for the cylinder. */
  method ChsLoop(low: int, high: int, cyl0: int, head0: int, sec0: int, offset: int, segment: int,
                 g: Geometry, bios: Bios)
    returns (ok: bool, placed: seq<Placed>)
    requires 0 <= low < HALF && 0 <= high < HALF && 0 <= segment < HALF
    requires GeometryOk(g) && InRange(g, Chs(cyl0, head0, sec0))
    ensures var r := ReadAll(g, bios, Chs(cyl0, head0, sec0), high * HALF + low);
      ok == r.ok && placed == Place(r.sectors, segment, offset, 1)
  {
    var remainingLow, remainingHigh := low, high;
    var pSegment, pOffset := segment, offset;
    var cyl, head, sec := cyl0, head0, sec0;
    placed := [];
    ghost var n, all, done := high * HALF + low, ReadAll(g, bios, Chs(cyl, head, sec), high * HALF + low), [];
    while remainingLow != 0 || remainingHigh != 0
      invariant 0 <= remainingLow < HALF && 0 <= remainingHigh < HALF
      invariant |done| <= n && remainingHigh * HALF + remainingLow == n - |done|
      invariant InRange(g, Chs(cyl, head, sec)) && 0 <= pSegment < HALF
      invariant Follows(all, done, ReadAll(g, bios, Chs(cyl, head, sec), n - |done|))
      invariant Filled(placed, done, segment, offset, pSegment, pOffset)
      decreases n - |done|
    {
      var sector := bios(Chs(cyl, head, sec));
      FollowsStep(g, bios, all, done, Chs(cyl, head, sec), n - |done|);
      if sector < 0 {
        return false, placed;
      }
      placed, pSegment, pOffset := PlaceSector(placed, sector, pSegment, pOffset, done, segment, offset);
      remainingLow, remainingHigh := CountDown(remainingLow, remainingHigh, 1);
      done := done + [sector];
      var end;
      end, cyl, head, sec := Advance(cyl, head, sec, g);
      if end {
        return false, placed;
      }
    }
    ok := true;
  }

  /** The sectors done are placed, and the loop aims behind them. */
  ghost predicate Filled(placed: seq<Placed>, done: seq<int>, segment: int, offset: int, pSegment: int, pOffset: int)
    requires 0 <= segment < HALF
  {
    placed == Place(done, segment, offset, 1) && Aimed(segment, offset, |done|, pSegment, pOffset)
  }

  /** A sector put where segment and offset point, and the address behind it. */
  method PlaceSector(placed: seq<Placed>, sector: int, pSegment: int, pOffset: int,
                     ghost done: seq<int>, ghost segment: int, ghost offset: int)
    returns (all: seq<Placed>, nextSegment: int, nextOffset: int)
    requires 0 <= segment < HALF && Filled(placed, done, segment, offset, pSegment, pOffset)
    ensures 0 <= nextSegment < HALF && Filled(all, done + [sector], segment, offset, nextSegment, nextOffset)
  {
    PlaceOne(done, sector, segment, offset, pSegment, pOffset);
    all := placed + [Placed(sector, 16 * pSegment + pOffset)];
    nextSegment := StepSegment(pSegment, 1);
    nextOffset := 0;
  }

  /** What a run will have read once the rest has run too. */
  ghost predicate Follows(all: Run, done: seq<int>, rest: Run) {
    all == Run(rest.ok, done + rest.sectors)
  }

  lemma PlaceOne(done: seq<int>, sector: int, segment: int, offset: int, pSegment: int, pOffset: int)
    requires 0 <= segment < HALF && Aimed(segment, offset, |done|, pSegment, pOffset)
    ensures Place(done + [sector], segment, offset, 1) ==
            Place(done, segment, offset, 1) + [Placed(sector, 16 * pSegment + pOffset)]
    ensures Aimed(segment, offset, |done| + 1, Segment(pSegment, 1), 0)
  {
    PlaceGrows(done, [sector], segment, offset, 1, pSegment, pOffset);
    SegmentSteps(segment, |done|, 1);
  }

  lemma FollowsStep(g: Geometry, bios: Bios, all: Run, done: seq<int>, c: Chs, k: nat)
    requires GeometryOk(g) && InRange(g, c) && k > 0 && Follows(all, done, ReadAll(g, bios, c, k))
    ensures bios(c) < 0 ==> all == Run(false, done)
    ensures bios(c) >= 0 && Ends(g, c) ==> all == Run(false, done + [bios(c)])
    ensures bios(c) >= 0 && !Ends(g, c) ==>
              Follows(all, done + [bios(c)], ReadAll(g, bios, Next(g, c), k - 1))
  {
    if bios(c) < 0 { assert done + [] == done; }
    else if !Ends(g, c) {
      var rest := ReadAll(g, bios, Next(g, c), k - 1).sectors;
      assert done + ([bios(c)] + rest) == done + [bios(c)] + rest;
    }
  }

  /** Two divisions, the first one by the sectors of a track. */
  method LbaToChs(lba: int, g: Geometry) returns (cyl: int, head: int, sec: int)
    requires GeometryOk(g) && 0 <= lba < HALF
    ensures Chs(cyl, head, sec) == FromNumber(g, lba) && InRange(g, Chs(cyl, head, sec))
  {
    DivideIsInRange(g, lba);
    sec := lba % g.sectors + 1;
    head := lba / g.sectors % g.heads;
    cyl := lba / g.sectors / g.heads;
  }

  /** Sector, then head, then cylinder, in a byte, a byte and a word; past the last cylinder
      the disk has ended. */
  method Advance(cyl: int, head: int, sec: int, g: Geometry) returns (end: bool, cyl': int, head': int, sec': int)
    requires GeometryOk(g) && InRange(g, Chs(cyl, head, sec))
    ensures Chs(cyl', head', sec') == Next(g, Chs(cyl, head, sec))
    ensures end <==> Ends(g, Chs(cyl, head, sec))
  {
    end, cyl', head', sec' := false, cyl, head, (sec + 1) % 256;
    if sec' <= g.sectors { return; }
    sec', head' := 1, (head + 1) % 256;
    if head' < g.heads { return; }
    head', cyl' := 0, (cyl + 1) % HALF;
    end := !(cyl' < g.cylinders);
  }
}
