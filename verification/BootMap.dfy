// Building the page bitmap from the E820 map (ACPI Specification, section 15.1): where the
// bitmap goes, and which pages start out free.
module BootMap {
  import opened Bits
  import opened PhysicalMap

  const MEM_USABLE := 1
  const ENTRY_SIZE := 24                   // sizeof(struct e820_frame_info)
  const TOP := 0xffff_ffff
  const DOUBLE_WORD := 0x1_0000_0000_0000_0000

  datatype Entry = Entry(base: int, length: int, kind: int)

  datatype Region = Region(start: int, end: int)

  /** The bootstrap's range, the table's address, and where the kernel was loaded. */
  datatype Boot = Boot(entries: seq<Entry>, table: int, bootstrap: Region, kernelStart: int, kernelSize: int)

  function Kernel(b: Boot): Region { Region(b.kernelStart, b.kernelStart + b.kernelSize + 4 * PAGE) }

  function Table(b: Boot): Region { Region(b.table, b.table + |b.entries| * ENTRY_SIZE) }

  // ----------------------------------------------------------------- the top

  ghost predicate IsHighest(entries: seq<Entry>, top: int) {
    && (forall i | 0 <= i < |entries| && entries[i].kind == MEM_USABLE :: entries[i].base + entries[i].length <= top)
    && (top == 0 || exists i :: 0 <= i < |entries| && EndsAt(entries[i], top))
  }

  predicate EndsAt(e: Entry, end: int) { e.kind == MEM_USABLE && e.base + e.length == end }

  /** The map lists ranges of the 64-bit address space. */
  ghost predicate MapOk(entries: seq<Entry>) {
    forall e | e in entries :: 0 <= e.base && 0 <= e.length && e.base + e.length < DOUBLE_WORD
  }

  method GetMaximumUsableAddress(entries: seq<Entry>) returns (highest: int)
    requires MapOk(entries)
    ensures 0 <= highest && IsHighest(entries, highest)
  {
    highest := 0;
    for i := 0 to |entries|
      invariant 0 <= highest && IsHighest(entries[..i], highest)
    {
      var top := (entries[i].base + entries[i].length) % DOUBLE_WORD;
      assert entries[i] in entries;
      assert entries[..i + 1] == entries[..i] + [entries[i]];
      ghost var before := highest;
      if top > highest && entries[i].kind == MEM_USABLE {
        highest := top;
        assert EndsAt(entries[..i + 1][i], highest);
      } else if highest != 0 {
        ghost var j :| 0 <= j < i && EndsAt(entries[..i][j], highest);
        assert EndsAt(entries[..i + 1][j], highest);
      }
    }
    assert entries[..|entries|] == entries;
  }

  // --------------------------------------------------------------- placement

  predicate FramesCollide(xStart: int, xEnd: int, yStart: int, yEnd: int) {
    (yStart <= xStart < yEnd) || (xStart <= yStart < xEnd)
  }

  predicate Within(a: int, r: Region) { r.start <= a < r.end }

  /** Non-empty ranges collide exactly when they share an address. */
  lemma CollidingMeansSharing(x: Region, y: Region)
    requires x.start < x.end && y.start < y.end
    ensures FramesCollide(x.start, x.end, y.start, y.end) <==> exists a :: Within(a, x) && Within(a, y)
  {
    if FramesCollide(x.start, x.end, y.start, y.end) {
      var a := if y.start <= x.start then x.start else y.start;
      assert Within(a, x) && Within(a, y);
    }
  }

  predicate Hits(a: int, len: int, r: Region) { FramesCollide(a, a + len, r.start, r.end) }

  predicate HitsAny(a: int, len: int, b: Boot) {
    Hits(a, len, b.bootstrap) || Hits(a, len, Table(b)) || Hits(a, len, Kernel(b))
  }

  predicate InEntry(e: Entry, x: int) { e.base <= x < e.base + e.length }

  /** A byte of the bootstrap, of the table with its 24 bytes an entry, or of the kernel and the
      four pages behind it. */
  predicate InReserved(b: Boot, x: int) {
    || Within(x, b.bootstrap)
    || b.table <= x < b.table + 24 * |b.entries|
    || b.kernelStart <= x < b.kernelStart + b.kernelSize + 0x4000
  }

  /** The bitmap may start at a: its bytes and the one behind it are in the entry, and its bytes
      in nothing reserved. */
  ghost predicate Fits(b: Boot, e: Entry, len: int, a: int) {
    (forall x | a <= x <= a + len :: InEntry(e, x)) && forall x | a <= x < a + len :: !InReserved(b, x)
  }

  /** The tests of the code, for ranges that are not empty. */
  lemma FitsIs(b: Boot, e: Entry, len: int, a: int)
    requires 0 < len && b.bootstrap.start < b.bootstrap.end && 0 <= b.kernelSize && |b.entries| > 0
    ensures Fits(b, e, len, a) <==> e.base <= a && a + len < e.base + e.length && !HitsAny(a, len, b)
  {
    FreeOfIs(b, len, a);
    if Fits(b, e, len, a) { assert InEntry(e, a) && InEntry(e, a + len); }
  }

  lemma FreeOfIs(b: Boot, len: int, a: int)
    requires 0 < len && b.bootstrap.start < b.bootstrap.end && 0 <= b.kernelSize && |b.entries| > 0
    ensures (forall x | a <= x < a + len :: !InReserved(b, x)) <==> !HitsAny(a, len, b)
  {
    var r := Region(a, a + len);
    CollidingMeansSharing(r, b.bootstrap);
    CollidingMeansSharing(r, Table(b));
    CollidingMeansSharing(r, Kernel(b));
    if HitsAny(a, len, b) {
      var x :| Within(x, r) && (Within(x, b.bootstrap) || Within(x, Table(b)) || Within(x, Kernel(b)));
      assert InReserved(b, x);
    }
    if x :| a <= x < a + len && InReserved(b, x) {
      assert Within(x, r) && (Within(x, b.bootstrap) || Within(x, Table(b)) || Within(x, Kernel(b)));
    }
  }

  predicate Eligible(e: Entry) { e.kind == MEM_USABLE && e.base < 0xffff_ffff }

  ghost predicate NoRoom(b: Boot, e: Entry, len: int) { Eligible(e) ==> forall a :: !Fits(b, e, len, a) }

  /** Entry i is the first with room, and a the lowest place in it. */
  ghost predicate Chosen(b: Boot, len: int, i: int, a: int) {
    && 0 <= i < |b.entries| && Eligible(b.entries[i]) && Fits(b, b.entries[i], len, a)
    && (forall a' | a' < a :: !Fits(b, b.entries[i], len, a'))
    && (forall j | 0 <= j < i :: NoRoom(b, b.entries[j], len))
  }

  /** From an address that hits a range, every address up to the range's end hits it. */
  lemma SkipMissesNothing(x: int, a: int, len: int, r: Region)
    requires Hits(x, len, r) && x <= a < r.end
    ensures Hits(a, len, r)
  {}

  /** A jump past a range that was hit makes progress exactly because the range is not empty;
      an empty one would be hit again at the place jumped to. */
  lemma SkipProgresses(x: int, len: int, r: Region)
    requires 0 < len && Hits(x, len, r) && r.start <= r.end
    ensures r.start < r.end ==> x < r.end
    ensures r.start == r.end ==> Hits(r.end, len, r)
  {}

  /** The inner loop of the search. */
  method SkipReserved(b: Boot, len: int, from: int) returns (start: int)
    requires 0 < len && b.bootstrap.start < b.bootstrap.end && |b.entries| > 0 && 0 <= b.kernelSize
    ensures from <= start && !HitsAny(start, len, b)
    ensures forall a | from <= a < start :: HitsAny(a, len, b)
  {
    start := from;
    var exit := false;
    ghost var most := Max(b.bootstrap.end, Max(Table(b).end, Kernel(b).end));
    while !exit
      invariant from <= start && (exit ==> !HitsAny(start, len, b))
      invariant forall a | from <= a < start :: HitsAny(a, len, b)
      decreases !exit, if start < most then most - start else 0
    {
      if FramesCollide(start, start + len, b.bootstrap.start, b.bootstrap.end) {
        SkipAll(start, len, b, b.bootstrap);
        start := b.bootstrap.end;
      } else if FramesCollide(start, start + len, Table(b).start, Table(b).end) {
        SkipAll(start, len, b, Table(b));
        start := Table(b).end;
      } else if FramesCollide(start, start + len, Kernel(b).start, Kernel(b).end) {
        SkipAll(start, len, b, Kernel(b));
        start := Kernel(b).end;
      } else {
        exit := true;
      }
    }
  }

  function Max(x: int, y: int): int { if x < y then y else x }

  lemma SkipAll(x: int, len: int, b: Boot, r: Region)
    requires 0 < len && r.start < r.end && Hits(x, len, r) && (r == b.bootstrap || r == Table(b) || r == Kernel(b))
    ensures x < r.end && forall a | x <= a < r.end :: HitsAny(a, len, b)
  {
    forall a | x <= a < r.end ensures HitsAny(a, len, b) { SkipMissesNothing(x, a, len, r); }
  }

  method FindBitmapPlace(b: Boot, len: int) returns (found: bool, addr: int, ghost at: int)
    requires 0 < len && b.bootstrap.start < b.bootstrap.end && 0 <= b.kernelSize
    ensures found ==> Chosen(b, len, at, addr)
    ensures !found ==> forall j | 0 <= j < |b.entries| :: NoRoom(b, b.entries[j], len)
  {
    found, addr, at := false, 0, 0;
    var i := 0;
    while i < |b.entries| && !found
      invariant 0 <= i <= |b.entries|
      invariant found ==> Chosen(b, len, at, addr)
      invariant !found ==> forall j | 0 <= j < i :: NoRoom(b, b.entries[j], len)
      decreases |b.entries| - i
    {
      var e := b.entries[i];
      forall a ensures Fits(b, e, len, a) <==>
                       e.base <= a && a + len < e.base + e.length && !HitsAny(a, len, b) { FitsIs(b, e, len, a); }
      if e.kind == MEM_USABLE && !(e.length < len) && !(e.base >= TOP) {
        addr := SkipReserved(b, len, e.base);
        if addr + len < e.base + e.length {
          found, at := true, i;
        }
      }
      i := i + 1;
    }
  }

  // ---------------------------------------------------------------- the bitmap

  /** The 32-bit range the code marks for an entry. */
  function Low32(e: Entry): int { e.base % WORD }
  function Span32(e: Entry): int { e.length % WORD }

  predicate Frees(e: Entry, p: int) { e.kind == MEM_USABLE && InnerPage(Low32(e), Span32(e), p) }

  ghost predicate FreedBy(entries: seq<Entry>, n: nat, p: int)
    requires n <= |entries|
  {
    exists j :: 0 <= j < n && Frees(entries[j], p)
  }

  predicate Reserves(r: Region, p: int) { OuterPage(r.start, r.end - r.start, p) }

  /** What the boot loader hands over: reserved ranges below the top of usable memory, usable
      entries that start below 4 GiB end a page short of it, and truncated ones do not wrap. */
  ghost predicate BootOk(b: Boot, top: int) {
    && MapOk(b.entries) && 0 <= top && IsHighest(b.entries, top)
    && 0 <= b.bootstrap.start < b.bootstrap.end <= top && b.bootstrap.end + PAGE <= WORD
    && 0 <= b.kernelStart && 0 <= b.kernelSize && Kernel(b).end <= top && Kernel(b).end + PAGE <= WORD
    && forall e | e in b.entries && e.kind == MEM_USABLE ::
         && Low32(e) + Span32(e) < WORD
         && (e.base < TOP ==> e.base + e.length + PAGE <= WORD)
  }

  /** Bits are clear exactly for pages wholly inside a usable entry and outside page 0 and
      the pages of the bootstrap, the kernel with its four pages, and the bitmap itself. */
  ghost predicate IsBootBitmap(b: Boot, bits: seq<bv8>, len: nat, addr: int) {
    && len <= |bits|
    && forall p: nat | p < 8 * len ::
         !Used(bits, p) <==>
           && FreedBy(b.entries, |b.entries|, p) && p != 0
           && !Reserves(b.bootstrap, p) && !Reserves(Kernel(b), p) && !Reserves(Region(addr, addr + len), p)
  }

  /** x is one of the 4096 addresses of page p. */
  predicate OnPage(p: int, x: int) { p * 4096 <= x < p * 4096 + 4096 }

  /** A byte that stays reserved: of the bootstrap, of the kernel with four pages, of the bitmap. */
  predicate Keeps(b: Boot, len: nat, addr: int, x: int) {
    || b.bootstrap.start <= x < b.bootstrap.end
    || b.kernelStart <= x < b.kernelStart + b.kernelSize + 0x4000
    || addr <= x < addr + len
  }

  /** All of page p lies in the entry, cut to 32 bits. */
  ghost predicate Covers(e: Entry, p: int) {
    var base, length := e.base % 0x1_0000_0000, e.length % 0x1_0000_0000;
    e.kind == 1 && forall x | OnPage(p, x) :: base <= x < base + length
  }

  /** The bitmap in terms of bytes: the page of every byte kept is marked used, and a page is free
      exactly when it is not page 0, one usable entry covers it, and none of its bytes is kept. */
  ghost predicate SaysInBytes(b: Boot, bits: seq<bv8>, len: nat, addr: int)
    requires len <= |bits|
  {
    && (forall x | Keeps(b, len, addr, x) :: 0 <= x / 4096 < 8 * len && Used(bits, x / 4096))
    && forall p: nat | p < 8 * len ::
         !Used(bits, p) <==>
           && p != 0 && (exists j :: 0 <= j < |b.entries| && Covers(b.entries[j], p))
           && forall x | OnPage(p, x) :: !Keeps(b, len, addr, x)
  }

  lemma CoversIs(e: Entry, p: int)
    ensures Covers(e, p) <==> Frees(e, p)
  {
    if Covers(e, p) { assert OnPage(p, p * 4096) && OnPage(p, p * 4096 + 4095); }
  }

  lemma KeepsIs(b: Boot, len: nat, addr: int, p: int)
    requires b.bootstrap.start < b.bootstrap.end && 0 <= b.kernelSize && 0 < len
    ensures (exists x :: OnPage(p, x) && Keeps(b, len, addr, x)) <==>
            Reserves(b.bootstrap, p) || Reserves(Kernel(b), p) || Reserves(Region(addr, addr + len), p)
  {
    SharesByte(b.bootstrap, p);
    SharesByte(Kernel(b), p);
    SharesByte(Region(addr, addr + len), p);
    if x :| OnPage(p, x) && Keeps(b, len, addr, x) {
      assert Within(x, b.bootstrap) || Within(x, Kernel(b)) || Within(x, Region(addr, addr + len));
    }
    if x :| OnPage(p, x) && (Within(x, b.bootstrap) || Within(x, Kernel(b)) || Within(x, Region(addr, addr + len))) {
      assert Keeps(b, len, addr, x);
    }
  }

  lemma SharesByte(r: Region, p: int)
    requires r.start < r.end
    ensures Reserves(r, p) <==> exists x :: OnPage(p, x) && Within(x, r)
  {
    if Reserves(r, p) {
      var x := if r.start <= p * 4096 then p * 4096 else r.start;
      assert OnPage(p, x) && Within(x, r);
    }
  }

  lemma BootBitmapInBytes(b: Boot, top: int, bits: seq<bv8>, len: nat, addr: int)
    requires BootOk(b, top) && len == top / 32768 + 1 && 0 <= addr && addr + len <= top
    requires IsBootBitmap(b, bits, len, addr)
    ensures SaysInBytes(b, bits, len, addr)
  {
    forall x | Keeps(b, len, addr, x) ensures 0 <= x / 4096 < 8 * len && Used(bits, x / 4096) {
      LengthIsLeast(top);
      KeepsIs(b, len, addr, x / 4096);
      assert OnPage(x / 4096, x);
    }
    forall p: nat | p < 8 * len
      ensures !Used(bits, p) <==>
        && p != 0 && (exists j :: 0 <= j < |b.entries| && Covers(b.entries[j], p))
        && forall x | OnPage(p, x) :: !Keeps(b, len, addr, x)
    {
      KeepsIs(b, len, addr, p);
      forall j | 0 <= j < |b.entries| ensures Covers(b.entries[j], p) <==> Frees(b.entries[j], p) {
        CoversIs(b.entries[j], p);
      }
      assert FreedBy(b.entries, |b.entries|, p) <==> exists j :: 0 <= j < |b.entries| && Covers(b.entries[j], p);
    }
  }

  /** The bitmap has a bit for every page below the top, and with a byte less it would not have
      one for the page at the top. */
  lemma LengthIsLeast(top: int)
    requires 0 <= top
    ensures forall x | 0 <= x <= top :: x / 4096 < 8 * (top / 32768 + 1)
    ensures forall len | top / 4096 < 8 * len :: top / 32768 + 1 <= len
  {}

  lemma InBounds(entries: seq<Entry>, top: int, e: Entry)
    requires MapOk(entries) && IsHighest(entries, top) && e in entries && e.kind == MEM_USABLE
    ensures 0 <= Low32(e) && 0 <= Span32(e) && Low32(e) + Span32(e) <= top
    ensures (Low32(e) + Span32(e)) / PAGE < 8 * (top / 32768 + 1)
  {
    var i :| 0 <= i < |entries| && entries[i] == e;
  }

  lemma EndInBounds(end: int, top: int)
    requires 0 <= end <= top
    ensures (end + PAGE - 1) / PAGE <= 8 * (top / 32768 + 1)
  {}

  method MarkUsableFromE820(b: Boot, m: PhysicalMemoryMap, ghost top: int)
    requires BootOk(b, top) && m.len == top / 32768 + 1 && m.bitmap.Length == m.len + 1
    modifies m.bitmap
    ensures forall p: nat | p < 8 * m.bitmap.Length ::
              Used(m.bitmap[..], p) <==> Used(old(m.bitmap[..]), p) && !FreedBy(b.entries, |b.entries|, p)
  {
    for i := 0 to |b.entries|
      invariant forall p: nat | p < 8 * m.bitmap.Length ::
                  Used(m.bitmap[..], p) <==> Used(old(m.bitmap[..]), p) && !FreedBy(b.entries, i, p)
    {
      var e := b.entries[i];
      ghost var was := m.bitmap[..];
      if e.kind == MEM_USABLE {
        InBounds(b.entries, top, e);
        m.MarkRangeAsUsable(e.base % WORD, e.length % WORD);
      }
      forall p: nat | p < 8 * m.bitmap.Length
        ensures Used(m.bitmap[..], p) <==> Used(old(m.bitmap[..]), p) && !FreedBy(b.entries, i + 1, p)
      {
        FreedStep(b.entries, i, p);
        assert Used(m.bitmap[..], p) <==> Used(was, p) && !Frees(e, p);
      }
    }
  }

  lemma FreedStep(entries: seq<Entry>, i: nat, p: int)
    requires i < |entries|
    ensures FreedBy(entries, i + 1, p) <==> FreedBy(entries, i, p) || Frees(entries[i], p)
  {
    if FreedBy(entries, i, p) {
      var j :| 0 <= j < i && Frees(entries[j], p);
      assert Frees(entries[j], p) && j < i + 1;
    }
  }

  /** Some page is reserved again: the bootstrap, the kernel, the bitmap, or page 0. */
  predicate TakenBack(b: Boot, len: nat, addr: int, p: int) {
    Reserves(b.bootstrap, p) || Reserves(Kernel(b), p) || Reserves(Region(addr, addr + len), p) || p == 0
  }

  method MarkReserved(b: Boot, m: PhysicalMemoryMap, addr: int, ghost top: int)
    requires BootOk(b, top) && m.len == top / 32768 + 1 && m.bitmap.Length == m.len + 1
    requires 0 <= addr && addr + m.len <= top && addr + m.len + PAGE <= WORD
    modifies m.bitmap
    ensures forall p: nat | p < 8 * m.bitmap.Length ::
              Used(m.bitmap[..], p) <==> Used(old(m.bitmap[..]), p) || TakenBack(b, m.len, addr, p)
  {
    EndInBounds(b.bootstrap.end, top);
    EndInBounds(Kernel(b).end, top);
    EndInBounds(addr + m.len, top);
    m.MarkRangeAsUsed(b.bootstrap.start, b.bootstrap.end - b.bootstrap.start);
    m.MarkRangeAsUsed(b.kernelStart, b.kernelSize + 4 * PAGE);
    m.MarkRangeAsUsed(addr, m.len);
    ghost var was := m.bitmap[..];
    m.bitmap[0] := m.bitmap[0] | 0x80;
    assert m.bitmap[..] == SetPage(was, 0);
    forall p: nat | p < 8 * m.bitmap.Length ensures Used(m.bitmap[..], p) <==> Used(was, p) || p == 0 {
      SetPageBits(was, 0, p);
    }
  }

  lemma StartsUsed(bits: seq<bv8>, len: nat)
    requires len <= |bits| && forall i | 0 <= i < len :: bits[i] == FULL
    ensures forall p: nat | p < 8 * len :: Used(bits, p)
  {
    forall p: nat | p < 8 * len ensures Used(bits, p) { Constants(p % 8); }
  }

  /** No mark reaches the byte behind the bitmap. */
  lemma BehindIsLeftAlone(b: Boot, top: int, addr: int, was: seq<bv8>, now: seq<bv8>)
    requires BootOk(b, top)
    requires var len := top / 32768 + 1; |was| == |now| == len + 1 && 0 <= addr && addr + len <= top
    requires var len := top / 32768 + 1;
      forall p: nat | p < 8 * |was| ::
        Used(now, p) <==> (Used(was, p) && !FreedBy(b.entries, |b.entries|, p)) || TakenBack(b, len, addr, p)
    ensures now[top / 32768 + 1] == was[top / 32768 + 1]
  {
    var len := top / 32768 + 1;
    EndInBounds(b.bootstrap.end, top);
    EndInBounds(Kernel(b).end, top);
    EndInBounds(addr + len, top);
    forall k | 0 <= k < 8 ensures Bit(now[len], k) <==> Bit(was[len], k) {
      var p := 8 * len + k;
      assert p / 8 == len && p % 8 == k;
      NothingFreedBehind(b, top, p);
      assert Used(now, p) <==> Used(was, p);
    }
    SameBits(now[len], was[len]);
  }

  lemma NothingFreedBehind(b: Boot, top: int, p: nat)
    requires BootOk(b, top) && 8 * (top / 32768 + 1) <= p
    ensures !FreedBy(b.entries, |b.entries|, p)
  {
    forall j | 0 <= j < |b.entries| ensures !Frees(b.entries[j], p) {
      if b.entries[j].kind == MEM_USABLE { InBounds(b.entries, top, b.entries[j]); }
    }
  }

  lemma ChosenIsLow(b: Boot, top: int, len: nat, at: int, addr: int)
    requires BootOk(b, top) && 0 < len && Chosen(b, len, at, addr)
    ensures 0 <= addr && addr + len <= top && addr + len + PAGE <= WORD
  {
    assert b.entries[at] in b.entries;
    FitsIs(b, b.entries[at], len, addr);
  }

  /** arch_pmm_init. behind is the byte of memory after the bitmap, which the end mask of a
      range may touch; it lies inside the entry the bitmap was placed in, and is not changed. */
  method ArchPmmInit(b: Boot, behind: bv8, ghost top: int)
    returns (ok: bool, m: PhysicalMemoryMap, addr: int, ghost at: int)
    requires BootOk(b, top)
    ensures m.Valid() && m.len == top / 32768 + 1 && m.bitmap.Length == m.len + 1
    ensures ok ==> Chosen(b, m.len, at, addr) && IsBootBitmap(b, m.bitmap[..], m.len, addr)
    ensures ok ==> SaysInBytes(b, m.bitmap[..], m.len, addr)
    ensures ok ==> m.bitmap[m.len] == behind
    ensures !ok ==> forall j | 0 <= j < |b.entries| :: NoRoom(b, b.entries[j], m.len)
  {
    var highest := GetMaximumUsableAddress(b.entries);
    HighestIsUnique(b.entries, highest, top);
    var bytes := highest / 32768 + 1;
    var memory := new bv8[bytes + 1];
    memory[bytes] := behind;
    m := new PhysicalMemoryMap(memory, bytes);
    var found;
    found, addr, at := FindBitmapPlace(b, bytes);
    if found { ChosenIsLow(b, top, bytes, at, addr); }
    if !found || addr >= TOP {
      ok := false;
      return;
    }
    ok := true;
    FillBitmap(b, m, addr, top);
    BootBitmapInBytes(b, top, m.bitmap[..], m.len, addr);
  }

  lemma HighestIsUnique(entries: seq<Entry>, x: int, y: int)
    requires MapOk(entries) && 0 <= x && 0 <= y && IsHighest(entries, x) && IsHighest(entries, y)
    ensures x == y
  {}

  method FillBitmap(b: Boot, m: PhysicalMemoryMap, addr: int, ghost top: int)
    requires BootOk(b, top) && m.Valid() && m.len == top / 32768 + 1 && m.bitmap.Length == m.len + 1
    requires 0 <= addr && addr + m.len <= top && addr + m.len + PAGE <= WORD
    modifies m.bitmap
    ensures IsBootBitmap(b, m.bitmap[..], m.len, addr) && m.bitmap[m.len] == old(m.bitmap[m.len])
  {
    m.Fill(FULL, 0, m.len);
    ghost var full := m.bitmap[..];
    StartsUsed(full, m.len);
    MarkUsableFromE820(b, m, top);
    MarkReserved(b, m, addr, top);
    BehindIsLeftAlone(b, top, addr, full, m.bitmap[..]);
  }

  /** Cutting an entry to 32 bits frees the right pages exactly when the entry ends below
      4 GiB or holds no whole page. */
  lemma TruncationIsHarmless(e: Entry)
    requires 0 <= e.base && 0 <= e.length && Low32(e) + Span32(e) < WORD
    ensures (forall p :: InnerPage(Low32(e), Span32(e), p) <==> InnerPage(e.base, e.length, p)) <==>
            e.base + e.length < WORD || (e.base + e.length) / PAGE <= (e.base + PAGE - 1) / PAGE
  {
    var last := (e.base + e.length) / PAGE - 1;
    if e.base + e.length >= WORD {
      if last >= (e.base + PAGE - 1) / PAGE {
        assert InnerPage(e.base, e.length, last) && !InnerPage(Low32(e), Span32(e), last);
      } else {
        TruncatedEmpty(e);
      }
    }
  }

  /** Cutting a usable entry to 32 bits changes no page of it. */
  predicate Uncut(e: Entry) {
    e.kind == MEM_USABLE ==>
      e.base + e.length < WORD || (e.base + e.length) / PAGE <= (e.base + PAGE - 1) / PAGE
  }

  /** No usable entry is changed by cutting it to 32 bits. */
  ghost predicate FitsWord(entries: seq<Entry>) {
    forall e | e in entries :: Uncut(e) && (e.kind == MEM_USABLE ==> Low32(e) + Span32(e) < WORD)
  }

  /** p lies wholly inside a usable entry of the map as the firmware gave it. */
  ghost predicate Usable(entries: seq<Entry>, p: int) {
    exists j :: 0 <= j < |entries| && InUsable(entries[j], p)
  }

  predicate InUsable(e: Entry, p: int) { e.kind == MEM_USABLE && InnerPage(e.base, e.length, p) }

  /** Page p of the bitmap says what the map itself does. */
  ghost predicate SaysOf(b: Boot, bits: seq<bv8>, len: nat, addr: int, p: nat)
    requires p < 8 * |bits|
  {
    !Used(bits, p) <==> Usable(b.entries, p) && !TakenBack(b, len, addr, p)
  }

  /** The boot bitmap in terms of the map itself: the free pages are the usable ones outside
      everything reserved exactly when no usable entry with a whole page reaches 4 GiB. */
  lemma BootBitmapIsExact(b: Boot, top: int, bits: seq<bv8>, len: nat, addr: int)
    requires BootOk(b, top) && len == top / 32768 + 1 && addr + len + PAGE <= WORD
    requires IsBootBitmap(b, bits, len, addr)
    ensures (forall p: nat | p < 8 * len :: SaysOf(b, bits, len, addr, p)) <==> FitsWord(b.entries)
  {
    if FitsWord(b.entries) {
      forall p: nat | p < 8 * len ensures SaysOf(b, bits, len, addr, p) { SaysWhatMapDoes(b, bits, len, addr, p); }
    } else {
      var e :| e in b.entries && !Uncut(e);
      LosesLastPage(b, top, bits, len, addr, e);
    }
  }

  lemma SaysWhatMapDoes(b: Boot, bits: seq<bv8>, len: nat, addr: int, p: nat)
    requires MapOk(b.entries) && FitsWord(b.entries)
    requires IsBootBitmap(b, bits, len, addr) && p < 8 * len
    ensures SaysOf(b, bits, len, addr, p)
  {
    forall j | 0 <= j < |b.entries| ensures Frees(b.entries[j], p) <==> InUsable(b.entries[j], p) {
      var e := b.entries[j];
      assert e in b.entries;
      if e.kind == MEM_USABLE { TruncationIsHarmless(e); }
    }
    if Usable(b.entries, p) {
      var j :| 0 <= j < |b.entries| && InUsable(b.entries[j], p);
      assert Frees(b.entries[j], p);
    }
    assert !Used(bits, p) <==> FreedBy(b.entries, |b.entries|, p) && !TakenBack(b, len, addr, p);
  }

  /** The last page of an entry that is cut lies above 4 GiB: usable, in the bitmap, reserved
      by nothing, and freed by nothing. */
  lemma LosesLastPage(b: Boot, top: int, bits: seq<bv8>, len: nat, addr: int, e: Entry)
    requires BootOk(b, top) && len == top / 32768 + 1 && addr + len + PAGE <= WORD
    requires IsBootBitmap(b, bits, len, addr) && e in b.entries && !Uncut(e)
    ensures var p := (e.base + e.length) / PAGE - 1; 0 <= p < 8 * len && !SaysOf(b, bits, len, addr, p)
  {
    var p := (e.base + e.length) / PAGE - 1;
    LastPageIsHigh(b, top, e);
    forall j | 0 <= j < |b.entries| ensures !Frees(b.entries[j], p) {
      assert b.entries[j] in b.entries;
      if b.entries[j].kind == MEM_USABLE { LowRangeEnds(b.entries[j]); }
    }
    assert !FreedBy(b.entries, |b.entries|, p);
    assert !TakenBack(b, len, addr, p);
  }

  lemma LastPageIsHigh(b: Boot, top: int, e: Entry)
    requires BootOk(b, top) && e in b.entries && !Uncut(e)
    ensures var p := (e.base + e.length) / PAGE - 1;
      0x10_0000 <= p < 8 * (top / 32768 + 1) && Usable(b.entries, p)
  {
    var p := (e.base + e.length) / PAGE - 1;
    var j :| 0 <= j < |b.entries| && b.entries[j] == e;
    assert InUsable(b.entries[j], p);
    assert e.base + e.length <= top;
  }

  lemma LowRangeEnds(e: Entry)
    requires Low32(e) + Span32(e) < WORD
    ensures (Low32(e) + Span32(e)) / PAGE <= 0x10_0000
    ensures forall p | p >= 0x10_0000 :: !InnerPage(Low32(e), Span32(e), p)
  {}

  lemma TruncatedEmpty(e: Entry)
    requires 0 <= e.base && 0 <= e.length && (e.base + e.length) / PAGE <= (e.base + PAGE - 1) / PAGE
    ensures (Low32(e) + Span32(e)) / PAGE <= (Low32(e) + PAGE - 1) / PAGE
  {
    var k := e.base / WORD;
    assert e.base == Low32(e) + k * WORD;
    assert Span32(e) == e.length;
  }
}
