// From the boot to the running kernel: the bitmap arch_pmm_init builds and the kernel table
// arch_vmm_init leaves are a sound start for the page allocator and the heap.
module KernelBoot {
  import Bits
  import B = BootMap
  import T = PageTables
  import V = VirtualMemory
  import H = HeapModel
  import K = KernelHeap

  const PAGE := T.PAGE
  const BOOT_FLAGS := 3               // present and read-write

  /** The kernel table as the boot fills it: every entry leads to the next page from where the
      kernel was loaded. */
  ghost predicate BootEntries(tables: array2<int>, start: int)
    requires tables.Length0 == tables.Length1 == T.ENTRIES
    reads tables
  {
    forall i | 0 <= i < T.ENTRIES :: tables[T.KERNEL_IDX, i] == start + i * PAGE + BOOT_FLAGS
  }

  function PagesOf(size: int): int { (size + PAGE - 1) / PAGE }

  /** The same with only the kernel's own pages mapped. */
  ghost predicate KernelTable(t: seq<int>, start: int, size: int) {
    && |t| == T.ENTRIES
    && forall i | 0 <= i < |t| :: t[i] == if i < PagesOf(size) then start + i * PAGE + BOOT_FLAGS else 0
  }

  /** Where the linker and the boot put the kernel. */
  predicate KernelOk(b: B.Boot) { b.kernelStart % PAGE == 0 && PAGE <= b.kernelStart }

  /** arch_vmm_init on the boot's tables leaves such a kernel table, in an address space the
      page allocator can work with. The page the boot used for its identity map is the empty swap
      table now. */
  method KernelSpace(tables: array2<int>, b: B.Boot, ghost top: int, frames: V.P.PhysicalMemoryMap)
    returns (space: V.AddressSpace)
    requires tables.Length0 == tables.Length1 == T.ENTRIES && B.BootOk(b, top)
    requires frames.Valid() && 0 < frames.len && frames.bitmap != (tables as object)
    requires T.Present(tables[T.DIRECTORY, T.KERNEL_IDX])
    requires BootEntries(tables, b.kernelStart) && (b.kernelStart + b.kernelSize) % PAGE == 0
    requires tables[T.DIRECTORY, 0] == b.kernelStart + b.kernelSize + PAGE + BOOT_FLAGS
    modifies tables
    ensures space.Valid() && space.tables == tables && space.pmm == frames
    ensures space.View() == T.Space(space.View().table, old(frames.bitmap[..]), frames.len)
    ensures KernelTable(space.View().table, b.kernelStart, b.kernelSize)
    ensures T.FrameAddr(tables[T.DIRECTORY, 0x3fe]) == T.FrameAddr(old(tables[T.DIRECTORY, 0]))
    ensures T.Present(tables[T.DIRECTORY, 0x3fe]) && forall j | 0 <= j < T.ENTRIES :: tables[0x3fe, j] == 0
  {
    V.ArchVmmInit(tables, b.kernelStart + b.kernelSize, b.kernelSize);
    SwapEntry(b.kernelStart + b.kernelSize);
    PagesFit(b.kernelSize);
    space := new V.AddressSpace(tables, frames);
  }

  lemma SwapEntry(directory: int)
    requires 0 <= directory && directory % PAGE == 0 && directory + PAGE < T.WORD
    ensures var e := T.WithFlags(T.FrameAddr((directory + PAGE) % T.WORD));
      T.Present(e) && T.FrameAddr(e) == directory + PAGE == T.FrameAddr(directory + PAGE + BOOT_FLAGS)
  {
    PageAligned(directory + PAGE);
    T.FlagsKeepFrame(directory + PAGE);
  }

  lemma PageAligned(a: int)
    requires 0 <= a < T.WORD && a % PAGE == 0
    ensures a % T.WORD == a && T.FrameAddr(a) == a && T.FrameAddr(a + BOOT_FLAGS) == a
  {}

  lemma PagesFit(size: int)
    requires 0 <= size && size + PAGE < T.WORD
    ensures (size + PAGE - 1) % T.WORD / PAGE == PagesOf(size)
  {}

  lemma KernelEntry(start: int, i: nat)
    requires start % PAGE == 0 && PAGE <= start
    ensures var e := start + i * PAGE + BOOT_FLAGS;
      0 < e && T.Present(e) && T.Frame(e) == start / PAGE + i && 0 < T.Frame(e)
  {}

  /** A page of the loaded kernel is marked used. */
  lemma KernelPageIsUsed(b: B.Boot, top: int, bits: seq<bv8>, len: nat, addr: int, i: nat)
    requires B.BootOk(b, top) && len == top / 32768 + 1 && B.IsBootBitmap(b, bits, len, addr)
    requires i < PagesOf(b.kernelSize) + 4
    ensures b.kernelStart / PAGE + i < 8 * len && Bits.Used(bits, b.kernelStart / PAGE + i)
  {
    var f: nat := b.kernelStart / PAGE + i;
    B.EndInBounds(B.Kernel(b).end, top);
    assert B.Reserves(B.Kernel(b), f);
  }

  /** The start is sound: exact ownership, the pages of the kernel owned by its entries and all
      other used pages reserved, and an empty heap on top. */
  lemma KernelStartsSound(b: B.Boot, top: int, bits: seq<bv8>, len: nat, addr: int, t: seq<int>)
    requires B.BootOk(b, top) && len == top / 32768 + 1 && B.IsBootBitmap(b, bits, len, addr) && KernelOk(b)
    requires KernelTable(t, b.kernelStart, b.kernelSize)
    ensures var s := T.Space(t, bits, len); T.SpaceOk(s) && K.Inv(K.Kernel(H.EMPTY, s), T.UsedUnmapped(s))
  {
    var s := T.Space(t, bits, len);
    forall i: nat | i < T.ENTRIES ensures T.EntryOk(s, {0}, i) {
      KernelEntry(b.kernelStart, i);
      if i < PagesOf(b.kernelSize) { KernelPageIsUsed(b, top, bits, len, addr, i); }
    }
    forall i: nat, j: nat | i < j < T.ENTRIES ensures T.Apart(s, i, j) {
      KernelEntry(b.kernelStart, i);
      KernelEntry(b.kernelStart, j);
    }
    T.StartsOwned(s);
    K.StartsSound(K.Kernel(H.EMPTY, s), T.UsedUnmapped(s));
  }

  /** Page f holds part of the bitmap, or is one of the four behind the kernel, its directory
      and tables. */
  predicate HoldsTables(b: B.Boot, len: nat, addr: int, f: int) {
    var n := f - b.kernelStart / PAGE - PagesOf(b.kernelSize);
    B.Reserves(B.Region(addr, addr + len), f) || 0 <= n < 4
  }

  /** Those pages are reserved. */
  lemma TablesAreReserved(b: B.Boot, top: int, bits: seq<bv8>, len: nat, at: int, addr: int, t: seq<int>, f: nat)
    requires B.BootOk(b, top) && len == top / 32768 + 1 && B.IsBootBitmap(b, bits, len, addr) && KernelOk(b)
    requires B.Chosen(b, len, at, addr) && KernelTable(t, b.kernelStart, b.kernelSize) && f < 8 * len
    requires HoldsTables(b, len, addr, f)
    ensures T.SpaceOk(T.Space(t, bits, len)) && f in T.UsedUnmapped(T.Space(t, bits, len))
  {
    var s := T.Space(t, bits, len);
    var n := f - b.kernelStart / PAGE;
    if PagesOf(b.kernelSize) <= n < PagesOf(b.kernelSize) + 4 { KernelPageIsUsed(b, top, bits, len, addr, n); }
    forall i: nat | i < T.ENTRIES ensures !T.Backs(s, f, i) {
      KernelEntry(b.kernelStart, i);
      if i < PagesOf(b.kernelSize) && f == b.kernelStart / PAGE + i { BitmapIsApart(b, len, at, addr, f); }
    }
  }

  /** The place chosen for the bitmap shares no page with the loaded kernel. */
  lemma BitmapIsApart(b: B.Boot, len: nat, at: int, addr: int, f: int)
    requires 0 < len && B.Chosen(b, len, at, addr) && KernelOk(b) && 0 <= b.kernelSize
    requires b.bootstrap.start < b.bootstrap.end
    requires b.kernelStart / PAGE <= f < b.kernelStart / PAGE + PagesOf(b.kernelSize)
    ensures !B.Reserves(B.Region(addr, addr + len), f)
  {
    B.FitsIs(b, b.entries[at], len, addr);
    assert !B.Hits(addr, len, B.Kernel(b));
  }

  /** No run of legal calls from the boot on gives the heap a page that holds the bitmap or the
      page tables. */
  lemma TablesAreNeverHandedOut(b: B.Boot, top: int, bits: seq<bv8>, len: nat, at: int, addr: int, t: seq<int>,
                                states: seq<K.Kernel>, calls: seq<K.Call>, m: nat, p: int)
    requires B.BootOk(b, top) && len == top / 32768 + 1 && B.IsBootBitmap(b, bits, len, addr) && KernelOk(b)
    requires B.Chosen(b, len, at, addr) && KernelTable(t, b.kernelStart, b.kernelSize)
    requires K.IsRun(states, calls) && states[0] == K.Kernel(H.EMPTY, T.Space(t, bits, len)) && m <= |calls|
    requires forall i | 0 <= i < m :: K.Legal(states[i], calls[i])
    requires p in states[m].heap.pages
    ensures 0 <= T.Pti(p) < |states[m].space.table| && !HoldsTables(b, len, addr, K.FrameOf(states[m].space, p))
  {
    var reserved := T.UsedUnmapped(T.Space(t, bits, len));
    KernelStartsSound(b, top, bits, len, addr, t);
    K.HeapPageIsBacked(states, calls, reserved, m, p);
    var f := K.FrameOf(states[m].space, p);
    K.LengthStays(states, calls, m);
    if HoldsTables(b, len, addr, f) { TablesAreReserved(b, top, bits, len, at, addr, t, f); }
  }
}
