// The page-table code itself, on the 4 MiB window of page tables.
module VirtualMemory {
  import opened Bits
  import opened PageTables
  import P = PhysicalMap

  // ------------------------------------------------------- runs of the IO table

  predicate Absent(t: seq<int>, i: int)
    requires 0 <= i < |t|
  {
    !Present(t[i])
  }

  /** n absent entries from i on. */
  ghost predicate RunAt(t: seq<int>, i: int, n: int) {
    0 <= i && i + n <= |t| && forall j | i <= j < i + n :: Absent(t, j)
  }

  ghost predicate LowestRun(t: seq<int>, i: int, n: int) {
    RunAt(t, i, n) && forall i' | i' < i :: !RunAt(t, i', n)
  }

  lemma BrokenRun(t: seq<int>, i: int, n: int)
    requires 0 <= i < |t| && !Absent(t, i)
    ensures forall s | s <= i < s + n :: !RunAt(t, s, n)
  {}

  /** The table after a run at i maps n consecutive pages from base. */
  ghost predicate MapsRun(t: seq<int>, t': seq<int>, i: int, n: int, base: int) {
    && |t'| == |t|
    && forall j | 0 <= j < |t| :: t'[j] == if i <= j < i + n then WithFlags((base + (j - i) * PAGE) % WORD) else t[j]
  }

  function PagesFor(len: int): int { (len + PAGE) % WORD / PAGE }

  /** One page more than fits in len, exactly when the sum does not wrap; then there is none, and
      the search finds an empty run at once. */
  lemma PagesForIsEnough(len: int)
    requires 0 <= len < WORD
    ensures PagesFor(len) == len / PAGE + 1 <==> len < 0xFFFF_F000
    ensures PagesFor(len) == 0 <==> len >= 0xFFFF_F000
  {}

  /** The pages from start to start + n of the IO table, and no other page of it. */
  lemma IoPages(start: int, n: int, a: int)
    requires 0 <= start && 0 <= n && start + n <= ENTRIES && 0 <= a < WORD && Pdi(a) == IO_IDX
    ensures start <= Pti(a) < start + n <==> IO_START + start * PAGE <= a < IO_START + (start + n) * PAGE
  {
    PageIsBothIndices(a);
  }

  lemma IoSlotSplits(i: int)
    requires 0 <= i < ENTRIES
    ensures Pdi(IO_START + i * PAGE) == IO_IDX && Pti(IO_START + i * PAGE) == i
    ensures IO_START + i * PAGE == 0xC000_0000 + 4096 * i
  {}

  const SWAP_IDX := 0x3fe

  /** arch_vmm_init, once the boot has paging on: the identity map goes, the swap table comes in
      empty, and the kernel table keeps the kernel's own pages. */
  method ArchVmmInit(tables: array2<int>, directoryAddr: int, kernelSize: int)
    requires tables.Length0 == tables.Length1 == ENTRIES
    requires 0 <= directoryAddr < WORD && 0 <= kernelSize < WORD
    modifies tables
    ensures forall i, j | 0 <= i < ENTRIES && 0 <= j < ENTRIES ::
              tables[i, j] ==
                if i == DIRECTORY && j == 0 then 0
                else if i == DIRECTORY && j == SWAP_IDX then WithFlags(FrameAddr((directoryAddr + PAGE) % WORD))
                else if i == SWAP_IDX then 0
                else if i == KERNEL_IDX && (kernelSize + PAGE - 1) % WORD / PAGE <= j then 0
                else old(tables[i, j])
  {
    var kernelPages := (kernelSize + PAGE - 1) % WORD / PAGE;
    tables[DIRECTORY, 0] := 0;
    tables[DIRECTORY, SWAP_IDX] := WithFlags(FrameAddr((directoryAddr + PAGE) % WORD));
    ClearRow(tables, SWAP_IDX, 0);
    ClearRow(tables, KERNEL_IDX, kernelPages);
  }

  /** The entries of a table from one on. */
  method ClearRow(tables: array2<int>, row: int, from: int)
    requires tables.Length0 == tables.Length1 == ENTRIES && 0 <= row < ENTRIES && 0 <= from
    modifies tables
    ensures forall i, j | 0 <= i < ENTRIES && 0 <= j < ENTRIES ::
              tables[i, j] == if i == row && from <= j then 0 else old(tables[i, j])
  {
    var k := from;
    while k < ENTRIES
      invariant from <= k
      invariant forall i, j | 0 <= i < ENTRIES && 0 <= j < ENTRIES ::
                  tables[i, j] == if i == row && from <= j < k then 0 else old(tables[i, j])
    {
      tables[row, k] := 0;
      k := k + 1;
    }
  }

  /** Addresses in different pages are translated by different entries. */
  lemma OtherEntries(v: int)
    requires 0 <= v < WORD
    ensures forall a | 0 <= a < WORD && a / PAGE != v / PAGE :: Pdi(a) != Pdi(v) || Pti(a) != Pti(v)
  {
    forall a | 0 <= a < WORD && a / PAGE != v / PAGE ensures Pdi(a) != Pdi(v) || Pti(a) != Pti(v) {
      PageIsBothIndices(a);
      PageIsBothIndices(v);
    }
  }

  lemma PageIsBothIndices(a: int)
    requires 0 <= a < WORD
    ensures a / PAGE == Pdi(a) * ENTRIES + Pti(a)
  {}

  class AddressSpace {
    const tables: array2<int>        // 1024 tables; the last is the page directory
    const pmm: P.PhysicalMemoryMap

    ghost predicate Valid()
      reads tables
    {
      && tables.Length0 == tables.Length1 == ENTRIES
      && pmm.Valid() && 0 < pmm.len
      && !Present(tables[DIRECTORY, 0]) && Present(tables[DIRECTORY, KERNEL_IDX])
    }

    constructor (window: array2<int>, frames: P.PhysicalMemoryMap)
      requires window.Length0 == window.Length1 == ENTRIES && frames.Valid() && 0 < frames.len
      requires !Present(window[DIRECTORY, 0]) && Present(window[DIRECTORY, KERNEL_IDX])
      ensures Valid() && tables == window && pmm == frames
    {
      tables := window;
      pmm := frames;
    }

    ghost function Row(r: int): (t: seq<int>)
      requires 0 <= r < tables.Length0
      reads tables
      ensures |t| == tables.Length1
      ensures forall i | 0 <= i < tables.Length1 :: t[i] == tables[r, i]
    {
      seq(tables.Length1, i requires 0 <= i < tables.Length1 reads tables => tables[r, i])
    }

    ghost function View(): (k: Space)
      requires Valid()
      reads tables, pmm.bitmap
      ensures SpaceOk(k)
    {
      Space(Row(KERNEL_IDX), pmm.bitmap[..], pmm.len)
    }

    /** No table but the r-th differs. */
    twostate predicate OnlyRow(r: int)
      reads tables
    {
      forall i, j | 0 <= i < tables.Length0 && 0 <= j < tables.Length1 && i != r :: tables[i, j] == old(tables[i, j])
    }

    /** arch_vmm_virt_to_phys: the physical page behind an address, 0 when it is absent. */
    function VirtToPhys(v: int): int
      requires 0 <= v < WORD && tables.Length0 == tables.Length1 == ENTRIES
      reads tables
    {
      if !Present(tables[DIRECTORY, Pdi(v)]) then 0
      else if !Present(tables[Pdi(v), Pti(v)]) then 0
      else FrameAddr(tables[Pdi(v), Pti(v)])
    }

    method FindUnusedPageKernel() returns (v: int)
      requires Valid()
      ensures var i := FirstZero(Row(KERNEL_IDX), 0); v == if i == ENTRIES then 0 else SlotAddr(i)
    {
      var i := 0;
      while i < ENTRIES && tables[KERNEL_IDX, i] != 0
        invariant 0 <= i <= ENTRIES && forall j | 0 <= j < i :: Row(KERNEL_IDX)[j] != 0
      {
        i := i + 1;
      }
      FirstZeroIs(Row(KERNEL_IDX), i);
      if i == ENTRIES {
        return 0;
      }
      v := KERNEL_START + i * PAGE;
    }

    /** arch_vmm_map */
    method Map(v: int, p: int)
      requires Valid() && 0 <= v < WORD
      modifies tables
      ensures forall i, j | 0 <= i < ENTRIES && 0 <= j < ENTRIES ::
                tables[i, j] == if i == Pdi(v) && j == Pti(v)
                                   && Present(old(tables[DIRECTORY, Pdi(v)])) && !Present(old(tables[i, j]))
                                then WithFlags(p) else old(tables[i, j])
    {
      var pdi, pti := Pdi(v), Pti(v);
      if !Present(tables[DIRECTORY, pdi]) {
        return;
      }
      if Present(tables[pdi, pti]) {
        return;
      }
      tables[pdi, pti] := WithFlags(p);
    }

    /** vmm_alloc_page: a page table entry and a frame for it, every other translation kept. */
    method AllocPage() returns (v: int)
      requires Valid() && tables as object != pmm.bitmap
      modifies tables, pmm.bitmap
      ensures Valid() && (View(), v) == PageTables.AllocPage(old(View())) && OnlyRow(KERNEL_IDX)
      ensures forall a | 0 <= a < WORD && (v == 0 || a / PAGE != v / PAGE) :: VirtToPhys(a) == old(VirtToPhys(a))
      ensures v != 0 ==> VirtToPhys(v) == FrameAddr(P.Alloc(old(pmm.bitmap[..]), pmm.len).1)
    {
      ghost var k := View();
      var phys := pmm.AllocPage();
      v := FindUnusedPageKernel();
      FirstZeroIsLeast(k.table, 0);
      if v != 0 { SlotSplits(FirstZero(k.table, 0), 0); }
      FlagsKeepFrame(phys);
      Map(v, phys);
      ghost var i := FirstZero(k.table, 0);
      assert Row(KERNEL_IDX) == if i == ENTRIES then k.table else k.table[i := WithFlags(phys)];
    }

    /** arch_vmm_dealloc_page */
    method Dealloc(v: int)
      requires Valid() && 0 <= v < WORD
      modifies tables
      ensures forall i, j | 0 <= i < ENTRIES && 0 <= j < ENTRIES ::
                tables[i, j] == if Present(old(tables[DIRECTORY, Pdi(v)])) && i == Pdi(v) && j == Pti(v)
                                then 0 else old(tables[i, j])
      ensures Pdi(v) != DIRECTORY ==>
        && Valid() && OnlyRow(Pdi(v)) && VirtToPhys(v) == 0
        && forall a | 0 <= a < WORD && a / PAGE != v / PAGE :: VirtToPhys(a) == old(VirtToPhys(a))
    {
      OtherEntries(v);
      if !Present(tables[DIRECTORY, Pdi(v)]) {
        return;
      }
      tables[Pdi(v), Pti(v)] := 0;
    }

    /** vmm_free_page: the entry, if its table is present, and the page it led to, or physical
        page 0. Outside the directory's own window every other translation is kept. */
    method FreePage(v: int)
      requires Valid() && tables as object != pmm.bitmap && 0 <= v < WORD
      requires 0 <= VirtToPhys(v) && P.PageOf(VirtToPhys(v)) < 8 * pmm.bitmap.Length
      modifies tables, pmm.bitmap
      ensures pmm.bitmap[..] == ClearPage(old(pmm.bitmap[..]), P.PageOf(old(VirtToPhys(v))))
      ensures Pdi(v) != DIRECTORY ==>
        && Valid() && OnlyRow(Pdi(v)) && VirtToPhys(v) == 0
        && forall a | 0 <= a < WORD && a / PAGE != v / PAGE :: VirtToPhys(a) == old(VirtToPhys(a))
      ensures v == 0 || Pdi(v) == KERNEL_IDX ==> View() == FreeAddr(old(View()), v)
    {
      ghost var k := View();
      var phy := VirtToPhys(v);
      Dealloc(v);
      pmm.FreePage(phy);
      assert Pdi(v) == KERNEL_IDX ==> Row(KERNEL_IDX) == k.table[Pti(v) := 0];
      assert v == 0 ==> Row(KERNEL_IDX) == k.table;
    }

    /** arch_vmm_map_core: the lowest run of absent entries of the IO table long enough leads to
        the pages from base on, every other translation kept. */
    method MapCore(base: int, len: int) returns (addr: int, ghost at: int)
      requires Valid() && 0 <= base < WORD && 0 <= len < WORD
      modifies tables
      ensures Valid() && OnlyRow(IO_IDX)
      ensures addr == 0 ==> Row(IO_IDX) == old(Row(IO_IDX)) && forall i :: !RunAt(Row(IO_IDX), i, PagesFor(len))
      ensures addr != 0 ==>
        && LowestRun(old(Row(IO_IDX)), at, PagesFor(len)) && addr == IO_START + at * PAGE
        && MapsRun(old(Row(IO_IDX)), Row(IO_IDX), at, PagesFor(len), base)
      ensures addr != 0 && Present(tables[DIRECTORY, IO_IDX]) ==>
        forall j | 0 <= j < PagesFor(len) ::
          0 <= addr + j * PAGE < WORD && VirtToPhys(addr + j * PAGE) == (FrameAddr(base) + j * PAGE) % WORD
      ensures forall a | 0 <= a < WORD && !(addr != 0 && addr <= a < addr + PagesFor(len) * PAGE) ::
                VirtToPhys(a) == old(VirtToPhys(a))
    {
      var n := (len + PAGE) % WORD / PAGE;
      var i;
      i, at := FindRun(n);
      if i < 0 {
        return 0, at;
      }
      MapFound(i, n, base);
      addr := IO_START + PAGE * i;
      at := i;
    }

    /** The run found is mapped and leads to the pages from base on. */
    method MapFound(i: int, n: int, base: int)
      requires Valid() && RunAt(Row(IO_IDX), i, n) && 0 <= n && 0 <= base < WORD
      modifies tables
      ensures Valid() && OnlyRow(IO_IDX) && MapsRun(old(Row(IO_IDX)), Row(IO_IDX), i, n, base)
      ensures Present(tables[DIRECTORY, IO_IDX]) ==>
        forall j | 0 <= j < n ::
          && 0 <= IO_START + i * PAGE + j * PAGE < WORD
          && VirtToPhys(IO_START + i * PAGE + j * PAGE) == (FrameAddr(base) + j * PAGE) % WORD
      ensures forall a | 0 <= a < WORD && !(IO_START + i * PAGE <= a < IO_START + (i + n) * PAGE) ::
                VirtToPhys(a) == old(VirtToPhys(a))
    {
      MapRun(i, n, base);
      RunTranslates(i, n, base);
    }

    /** What the mapped entries make of their addresses. */
    lemma RunTranslates(i: int, n: int, base: int)
      requires Valid() && 0 <= i && 0 <= n && i + n <= ENTRIES && 0 <= base < WORD
      requires forall j | 0 <= j < n :: tables[IO_IDX, i + j] == WithFlags((base + j * PAGE) % WORD)
      ensures Present(tables[DIRECTORY, IO_IDX]) ==>
        forall j | 0 <= j < n ::
          && 0 <= IO_START + i * PAGE + j * PAGE < WORD
          && VirtToPhys(IO_START + i * PAGE + j * PAGE) == (FrameAddr(base) + j * PAGE) % WORD
    {
      forall j | 0 <= j < n
        ensures 0 <= IO_START + i * PAGE + j * PAGE < WORD
        ensures Present(tables[DIRECTORY, IO_IDX]) ==>
          VirtToPhys(IO_START + i * PAGE + j * PAGE) == (FrameAddr(base) + j * PAGE) % WORD
      {
        IoSlotSplits(i + j);
        EntryOfRun(base, j);
        assert IO_START + i * PAGE + j * PAGE == IO_START + (i + j) * PAGE;
      }
    }

    /** The search loop: the index of the lowest run, -1 when there is none. */
    method FindRun(n: int) returns (start: int, ghost at: int)
      requires Valid() && 0 <= n
      ensures at == start
      ensures start < 0 ==> start == -1 && forall i :: !RunAt(Row(IO_IDX), i, n)
      ensures start >= 0 ==> LowestRun(Row(IO_IDX), start, n)
    {
      ghost var t := Row(IO_IDX);
      var found, i := 0, 0;
      while i < ENTRIES && found < n
        invariant 0 <= found <= i <= ENTRIES && found <= n
        invariant forall j | i - found <= j < i :: Absent(t, j)
        invariant forall s | s < i - found :: !RunAt(t, s, n)
      {
        if Present(tables[IO_IDX, i]) {
          BrokenRun(t, i, n);
          found := 0;
        } else {
          assert Absent(t, i);
          found := found + 1;
        }
        i := i + 1;
      }
      if found != n {
        return -1, -1;
      }
      start := i - n;
      at := start;
    }

    method MapRun(i: int, n: int, base: int)
      requires Valid() && RunAt(Row(IO_IDX), i, n) && 0 <= n
      modifies tables
      ensures Valid() && OnlyRow(IO_IDX) && MapsRun(old(Row(IO_IDX)), Row(IO_IDX), i, n, base)
      ensures forall j | 0 <= j < n :: tables[IO_IDX, i + j] == WithFlags((base + j * PAGE) % WORD)
      ensures forall a | 0 <= a < WORD && !(IO_START + i * PAGE <= a < IO_START + (i + n) * PAGE) ::
                VirtToPhys(a) == old(VirtToPhys(a))
    {
      var j := 0;
      while j < n
        invariant 0 <= j <= n && Valid() && OnlyRow(IO_IDX)
        invariant MapsRun(old(Row(IO_IDX)), Row(IO_IDX), i, j, base)
      {
        tables[IO_IDX, i + j] := 0;
        tables[IO_IDX, i + j] := WithFlags((base + j * PAGE) % WORD);
        j := j + 1;
      }
      forall a | 0 <= a < WORD && !(IO_START + i * PAGE <= a < IO_START + (i + n) * PAGE)
        ensures VirtToPhys(a) == old(VirtToPhys(a))
      {
        if Pdi(a) == IO_IDX { IoPages(i, n, a); assert Row(IO_IDX)[Pti(a)] == old(Row(IO_IDX))[Pti(a)]; }
      }
    }
  }

  /** A run mapped from base translates to consecutive frames, and its start to base exactly
      when base is page aligned. */
  lemma MappedRunPointsAtBase(t: seq<int>, t': seq<int>, i: int, n: int, base: int)
    requires RunAt(t, i, n) && 0 < n && 0 <= base < WORD && MapsRun(t, t', i, n, base)
    ensures forall j | 0 <= j < n :: Present(t'[i + j]) && FrameAddr(t'[i + j]) == (FrameAddr(base) + j * PAGE) % WORD
    ensures FrameAddr(t'[i]) == base <==> base % PAGE == 0
  {
    forall j | 0 <= j < n
      ensures Present(t'[i + j]) && FrameAddr(t'[i + j]) == (FrameAddr(base) + j * PAGE) % WORD
    {
      EntryOfRun(base, j);
    }
    FrameIsBase(base);
    EntryOfRun(base, 0);
  }

  lemma EntryOfRun(base: int, j: nat)
    requires 0 <= base < WORD
    ensures var e := WithFlags((base + j * PAGE) % WORD);
      Present(e) && FrameAddr(e) == (FrameAddr(base) + j * PAGE) % WORD
  {
    FlagsKeepFrame((base + j * PAGE) % WORD);
    CutKeepsPages(base, j);
  }

  lemma CutKeepsPages(base: int, j: nat)
    requires 0 <= base
    ensures FrameAddr((base + j * PAGE) % WORD) == (FrameAddr(base) + j * PAGE) % WORD
  {}

  lemma FrameIsBase(base: int)
    requires 0 <= base < WORD
    ensures FrameAddr(base) % WORD == base <==> base % PAGE == 0
  {}
}
