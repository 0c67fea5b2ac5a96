// The heap on top of the page tables on top of the page bitmap: every heap page is backed by
// one frame of its own, in every reachable state.
module KernelHeap {
  import HeapModel
  import HeapInvariant
  import HeapTheorems
  import opened PageTables
  import P = PhysicalMap
  import Bits

  datatype Kernel = Kernel(heap: HeapModel.State, space: Space)

  /** p is the i-th page of the kernel table and it is mapped. */
  ghost predicate MappedAt(space: Space, p: int, i: nat) {
    i < |space.table| && space.table[i] != 0 && p == SlotAddr(i)
  }

  ghost predicate Mapped(space: Space, p: int) { exists i: nat :: MappedAt(space, p, i) }

  ghost predicate Inv(k: Kernel, reserved: set<nat>) {
    HeapModel.Inv(k.heap) && Owned(k.space, reserved) && forall p | p in k.heap.pages :: Mapped(k.space, p)
  }

  // ------------------------------------------------------------------- steps

  ghost predicate CanAllocate(s: Space) { SpaceOk(s) && HasNamedFrame(s) && HasSlot(s) }

  /** As many pages can be allocated. */
  ghost predicate Enough(s: Space, pages: nat)
    requires SpaceOk(s)
  {
    (pages >= 1 ==> CanAllocate(s)) && (pages >= 2 ==> CanAllocate(AllocPage(s).0))
  }

  /** Addresses no kernel page has, for calls of vmm_alloc_page that are not made. */
  const SPARES := (PAGE, 2 * PAGE)

  /** The addresses the next calls of vmm_alloc_page return. */
  function Supply(s: Space, pages: nat): seq<int>
    requires SpaceOk(s)
  {
    var (t, p) := AllocPage(s);
    [if pages >= 1 then p else SPARES.0, if pages >= 2 then AllocPage(t).1 else SPARES.1]
  }

  function Take(s: Space, pages: nat): Space
    requires SpaceOk(s) && pages <= 2
  {
    if pages == 0 then s else if pages == 1 then AllocPage(s).0 else AllocPage(AllocPage(s).0).0
  }

  /** kalloc on the kernel's own page allocator. */
  function AfterKalloc(k: Kernel, n: int): Kernel
    requires HeapModel.Listed(k.heap) && SpaceOk(k.space)
  {
    var pages := HeapTheorems.Taken(k.heap, n);
    Kernel(HeapModel.Alloc(k.heap, n, Supply(k.space, pages)).state, Take(k.space, pages))
  }

  ghost predicate Releases(k: Kernel, k': Kernel, p: int) {
    && p in k.heap.pages && k'.heap.pages == k.heap.pages - {p}
    && SpaceOk(k.space) && 0 <= Pti(p) < ENTRIES
    && 0 <= P.PageOf(PhysOf(k.space, Pti(p))) < 8 * |k.space.bits|
    && k'.space == FreePage(k.space, Pti(p))
  }

  ghost predicate KfreeStep(k: Kernel, k': Kernel, a: int)
    requires HeapModel.Listed(k.heap) && HeapModel.Ascending(k.heap.free) && a in k.heap.blocks
  {
    && k'.heap == HeapModel.Free(k.heap, a)
    && var p := HeapModel.Released(k.heap, a);
      if p == 0 then k'.space == k.space else Releases(k, k', p)
  }

  // -------------------------------------------------------------- invariance

  /** A page just allocated was mapped nowhere; whatever was mapped still is. */
  lemma AllocatedPage(s: Space, reserved: set<nat>)
    requires Owned(s, reserved) && CanAllocate(s)
    ensures var (t, p) := AllocPage(s);
      && Owned(t, reserved) && HeapModel.PageOk(p) && !Mapped(s, p) && Mapped(t, p)
      && forall q :: Mapped(s, q) ==> Mapped(t, q)
  {
    AllocKeepsOwnership(s, reserved);
    NewlyMapped(s);
    forall q | Mapped(s, q) ensures Mapped(AllocPage(s).0, q) { AllocKeepsMapped(s, q); }
  }

  lemma NewlyMapped(s: Space)
    requires CanAllocate(s)
    ensures var (t, p) := AllocPage(s); HeapModel.PageOk(p) && !Mapped(s, p) && Mapped(t, p)
  {
    FirstZeroIsLeast(s.table, 0);
    AllocEntry(s);
    var (t, p) := AllocPage(s);
    assert MappedAt(t, p, FirstZero(s.table, 0));
  }

  lemma AllocKeepsMapped(s: Space, q: int)
    requires SpaceOk(s) && Mapped(s, q)
    ensures Mapped(AllocPage(s).0, q)
  {
    FirstZeroIsLeast(s.table, 0);
    var i: nat :| MappedAt(s, q, i);
    assert MappedAt(AllocPage(s).0, q, i);
  }

  lemma HeapPageIsHigh(k: Kernel, reserved: set<nat>, p: int)
    requires Inv(k, reserved) && p in k.heap.pages
    ensures p != SPARES.0 && p != SPARES.1
  {
    var i: nat :| MappedAt(k.space, p, i);
  }

  /** The pages a call takes are new to the heap, and the kernel's tables stay sound. */
  lemma SupplyIsFresh(k: Kernel, reserved: set<nat>, pages: nat)
    requires Inv(k, reserved) && pages <= 2 && Enough(k.space, pages)
    ensures HeapInvariant.Supply(k.heap, Supply(k.space, pages))
    ensures Owned(Take(k.space, pages), reserved)
    ensures forall q | Mapped(k.space, q) :: Mapped(Take(k.space, pages), q)
    ensures forall i: nat | i < pages :: Mapped(Take(k.space, pages), Supply(k.space, pages)[i])
  {
    forall p | p in k.heap.pages ensures p != SPARES.0 && p != SPARES.1 { HeapPageIsHigh(k, reserved, p); }
    if pages >= 1 { AllocatedPage(k.space, reserved); }
    if pages >= 2 { AllocatedPage(AllocPage(k.space).0, reserved); }
  }

  /** kalloc keeps heap, ownership and backing exactly when the pages it asks for can be had:
      it does not notice that a page is missing. */
  lemma KallocKeepsInv(k: Kernel, n: int, reserved: set<nat>)
    requires Inv(k, reserved) && 0 <= n <= HeapTheorems.LAST_SAFE_REQUEST
    ensures Inv(AfterKalloc(k, n), reserved) <==> Enough(k.space, HeapTheorems.Taken(k.heap, n))
  {
    if Enough(k.space, HeapTheorems.Taken(k.heap, n)) {
      KallocServed(k, n, reserved);
    } else {
      KallocStarved(k, n, reserved);
    }
  }

  lemma KallocServed(k: Kernel, n: int, reserved: set<nat>)
    requires Inv(k, reserved) && 0 <= n <= HeapTheorems.LAST_SAFE_REQUEST
    requires Enough(k.space, HeapTheorems.Taken(k.heap, n))
    ensures Inv(AfterKalloc(k, n), reserved)
  {
    var pages, k' := HeapTheorems.Taken(k.heap, n), AfterKalloc(k, n);
    var supply := Supply(k.space, pages);
    SupplyIsFresh(k, reserved, pages);
    HeapTheorems.AllocMeetsContract(k.heap, n, supply);
    PagesAdded(k.heap, n, supply);
    forall p | p in k'.heap.pages ensures Mapped(k'.space, p) {
      if p !in k.heap.pages { assert p == supply[0] || p == supply[1]; }
    }
  }

  /** With no entry the heap takes in page 0; with no frame an entry leads to physical page 0;
      with none that has an address a frame is lost. */
  lemma KallocStarved(k: Kernel, n: int, reserved: set<nat>)
    requires Inv(k, reserved)
    requires !Enough(k.space, HeapTheorems.Taken(k.heap, n))
    ensures !Inv(AfterKalloc(k, n), reserved)
  {
    var pages, k' := HeapTheorems.Taken(k.heap, n), AfterKalloc(k, n);
    PagesAdded(k.heap, n, Supply(k.space, pages));
    if !CanAllocate(k.space) {
      if HasSlot(k.space) {
        FailedAlloc(k.space, reserved);
        DamageStays(AllocPage(k.space).0, reserved);
      } else {
        assert 0 in k'.heap.pages && !HeapModel.PageOk(0);
      }
    } else {
      var s := AllocPage(k.space).0;
      AllocatedPage(k.space, reserved);
      if HasSlot(s) { FailedAlloc(s, reserved); } else { assert 0 in k'.heap.pages && !HeapModel.PageOk(0); }
    }
  }

  /** An entry leads to physical page 0, or a frame without a 32-bit address is lost. */
  ghost predicate Damaged(s: Space, reserved: set<nat>) {
    && SpaceOk(s)
    && ((exists i: nat :: i < ENTRIES && Backs(s, 0, i)) || (exists f: nat :: f >= 0x10_0000 && Lost(s, reserved, f)))
  }

  lemma OwnedIsUndamaged(s: Space, reserved: set<nat>)
    requires Owned(s, reserved)
    ensures !Damaged(s, reserved)
  {
    forall i: nat | i < ENTRIES ensures !Backs(s, 0, i) { assert EntryOk(s, reserved, i); }
  }

  lemma FailedAlloc(s: Space, reserved: set<nat>)
    requires Owned(s, reserved) && HasSlot(s) && !HasNamedFrame(s)
    ensures Damaged(AllocPage(s).0, reserved) && !Owned(AllocPage(s).0, reserved)
  {
    var t := AllocPage(s).0;
    FirstZeroIsLeast(s.table, 0);
    if HasFrame(s) {
      AllocLosesFrame(s, reserved);
    } else {
      FlagsKeepFrame(0);
      assert Backs(t, 0, FirstZero(s.table, 0));
    }
    if Owned(t, reserved) { OwnedIsUndamaged(t, reserved); }
  }

  /** Another page does not repair it. */
  lemma DamageStays(s: Space, reserved: set<nat>)
    requires Damaged(s, reserved)
    ensures !Owned(AllocPage(s).0, reserved)
  {
    var t := AllocPage(s).0;
    FirstZeroIsLeast(s.table, 0);
    if i: nat :| i < ENTRIES && Backs(s, 0, i) {
      assert Backs(t, 0, i);
    } else {
      var f: nat :| f >= 0x10_0000 && Lost(s, reserved, f);
      LostStays(s, reserved, f);
    }
    if Owned(t, reserved) { OwnedIsUndamaged(t, reserved); }
  }

  lemma LostStays(s: Space, reserved: set<nat>, f: nat)
    requires SpaceOk(s) && f >= 0x10_0000 && Lost(s, reserved, f)
    ensures Lost(AllocPage(s).0, reserved, f)
  {
    var g, i, t := P.FirstFree(s.bits, s.len, 0), FirstZero(s.table, 0), AllocPage(s).0;
    P.FirstFreeIsLeast(s.bits, s.len, 0);
    if HasFrame(s) {
      Bits.SetPageBits(s.bits, g, f);
      WrappedFrame(g);
    } else {
      FlagsKeepFrame(0);
    }
    forall j: nat | j < ENTRIES ensures !Backs(t, f, j) { assert !Backs(s, f, j); }
  }

  /** kalloc holds exactly the pages it held and those it took. */
  lemma PagesAdded(s: HeapModel.State, n: int, supply: seq<int>)
    requires HeapModel.Inv(s) && |supply| >= 2
    ensures var m := HeapTheorems.Taken(s, n);
      && m <= 2
      && HeapModel.Alloc(s, n, supply).state.pages ==
         s.pages + (if m == 0 then {} else if m == 1 then {supply[0]} else {supply[0], supply[1]})
  {
    HeapTheorems.TakenIs(s, n, supply);
  }

  /** kfree keeps them exactly when it does not strand the list head. */
  lemma KfreeKeepsInv(k: Kernel, k': Kernel, a: int, reserved: set<nat>)
    requires Inv(k, reserved) && a in k.heap.blocks && KfreeStep(k, k', a)
    ensures Inv(k', reserved) <==> !HeapInvariant.Dangles(k.heap, a)
  {
    HeapInvariant.FreeKeepsInv(k.heap, a);
    HeapTheorems.FreeReleasesOnlyFreePages(k.heap, a);
    var p := HeapModel.Released(k.heap, a);
    if p != 0 { ReleaseKeepsPages(k, k', p, reserved); }
  }

  lemma ReleaseKeepsPages(k: Kernel, k': Kernel, p: int, reserved: set<nat>)
    requires Owned(k.space, reserved) && (forall q | q in k.heap.pages :: Mapped(k.space, q)) && Releases(k, k', p)
    ensures Owned(k'.space, reserved) && forall q | q in k'.heap.pages :: Mapped(k'.space, q)
  {
    var i: nat :| MappedAt(k.space, p, i);
    SlotSplits(i, 0);
    FreeKeepsOwnership(k.space, reserved, i);
    forall q | q in k'.heap.pages ensures Mapped(k'.space, q) { OthersStayMapped(k, i, q); }
  }

  lemma OthersStayMapped(k: Kernel, i: nat, q: int)
    requires SpaceOk(k.space) && i < ENTRIES && 0 <= P.PageOf(PhysOf(k.space, i)) < 8 * |k.space.bits|
    requires Mapped(k.space, q) && q != SlotAddr(i)
    ensures Mapped(FreePage(k.space, i), q)
  {
    var j: nat :| MappedAt(k.space, q, j);
    assert MappedAt(FreePage(k.space, i), q, j);
  }

  /** A kfree that gives a page back always finds it mapped. */
  lemma KfreeCanStep(k: Kernel, a: int, reserved: set<nat>)
    requires Inv(k, reserved) && a in k.heap.blocks
    ensures exists k' :: KfreeStep(k, k', a)
  {
    var t, p := HeapModel.Free(k.heap, a), HeapModel.Released(k.heap, a);
    HeapTheorems.FreeReleasesOnlyFreePages(k.heap, a);
    if p == 0 {
      assert KfreeStep(k, Kernel(t, k.space), a);
    } else {
      var i: nat :| MappedAt(k.space, p, i);
      SlotSplits(i, 0);
      FreeKeepsOwnership(k.space, reserved, i);
      var k' := Kernel(t, FreePage(k.space, i));
      assert Releases(k, k', p);
      assert KfreeStep(k, k', a);
    }
  }

  /** A page taken by somebody else leaves the heap backed; ownership stays exact under the
      condition of vmm_alloc_page. */
  lemma OtherAllocKeepsInv(k: Kernel, reserved: set<nat>)
    requires Inv(k, reserved)
    ensures Inv(Kernel(k.heap, AllocPage(k.space).0), reserved) <==> AllocLegal(k.space)
  {
    AllocKeepsOwnership(k.space, reserved);
    forall q | q in k.heap.pages ensures Mapped(AllocPage(k.space).0, q) { AllocKeepsMapped(k.space, q); }
  }

  /** A page given back by somebody else keeps everything exactly when it was mapped and not
      the heap's. */
  lemma OtherFreeKeepsInv(k: Kernel, i: nat, reserved: set<nat>)
    requires Inv(k, reserved) && i < ENTRIES
    ensures 0 <= P.PageOf(PhysOf(k.space, i)) < 8 * |k.space.bits|
    ensures Inv(Kernel(k.heap, FreePage(k.space, i)), reserved) <==>
            k.space.table[i] != 0 && SlotAddr(i) !in k.heap.pages
  {
    FreeKeepsOwnership(k.space, reserved, i);
    var t := FreePage(k.space, i);
    if SlotAddr(i) in k.heap.pages {
      assert forall j: nat :: !MappedAt(t, SlotAddr(i), j);
      assert !Mapped(t, SlotAddr(i));
    } else {
      forall q | q in k.heap.pages ensures Mapped(t, q) { OthersStayMapped(k, i, q); }
    }
  }

  // -------------------------------------------------------------------- runs

  /** Calls of the heap, and of vmm_alloc_page and vmm_free_page by others, for stacks say. */
  datatype Call = Kalloc(n: int) | Kfree(a: int) | OtherAlloc | OtherFree(slot: nat)

  ghost predicate Callable(k: Kernel) {
    HeapModel.Listed(k.heap) && HeapModel.Ascending(k.heap.free) && SpaceOk(k.space)
  }

  ghost predicate Next(k: Kernel, k': Kernel, c: Call) {
    && Callable(k)
    && match c
       case Kalloc(n) => 0 <= n <= HeapTheorems.LAST_SAFE_REQUEST && k' == AfterKalloc(k, n)
       case Kfree(a) => a in k.heap.blocks && KfreeStep(k, k', a)
       case OtherAlloc => k' == Kernel(k.heap, AllocPage(k.space).0)
       case OtherFree(i) =>
         && i < ENTRIES && 0 <= P.PageOf(PhysOf(k.space, i)) < 8 * |k.space.bits|
         && k' == Kernel(k.heap, FreePage(k.space, i))
  }

  /** The conditions under which each call keeps everything. */
  ghost predicate Legal(k: Kernel, c: Call) {
    && Callable(k)
    && match c
       case Kalloc(n) => Enough(k.space, HeapTheorems.Taken(k.heap, n))
       case Kfree(a) => a in k.heap.blocks && !HeapInvariant.Dangles(k.heap, a)
       case OtherAlloc => AllocLegal(k.space)
       case OtherFree(i) => i < ENTRIES && k.space.table[i] != 0 && SlotAddr(i) !in k.heap.pages
  }

  ghost predicate IsRun(states: seq<Kernel>, calls: seq<Call>) {
    && |states| == |calls| + 1
    && forall i: nat {:trigger Next(states[i], states[i + 1], calls[i])} | i < |calls| ::
         Next(states[i], states[i + 1], calls[i])
  }

  lemma StepKeepsInv(k: Kernel, k': Kernel, c: Call, reserved: set<nat>)
    requires Inv(k, reserved) && Next(k, k', c)
    ensures Inv(k', reserved) <==> Legal(k, c)
  {
    match c
    case Kalloc(n) => KallocKeepsInv(k, n, reserved);
    case Kfree(a) => KfreeKeepsInv(k, k', a, reserved);
    case OtherAlloc => OtherAllocKeepsInv(k, reserved);
    case OtherFree(slot) => OtherFreeKeepsInv(k, slot, reserved);
  }

  /** A run has a sound heap on exactly owned frames in every state if and only if every call
      in it was legal. */
  lemma RunsKeepInv(states: seq<Kernel>, calls: seq<Call>, reserved: set<nat>)
    requires IsRun(states, calls) && Inv(states[0], reserved)
    ensures (forall i | 0 <= i < |states| :: Inv(states[i], reserved)) <==>
            (forall i | 0 <= i < |calls| :: Legal(states[i], calls[i]))
  {
    if forall i | 0 <= i < |states| :: Inv(states[i], reserved) {
      forall i: nat | i < |calls| ensures Legal(states[i], calls[i]) {
        assert Next(states[i], states[i + 1], calls[i]);
        StepKeepsInv(states[i], states[i + 1], calls[i], reserved);
      }
    }
    if forall i | 0 <= i < |calls| :: Legal(states[i], calls[i]) {
      forall i: nat | i < |states| ensures Inv(states[i], reserved) { LegalRunKeepsInv(states, calls, reserved, i); }
    }
  }

  lemma {:induction false} LegalRunKeepsInv(states: seq<Kernel>, calls: seq<Call>, reserved: set<nat>, m: nat)
    requires IsRun(states, calls) && Inv(states[0], reserved) && m < |states|
    requires forall i | 0 <= i < m :: Legal(states[i], calls[i])
    ensures Inv(states[m], reserved)
  {
    if m > 0 {
      var i := m - 1;
      LegalRunKeepsInv(states, calls, reserved, i);
      assert Next(states[i], states[i + 1], calls[i]);
      StepKeepsInv(states[i], states[m], calls[i], reserved);
    }
  }

  /** Before the first call the heap is empty, so exact ownership is all it takes. */
  lemma StartsSound(k: Kernel, reserved: set<nat>)
    requires k.heap == HeapModel.EMPTY
    ensures Inv(k, reserved) <==> Owned(k.space, reserved)
  {}

  /** The frame behind a mapped kernel page. */
  ghost function FrameOf(space: Space, p: int): int
    requires 0 <= Pti(p) < |space.table|
  {
    Frame(space.table[Pti(p)])
  }

  /** In every state legal calls lead to a heap page has a frame that is marked used and not one
      of the reserved ones. */
  lemma HeapPageIsBacked(states: seq<Kernel>, calls: seq<Call>, reserved: set<nat>, m: nat, p: int)
    requires IsRun(states, calls) && Inv(states[0], reserved) && m <= |calls|
    requires forall i | 0 <= i < m :: Legal(states[i], calls[i])
    requires p in states[m].heap.pages
    ensures var s := states[m].space;
      && SpaceOk(s) && 0 <= Pti(p) < ENTRIES && s.table[Pti(p)] != 0 && p == SlotAddr(Pti(p))
      && 0 <= FrameOf(s, p) < 8 * s.len && Bits.Used(s.bits, FrameOf(s, p)) && FrameOf(s, p) !in reserved
  {
    LegalRunKeepsInv(states, calls, reserved, m);
    var s := states[m].space;
    var i: nat :| MappedAt(s, p, i);
    SlotSplits(i, 0);
    assert EntryOk(s, reserved, i);
  }

  /** And different pages have different frames. */
  lemma HeapPagesAreBacked(states: seq<Kernel>, calls: seq<Call>, reserved: set<nat>, m: nat, p: int, q: int)
    requires IsRun(states, calls) && Inv(states[0], reserved) && m <= |calls|
    requires forall i | 0 <= i < m :: Legal(states[i], calls[i])
    requires p in states[m].heap.pages && q in states[m].heap.pages && p != q
    ensures var s := states[m].space;
      && SpaceOk(s) && 0 <= Pti(p) < ENTRIES && 0 <= Pti(q) < ENTRIES
      && 0 <= FrameOf(s, p) < 8 * s.len && Bits.Used(s.bits, FrameOf(s, p)) && FrameOf(s, p) !in reserved
      && FrameOf(s, p) != FrameOf(s, q)
  {
    HeapPageIsBacked(states, calls, reserved, m, p);
    HeapPageIsBacked(states, calls, reserved, m, q);
    LegalRunKeepsInv(states, calls, reserved, m);
    var s, i, j := states[m].space, Pti(p), Pti(q);
    assert if i < j then Apart(s, i, j) else Apart(s, j, i);
  }

  lemma {:induction false} LengthStays(states: seq<Kernel>, calls: seq<Call>, m: nat)
    requires IsRun(states, calls) && m <= |calls|
    ensures states[m].space.len == states[0].space.len
  {
    if m > 0 {
      var i := m - 1;
      LengthStays(states, calls, i);
      assert Next(states[i], states[i + 1], calls[i]);
    }
  }
}
