// vmm.c of the kernel and of the x86 port: 32-bit paging (Intel SDM Vol. 3A, section 4.3)
// seen through the recursive mapping of the page directory.
module PageTables {
  import opened Bits
  import opened Words
  import P = PhysicalMap

  const PAGE := 4096
  const ENTRIES := 1024
  const WORD := 0x1_0000_0000
  const KERNEL_IDX := 0x301
  const IO_IDX := 0x300
  const DIRECTORY := 1023          // the directory is the last table of the window
  const KERNEL_START := 0xC040_0000
  const IO_START := 0xC000_0000

  // ------------------------------------------------------------ words as masks

  /** X86_ADDR_TO_PDI, X86_ADDR_TO_PTI and the entry masks. */
  function Pdi(v: int): int { v / 0x40_0000 }
  function Pti(v: int): int { v / PAGE % ENTRIES }
  function FrameAddr(e: int): int { e / PAGE * PAGE }
  predicate Present(e: int) { e % 2 == 1 }

  /** An address or'ed with the kernel flags: bits 0, 1, 2 and 8 are set. */
  function WithFlags(p: int): int {
    var q := p / 8 * 8 + 7;
    if q / 256 % 2 == 0 then q + 256 else q
  }

  /** The functions above are what the masks and shifts of types.h compute, on every word. */
  lemma MasksAreArithmetic(a: bv32)
    ensures Pdi(a as int) == ((a & 0xffc0_0000) >> 22) as int
    ensures Pti(a as int) == ((a & 0x003f_f000) >> 12) as int
    ensures FrameAddr(a as int) == (a & 0xffff_f000) as int
    ensures Present(a as int) <==> a & 1 != 0
  {
    PdiIsMask(a);
    PtiIsMask(a);
    FrameIsMask(a);
    PresentIsMask(a);
  }

  lemma PdiIsMask(a: bv32)
    ensures Pdi(a as int) == ((a & 0xffc0_0000) >> 22) as int
  {
    assert (a & 0xffc0_0000) >> 22 == a >> 22;
    Cut22(a);
  }

  lemma PtiIsMask(a: bv32)
    ensures Pti(a as int) == ((a & 0x003f_f000) >> 12) as int
  {
    assert (a & 0x003f_f000) >> 12 == (a >> 12) & 0x3ff;
    Cut12(a);
    Cut10(a >> 12);
  }

  lemma FrameIsMask(a: bv32)
    ensures FrameAddr(a as int) == (a & 0xffff_f000) as int
  {
    Cut12(a);
    Above12(a);
  }

  lemma PresentIsMask(a: bv32)
    ensures Present(a as int) <==> a & 1 != 0
  {
    Parity(a);
  }

  /** And an address with the kernel flags is the word the source ors together. */
  lemma FlagsAreOr(a: bv32)
    ensures WithFlags(a as int) == (a | 0x107) as int
  {
    Fields(a);
    OneBit(a);
    FiveBits(a);
    Low3(a);
    OrFlags(a);
    FlagsOfFields((a >> 9) as int, ((a & 0x1ff) >> 8) as int, ((a & 0xff) >> 3) as int, (a & 0x7) as int);
  }

  lemma FlagsOfFields(high: int, bit: int, middle: int, low: int)
    requires 0 <= bit <= 1 && 0 <= middle < 32 && 0 <= low < 8
    ensures WithFlags(512 * high + 256 * bit + 8 * middle + low) == 512 * high + 256 + 8 * middle + 7
  {
    var p := 512 * high + 256 * bit + 8 * middle + low;
    assert p / 8 == 64 * high + 32 * bit + middle;
    assert (8 * (64 * high + 32 * bit + middle) + 7) / 256 == 2 * high + bit;
  }

  lemma FlagsKeepFrame(p: int)
    requires 0 <= p
    ensures FrameAddr(WithFlags(p)) == FrameAddr(p) && Present(WithFlags(p)) && 0 < WithFlags(p)
  {
    FlagsStayLow(p / 8);
  }

  /** Setting flag bits never carries into the frame bits. */
  lemma FlagsStayLow(k: int)
    requires 0 <= k
    ensures var q := 8 * k + 7; var r := if q / 256 % 2 == 0 then q + 256 else q; r / PAGE == 8 * k / PAGE && r % 2 == 1
  {
    var m, low := k / 32, k % 32;
    assert k == 32 * m + low;
    LowByte(m, 8 * low);
    LowByte(m, 8 * low + 7);
    LowByte(m + 1, 8 * low + 7);
    EvenThenOdd(m);
    OddStaysOdd(k);
  }

  lemma LowByte(m: int, low: int)
    requires 0 <= low < 256
    ensures (256 * m + low) / 256 == m && (256 * m + low) / PAGE == m / 16
  {
    var t := m / 16;
    assert m == 16 * t + m % 16;
    assert 256 * m + low == PAGE * t + (256 * (m % 16) + low);
  }

  lemma EvenThenOdd(m: int)
    ensures m % 2 == 0 ==> (m + 1) / 16 == m / 16
  {}

  lemma OddStaysOdd(k: int)
    ensures (8 * k + 7) % 2 == 1 && (8 * k + 263) % 2 == 1
  {
    assert 8 * k + 7 == 2 * (4 * k + 3) + 1;
    assert 8 * k + 263 == 2 * (4 * k + 131) + 1;
  }

  // ------------------------------------------------------ pages of the kernel

  /** The kernel's page table, and the bitmap the frames come from. */
  datatype Space = Space(table: seq<int>, bits: seq<bv8>, len: nat)

  predicate SpaceOk(k: Space) { |k.table| == ENTRIES && 0 < k.len <= |k.bits| }

  function FirstZero(t: seq<int>, from: nat): (i: nat)
    requires from <= |t|
    ensures from <= i <= |t|
    decreases |t| - from
  {
    if from == |t| || t[from] == 0 then from else FirstZero(t, from + 1)
  }

  lemma FirstZeroIsLeast(t: seq<int>, from: nat)
    requires from <= |t|
    ensures var i := FirstZero(t, from); (forall j | from <= j < i :: t[j] != 0) && (i < |t| ==> t[i] == 0)
    decreases |t| - from
  {
    if from < |t| && t[from] != 0 { FirstZeroIsLeast(t, from + 1); }
  }

  lemma FirstZeroIs(t: seq<int>, i: nat)
    requires i <= |t| && (forall j | 0 <= j < i :: t[j] != 0) && (i < |t| ==> t[i] == 0)
    ensures FirstZero(t, 0) == i
  {
    FirstZeroIsLeast(t, 0);
  }

  /** The address of the kernel table's i-th page. */
  function SlotAddr(i: int): int { KERNEL_START + i * PAGE }

  lemma SlotSplits(i: int, offset: int)
    requires 0 <= i < ENTRIES && 0 <= offset < PAGE
    ensures Pdi(SlotAddr(i) + offset) == KERNEL_IDX && Pti(SlotAddr(i) + offset) == i
    ensures SlotAddr(i) == 0xC040_0000 + 4096 * i
  {}

  /** The tables appear in the last 4 MiB, the directory as the last of them: the entry j of table
      r is the j-th word of the page that the directory, taken for a table, has in entry r. */
  lemma WindowOfTables(r: int, j: int)
    requires 0 <= r < ENTRIES && 0 <= j < ENTRIES
    ensures var a := 0xFFC0_0000 + 4096 * r + 4 * j; Pdi(a) == DIRECTORY && Pti(a) == r && a % 4096 == 4 * j
  {}

  /** vmm_alloc_page: the address is 0 when the kernel table is full. */
  function AllocPage(k: Space): (Space, int)
    requires SpaceOk(k)
  {
    var (bits, phys) := P.Alloc(k.bits, k.len);
    var i := FirstZero(k.table, 0);
    if i == ENTRIES then (k.(bits := bits), 0)
    else (k.(bits := bits, table := k.table[i := WithFlags(phys)]), SlotAddr(i))
  }

  /** The physical page of the i-th entry, 0 when it is absent. */
  function PhysOf(k: Space, i: nat): int
    requires i < |k.table|
  {
    if Present(k.table[i]) then FrameAddr(k.table[i]) else 0
  }

  /** vmm_free_page of the page behind the i-th entry. */
  function FreePage(k: Space, i: nat): Space
    requires SpaceOk(k) && i < ENTRIES && 0 <= P.PageOf(PhysOf(k, i)) < 8 * |k.bits|
  {
    k.(table := k.table[i := 0], bits := ClearPage(k.bits, P.PageOf(PhysOf(k, i))))
  }

  function Frame(e: int): int { e / PAGE }

  predicate HasFrame(k: Space)
    requires SpaceOk(k)
  {
    P.FirstFree(k.bits, k.len, 0) < 8 * k.len
  }

  /** The next frame to be taken has a 32-bit address. */
  predicate HasNamedFrame(k: Space)
    requires SpaceOk(k)
  {
    HasFrame(k) && P.FirstFree(k.bits, k.len, 0) < 0x10_0000
  }

  predicate HasSlot(k: Space) { FirstZero(k.table, 0) < |k.table| }

  ghost predicate EntryOk(k: Space, reserved: set<nat>, i: nat)
    requires SpaceOk(k) && i < ENTRIES
  {
    var e := k.table[i];
    e == 0 || (0 < e && Present(e) && Frame(e) < 8 * k.len && Frame(e) !in reserved && Used(k.bits, Frame(e)))
  }

  ghost predicate Apart(k: Space, i: nat, j: nat)
    requires i < |k.table| && j < |k.table|
  {
    k.table[i] != 0 && k.table[j] != 0 ==> Frame(k.table[i]) != Frame(k.table[j])
  }

  ghost predicate Backs(k: Space, f: int, i: nat)
    requires i < |k.table|
  {
    k.table[i] != 0 && Frame(k.table[i]) == f
  }

  /** Exact ownership: an entry is absent or owns a frame of its own, and the frames marked
      used are the reserved ones, page 0 among them, and those owned. */
  ghost predicate Owned(k: Space, reserved: set<nat>) {
    && SpaceOk(k) && 0 in reserved
    && (forall i: nat {:trigger EntryOk(k, reserved, i)} | i < ENTRIES :: EntryOk(k, reserved, i))
    && (forall i: nat, j: nat {:trigger Apart(k, i, j)} | i < j < ENTRIES :: Apart(k, i, j))
    && (forall f: nat {:trigger Used(k.bits, f)} | f < 8 * k.len ::
          Used(k.bits, f) <==> f in reserved || exists i: nat :: i < ENTRIES && Backs(k, f, i))
  }

  /** Frames marked used that no entry maps. */
  ghost function UsedUnmapped(k: Space): set<nat>
    requires SpaceOk(k)
  {
    set f: nat | f < 8 * k.len && Used(k.bits, f) && !exists i: nat :: i < ENTRIES && Backs(k, f, i)
  }

  /** The tables and bitmap of the boot: page 0 is marked used and not mapped, and the pages
      mapped have used frames of their own. What else is used is reserved. */
  lemma StartsOwned(k: Space)
    requires SpaceOk(k) && Used(k.bits, 0)
    requires forall i: nat {:trigger EntryOk(k, {0}, i)} | i < ENTRIES :: EntryOk(k, {0}, i)
    requires forall i: nat, j: nat {:trigger Apart(k, i, j)} | i < j < ENTRIES :: Apart(k, i, j)
    ensures Owned(k, UsedUnmapped(k))
  {
    forall i: nat | i < ENTRIES ensures EntryOk(k, UsedUnmapped(k), i) && !Backs(k, 0, i) {
      assert EntryOk(k, {0}, i);
      if k.table[i] != 0 { assert Backs(k, Frame(k.table[i]), i); }
    }
    forall f: nat | f < 8 * k.len
      ensures Used(k.bits, f) <==> f in UsedUnmapped(k) || exists i: nat :: i < ENTRIES && Backs(k, f, i)
    {
      if i: nat :| i < ENTRIES && Backs(k, f, i) { assert EntryOk(k, {0}, i); }
    }
  }

  /** The conditions under which vmm_alloc_page keeps exact ownership. */
  predicate AllocLegal(k: Space)
    requires SpaceOk(k)
  {
    if HasSlot(k) then HasNamedFrame(k) else !HasFrame(k)
  }

  /** vmm_alloc_page keeps exact ownership exactly when an empty entry meets a frame with a
      32-bit address, or neither is left: with no frame it maps page 0, with no entry or no
      address it loses the frame. */
  lemma AllocKeepsOwnership(k: Space, reserved: set<nat>)
    requires Owned(k, reserved)
    ensures Owned(AllocPage(k).0, reserved) <==> AllocLegal(k)
  {
    FirstZeroIsLeast(k.table, 0);
    P.FirstFreeIsLeast(k.bits, k.len, 0);
    if HasNamedFrame(k) && HasSlot(k) { AllocOwns(k, reserved); }
    else if HasFrame(k) { AllocLosesFrame(k, reserved); }
    else if HasSlot(k) { AllocMapsZero(k, reserved); }
  }

  lemma AllocEntry(k: Space)
    requires SpaceOk(k) && HasNamedFrame(k) && HasSlot(k)
    ensures var f, i := P.FirstFree(k.bits, k.len, 0), FirstZero(k.table, 0);
      && AllocPage(k) == (k.(bits := SetPage(k.bits, f), table := k.table[i := WithFlags(f * PAGE)]), SlotAddr(i))
      && 0 < WithFlags(f * PAGE) && Present(WithFlags(f * PAGE)) && Frame(WithFlags(f * PAGE)) == f
      && FrameAddr(WithFlags(f * PAGE)) == f * PAGE
  {
    var f := P.FirstFree(k.bits, k.len, 0);
    FlagsKeepFrame(f * PAGE);
    PageAddr(f);
  }

  lemma PageAddr(f: int)
    requires 0 <= f < 0x10_0000
    ensures 0 <= f * PAGE < WORD && f * PAGE % WORD == f * PAGE && f * PAGE / PAGE == f
  {}

  lemma AllocOwns(k: Space, reserved: set<nat>)
    requires Owned(k, reserved) && HasNamedFrame(k) && HasSlot(k)
    ensures Owned(AllocPage(k).0, reserved)
  {
    var f, s := P.FirstFree(k.bits, k.len, 0), FirstZero(k.table, 0);
    var t := AllocPage(k).0;
    FirstZeroIsLeast(k.table, 0);
    P.FirstFreeIsLeast(k.bits, k.len, 0);
    AllocEntry(k);
    forall i: nat | i < ENTRIES ensures EntryOk(t, reserved, i) {
      assert EntryOk(k, reserved, i);
      if i == s { SetPageBits(k.bits, f, f); } else if k.table[i] != 0 { SetPageBits(k.bits, f, Frame(k.table[i])); }
    }
    forall i: nat, j: nat | i < j < ENTRIES ensures Apart(t, i, j) {
      assert Apart(k, i, j) && EntryOk(k, reserved, i) && EntryOk(k, reserved, j);
    }
    forall g: nat | g < 8 * k.len
      ensures Used(t.bits, g) <==> g in reserved || exists i: nat :: i < ENTRIES && Backs(t, g, i)
    {
      SetPageBits(k.bits, f, g);
      if g == f { assert Backs(t, f, s); }
      else { OthersBack(k, t, s, g); }
    }
  }

  /** Changing one absent entry, or making one absent, leaves the backing of other frames. */
  lemma OthersBack(k: Space, t: Space, s: nat, g: int)
    requires |k.table| == |t.table| && s < |k.table| && t.table == k.table[s := t.table[s]]
    requires !Backs(k, g, s) && !Backs(t, g, s)
    ensures (exists i: nat :: i < |k.table| && Backs(k, g, i)) <==> (exists i: nat :: i < |t.table| && Backs(t, g, i))
  {
    if i: nat :| i < |k.table| && Backs(k, g, i) { assert Backs(t, g, i); }
    if i: nat :| i < |t.table| && Backs(t, g, i) { assert Backs(k, g, i); }
  }

  lemma AllocMapsZero(k: Space, reserved: set<nat>)
    requires Owned(k, reserved) && !HasFrame(k) && HasSlot(k)
    ensures !Owned(AllocPage(k).0, reserved)
  {
    FlagsKeepFrame(0);
    var i, t := FirstZero(k.table, 0), AllocPage(k).0;
    assert Frame(t.table[i]) == 0 && !EntryOk(t, reserved, i);
  }

  /** A frame marked used that is neither reserved nor mapped. */
  ghost predicate Lost(k: Space, reserved: set<nat>, f: nat)
    requires SpaceOk(k)
  {
    f < 8 * k.len && Used(k.bits, f) && f !in reserved && forall i: nat | i < ENTRIES :: !Backs(k, f, i)
  }

  lemma AllocLosesFrame(k: Space, reserved: set<nat>)
    requires Owned(k, reserved) && HasFrame(k) && !(HasSlot(k) && HasNamedFrame(k))
    ensures SpaceOk(AllocPage(k).0) && Lost(AllocPage(k).0, reserved, P.FirstFree(k.bits, k.len, 0))
    ensures !Owned(AllocPage(k).0, reserved)
  {
    var f, s, t := P.FirstFree(k.bits, k.len, 0), FirstZero(k.table, 0), AllocPage(k).0;
    P.FirstFreeIsLeast(k.bits, k.len, 0);
    SetPageBits(k.bits, f, f);
    assert Used(t.bits, f) && !Used(k.bits, f);
    if HasSlot(k) { WrappedFrame(f); }
    forall i: nat | i < ENTRIES ensures !Backs(t, f, i) { assert !Backs(k, f, i); }
  }

  /** The entry of a frame without a 32-bit address leads to the frame 2^20 or more below. */
  lemma WrappedFrame(f: nat)
    ensures Frame(WithFlags(f * PAGE % WORD)) == f % 0x10_0000
  {
    FlagsKeepFrame(f * PAGE % WORD);
    P.PageOfWraps(f);
  }

  /** vmm_free_page keeps exact ownership exactly when the page is mapped: freeing an absent
      page marks physical page 0 free. */
  lemma FreeKeepsOwnership(k: Space, reserved: set<nat>, s: nat)
    requires Owned(k, reserved) && s < ENTRIES
    ensures 0 <= P.PageOf(PhysOf(k, s)) < 8 * |k.bits|
    ensures Owned(FreePage(k, s), reserved) <==> k.table[s] != 0
  {
    assert EntryOk(k, reserved, s);
    var f := P.PageOf(PhysOf(k, s));
    var t := FreePage(k, s);
    if k.table[s] != 0 {
      FreeOwns(k, reserved, s);
    } else {
      ClearPageBits(k.bits, 0, 0);
      assert !Used(t.bits, 0);
    }
  }

  lemma FreeOwns(k: Space, reserved: set<nat>, s: nat)
    requires Owned(k, reserved) && s < ENTRIES && k.table[s] != 0 && 0 <= P.PageOf(PhysOf(k, s)) < 8 * |k.bits|
    ensures Owned(FreePage(k, s), reserved)
  {
    assert EntryOk(k, reserved, s);
    var f, t := Frame(k.table[s]), FreePage(k, s);
    forall i: nat | i < ENTRIES ensures EntryOk(t, reserved, i) { FreeEntryOk(k, t, reserved, s, i); }
    forall i: nat, j: nat | i < j < ENTRIES ensures Apart(t, i, j) { assert Apart(k, i, j); }
    forall g: nat | g < 8 * k.len
      ensures Used(t.bits, g) <==> g in reserved || exists i: nat :: i < ENTRIES && Backs(t, g, i)
    {
      FreeUsedOk(k, t, reserved, s, g);
    }
  }

  lemma FreeUsedOk(k: Space, t: Space, reserved: set<nat>, s: nat, g: nat)
    requires Owned(k, reserved) && s < ENTRIES && k.table[s] != 0 && EntryOk(k, reserved, s) && g < 8 * k.len
    requires t == k.(table := k.table[s := 0], bits := ClearPage(k.bits, Frame(k.table[s])))
    ensures Used(t.bits, g) <==> g in reserved || exists i: nat :: i < ENTRIES && Backs(t, g, i)
  {
    var f := Frame(k.table[s]);
    ClearPageBits(k.bits, f, g);
    assert Used(k.bits, g) <==> g in reserved || exists i: nat :: i < ENTRIES && Backs(k, g, i);
    if g == f { NobodyElseBacks(k, t, s); } else { OthersBack(k, t, s, g); }
  }

  lemma FreeEntryOk(k: Space, t: Space, reserved: set<nat>, s: nat, i: nat)
    requires Owned(k, reserved) && s < ENTRIES && k.table[s] != 0 && i < ENTRIES
    requires Frame(k.table[s]) < 8 * k.len && 0 < k.table[s]
    requires t == k.(table := k.table[s := 0], bits := ClearPage(k.bits, Frame(k.table[s])))
    ensures EntryOk(t, reserved, i)
  {
    assert EntryOk(k, reserved, i);
    if i != s && k.table[i] != 0 {
      assert if i < s then Apart(k, i, s) else Apart(k, s, i);
      ClearPageBits(k.bits, Frame(k.table[s]), Frame(k.table[i]));
    }
  }

  lemma NobodyElseBacks(k: Space, t: Space, s: nat)
    requires |k.table| == |t.table| == ENTRIES && s < ENTRIES && k.table[s] != 0 && t.table == k.table[s := 0]
    requires forall i: nat, j: nat {:trigger Apart(k, i, j)} | i < j < ENTRIES :: Apart(k, i, j)
    ensures forall i: nat | i < ENTRIES :: !Backs(t, Frame(k.table[s]), i)
  {
    forall i: nat | i < ENTRIES ensures !Backs(t, Frame(k.table[s]), i) {
      if i < s { assert Apart(k, i, s); } else if s < i { assert Apart(k, s, i); }
    }
  }

  /** vmm_free_page of an address vmm_alloc_page may return. Address 0 is in no present table,
      so it stands for physical page 0. */
  function FreeAddr(k: Space, v: int): Space
    requires SpaceOk(k) && 0 <= Pti(v) < ENTRIES && (v != 0 ==> 0 <= P.PageOf(PhysOf(k, Pti(v))) < 8 * |k.bits|)
  {
    if v == 0 then k.(bits := ClearPage(k.bits, 0)) else FreePage(k, Pti(v))
  }

  /** vmm_free_page right after vmm_alloc_page restores the table and the bitmap exactly when
      there was a frame with a 32-bit address, and an entry for it or page 0 to take. */
  lemma FreeUndoesAlloc(k: Space)
    requires SpaceOk(k)
    ensures var (t, v) := AllocPage(k);
      && SpaceOk(t) && 0 <= Pti(v) < ENTRIES && (v != 0 ==> 0 <= P.PageOf(PhysOf(t, Pti(v))) < 8 * |t.bits|)
      && (FreeAddr(t, v) == k <==> HasNamedFrame(k) && (HasSlot(k) || !Used(k.bits, 0)))
  {
    var i := FirstZero(k.table, 0);
    FirstZeroIsLeast(k.table, 0);
    P.FirstFreeIsLeast(k.bits, k.len, 0);
    if HasSlot(k) {
      SlotSplits(i, 0);
      if HasNamedFrame(k) { FrameAndSlot(k); } else if HasFrame(k) { UnnamedFrame(k); } else { SlotOnly(k); }
    } else if HasFrame(k) {
      FrameOnly(k);
    } else {
      ClearPageBits(k.bits, 0, 0);
      assert Used(k.bits, 0) && !Used(ClearPage(k.bits, 0), 0);
    }
  }

  lemma FrameAndSlot(k: Space)
    requires SpaceOk(k) && HasNamedFrame(k) && HasSlot(k)
    ensures var t := AllocPage(k).0; var i := FirstZero(k.table, 0);
      && SpaceOk(t) && PhysOf(t, i) == P.FirstFree(k.bits, k.len, 0) * PAGE
      && 0 <= P.PageOf(PhysOf(t, i)) < 8 * |t.bits| && FreePage(t, i) == k
  {
    var f, i := P.FirstFree(k.bits, k.len, 0), FirstZero(k.table, 0);
    FirstZeroIsLeast(k.table, 0);
    P.FirstFreeIsLeast(k.bits, k.len, 0);
    AllocEntry(k);
    ClearUndoesSetPage(k.bits, f);
    assert k.table[i := WithFlags(f * PAGE)][i := 0] == k.table;
  }

  lemma UnnamedFrame(k: Space)
    requires SpaceOk(k) && HasFrame(k) && !HasNamedFrame(k) && HasSlot(k)
    ensures var t := AllocPage(k).0; var i := FirstZero(k.table, 0);
      SpaceOk(t) && 0 <= P.PageOf(PhysOf(t, i)) < 8 * |t.bits| && FreePage(t, i) != k
  {
    var f, i := P.FirstFree(k.bits, k.len, 0), FirstZero(k.table, 0);
    var g := f % 0x10_0000;
    P.FirstFreeIsLeast(k.bits, k.len, 0);
    FlagsKeepFrame(f * PAGE % WORD);
    WrappedFrame(f);
    assert P.PageOf(PhysOf(AllocPage(k).0, i)) == g < f;
    SetPageBits(k.bits, f, f);
    ClearPageBits(SetPage(k.bits, f), g, f);
    assert Used(ClearPage(SetPage(k.bits, f), g), f) && !Used(k.bits, f);
  }

  lemma SlotOnly(k: Space)
    requires SpaceOk(k) && !HasFrame(k) && HasSlot(k)
    ensures var t := AllocPage(k).0; var i := FirstZero(k.table, 0);
      SpaceOk(t) && PhysOf(t, i) == 0 && FreePage(t, i) != k
  {
    FlagsKeepFrame(0);
    P.FirstFreeIsLeast(k.bits, k.len, 0);
    ClearPageBits(k.bits, 0, 0);
    assert Used(k.bits, 0) && !Used(ClearPage(k.bits, 0), 0);
  }

  lemma FrameOnly(k: Space)
    requires SpaceOk(k) && HasFrame(k) && !HasSlot(k)
    ensures var t := AllocPage(k).0;
      SpaceOk(t) && (t.(bits := ClearPage(t.bits, 0)) == k <==> !Used(k.bits, 0))
  {
    var f := P.FirstFree(k.bits, k.len, 0);
    P.FirstFreeIsLeast(k.bits, k.len, 0);
    if f == 0 { ClearUndoesSetPage(k.bits, 0); }
    else {
      ClearPageBits(SetPage(k.bits, f), 0, f);
      SetPageBits(k.bits, f, f);
      assert Used(ClearPage(SetPage(k.bits, f), 0), f) && !Used(k.bits, f);
    }
  }

  // -------------------------------------------------------------------- runs

  datatype Call = Allocate | Free(slot: nat)

  /** The calls that keep exact ownership. */
  ghost predicate Legal(k: Space, c: Call) {
    SpaceOk(k) && match c
      case Allocate => AllocLegal(k)
      case Free(i) => i < ENTRIES && k.table[i] != 0
  }

  ghost predicate Next(k: Space, k': Space, c: Call) {
    && SpaceOk(k)
    && match c
       case Allocate => k' == AllocPage(k).0
       case Free(i) => i < ENTRIES && 0 <= P.PageOf(PhysOf(k, i)) < 8 * |k.bits| && k' == FreePage(k, i)
  }

  ghost predicate IsRun(states: seq<Space>, calls: seq<Call>) {
    && |states| == |calls| + 1
    && forall i: nat {:trigger Next(states[i], states[i + 1], calls[i])} | i < |calls| ::
         Next(states[i], states[i + 1], calls[i])
  }

  lemma StepKeepsOwnership(k: Space, k': Space, c: Call, reserved: set<nat>)
    requires Owned(k, reserved) && Next(k, k', c)
    ensures Owned(k', reserved) <==> Legal(k, c)
  {
    match c
    case Allocate => AllocKeepsOwnership(k, reserved);
    case Free(i) => FreeKeepsOwnership(k, reserved, i);
  }

  /** A run owns its frames exactly in every state if and only if every call in it was legal. */
  lemma {:induction false} RunsKeepOwnership(states: seq<Space>, calls: seq<Call>, reserved: set<nat>)
    requires IsRun(states, calls) && Owned(states[0], reserved)
    ensures (forall i | 0 <= i < |states| :: Owned(states[i], reserved)) <==>
            (forall i | 0 <= i < |calls| :: Legal(states[i], calls[i]))
  {
    if forall i | 0 <= i < |states| :: Owned(states[i], reserved) {
      forall i: nat | i < |calls| ensures Legal(states[i], calls[i]) {
        assert Next(states[i], states[i + 1], calls[i]);
        StepKeepsOwnership(states[i], states[i + 1], calls[i], reserved);
      }
    }
    if forall i | 0 <= i < |calls| :: Legal(states[i], calls[i]) {
      forall i: nat | i < |states| ensures Owned(states[i], reserved) { LegalRunOwns(states, calls, reserved, i); }
    }
  }

  lemma {:induction false} LegalRunOwns(states: seq<Space>, calls: seq<Call>, reserved: set<nat>, m: nat)
    requires IsRun(states, calls) && Owned(states[0], reserved) && m < |states|
    requires forall i | 0 <= i < |calls| :: Legal(states[i], calls[i])
    ensures Owned(states[m], reserved)
  {
    if m > 0 {
      var i := m - 1;
      LegalRunOwns(states, calls, reserved, i);
      assert Next(states[i], states[i + 1], calls[i]);
      StepKeepsOwnership(states[i], states[m], calls[i], reserved);
    }
  }
}
