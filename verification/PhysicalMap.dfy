// The physical page bitmap: pmm.c of the kernel (allocate, free) and of the x86 port
// (marking ranges).
module PhysicalMap {
  import opened Bits

  const PAGE := 4096
  const WORD := 0x1_0000_0000

  /** Page p lies inside the range: what mark_range_as_usable frees. */
  predicate InnerPage(base: int, length: int, p: int) {
    base <= p * PAGE && (p + 1) * PAGE <= base + length
  }

  /** Page p ends behind the range's start and starts before its end: what mark_range_as_used
      takes. */
  predicate OuterPage(base: int, length: int, p: int) {
    base < (p + 1) * PAGE && p * PAGE < base + length
  }

  /** Base rounded up and end rounded down bound the pages inside, */
  lemma InnerBounds(base: int, length: int, p: int)
    ensures InnerPage(base, length, p) <==> (base + PAGE - 1) / PAGE <= p < (base + length) / PAGE
  {}

  /** base rounded down and end rounded up those touched. */
  lemma OuterBounds(base: int, length: int, p: int)
    ensures OuterPage(base, length, p) <==> base / PAGE <= p < (base + length + PAGE - 1) / PAGE
  {}

  /** The first page from `from` on that is not marked used; 8 * len when there is none. */
  function FirstFree(bits: seq<bv8>, len: nat, from: nat): (p: nat)
    requires len <= |bits| && from <= 8 * len
    ensures from <= p <= 8 * len
    decreases 8 * len - from
  {
    if from == 8 * len || !Used(bits, from) then from else FirstFree(bits, len, from + 1)
  }

  /** What pmm_alloc_page does to the bitmap, and the address it returns. */
  function Alloc(bits: seq<bv8>, len: nat): (seq<bv8>, int)
    requires len <= |bits|
  {
    var p := FirstFree(bits, len, 0);
    if p < 8 * len then (SetPage(bits, p), p * PAGE % WORD) else (bits, 0)
  }

  /** pmm_get_page */
  function PageOf(addr: int): int { addr / PAGE }

  lemma FirstFreeIsLeast(bits: seq<bv8>, len: nat, from: nat)
    requires len <= |bits| && from <= 8 * len
    ensures var p := FirstFree(bits, len, from);
      && (forall q: nat | from <= q < p :: Used(bits, q))
      && (p < 8 * len ==> !Used(bits, p))
    decreases 8 * len - from
  {
    if from < 8 * len && Used(bits, from) { FirstFreeIsLeast(bits, len, from + 1); }
  }

  lemma FirstFreeIs(bits: seq<bv8>, len: nat, p: nat)
    requires len <= |bits| && p <= 8 * len && (forall q: nat | q < p :: Used(bits, q))
    requires p < 8 * len ==> !Used(bits, p)
    ensures FirstFree(bits, len, 0) == p
  {
    FirstFreeIsLeast(bits, len, 0);
  }

  /** pmm_alloc_page takes the lowest-numbered free page and marks that page only. */
  lemma AllocTakesLowest(bits: seq<bv8>, len: nat, p: nat)
    requires len <= |bits| && p < 8 * len && !Used(bits, p)
    ensures var f := FirstFree(bits, len, 0);
      && f <= p && !Used(bits, f)
      && Alloc(bits, len).1 == f * PAGE % WORD
      && forall q: nat | q < 8 * |bits| :: Used(Alloc(bits, len).0, q) <==> Used(bits, q) || q == f
  {
    FirstFreeIsLeast(bits, len, 0);
    var f := FirstFree(bits, len, 0);
    forall q: nat | q < 8 * |bits| ensures Used(SetPage(bits, f), q) <==> Used(bits, q) || q == f {
      SetPageBits(bits, f, q);
    }
  }

  /** The address 0 means "no page left" exactly when the page taken is no multiple of 2^20:
      page 0 reserved and at most 2^20 pages. */
  lemma ZeroMeansNone(bits: seq<bv8>, len: nat)
    requires len <= |bits|
    ensures var f := FirstFree(bits, len, 0);
      (Alloc(bits, len).1 == 0 <==> f == 8 * len) <==> (f < 8 * len ==> f % 0x10_0000 != 0)
  {
    var f := FirstFree(bits, len, 0);
    PageWraps(f);
  }

  lemma PageWraps(f: nat)
    ensures f * PAGE % WORD == f % 0x10_0000 * PAGE
  {
    var k := f / 0x10_0000;
    assert f == k * 0x10_0000 + f % 0x10_0000;
    assert f * PAGE == k * WORD + f % 0x10_0000 * PAGE;
  }

  /** Freeing the address just returned restores the bitmap exactly when the page taken has
      an address of its own, that is, a number below 2^20. */
  lemma FreeUndoesAlloc(bits: seq<bv8>, len: nat)
    requires len <= |bits| && FirstFree(bits, len, 0) < 8 * len
    ensures var (b, addr) := Alloc(bits, len);
      ClearPage(b, PageOf(addr)) == bits <==> FirstFree(bits, len, 0) < 0x10_0000
  {
    var f := FirstFree(bits, len, 0);
    FirstFreeIsLeast(bits, len, 0);
    PageOfWraps(f);
    ClearWrapped(bits, f);
  }

  lemma ClearWrapped(bits: seq<bv8>, f: nat)
    requires f < 8 * |bits| && !Used(bits, f)
    ensures ClearPage(SetPage(bits, f), f % 0x10_0000) == bits <==> f < 0x10_0000
  {
    if f < 0x10_0000 { ClearUndoesSetPage(bits, f); } else { ClearElsewhere(bits, f, f % 0x10_0000); }
  }

  lemma PageOfWraps(f: nat)
    ensures PageOf(f * PAGE % WORD) == f % 0x10_0000
  {
    PageWraps(f);
  }

  lemma ClearElsewhere(bits: seq<bv8>, f: nat, g: nat)
    requires f < 8 * |bits| && g < f && !Used(bits, f)
    ensures ClearPage(SetPage(bits, f), g) != bits
  {
    ClearPageBits(SetPage(bits, f), g, f);
    SetPageBits(bits, f, f);
  }

  /** len bytes of the bitmap are in use; memory goes on behind them. */
  class PhysicalMemoryMap {
    const bitmap: array<bv8>
    const len: nat

    ghost predicate Valid() { len <= bitmap.Length }

    constructor (memory: array<bv8>, bytes: nat)
      requires bytes <= memory.Length
      ensures Valid() && bitmap == memory && len == bytes
    {
      bitmap := memory;
      len := bytes;
    }

    /** memset */
    method Fill(val: bv8, from: nat, count: nat)
      requires from + count <= bitmap.Length
      modifies bitmap
      ensures forall i | 0 <= i < bitmap.Length ::
                bitmap[i] == if from <= i < from + count then val else old(bitmap[i])
    {
      var i := 0;
      while i < count
        invariant i <= count
        invariant forall j | 0 <= j < bitmap.Length ::
                    bitmap[j] == if from <= j < from + i then val else old(bitmap[j])
      {
        bitmap[from + i] := val;
        i := i + 1;
      }
    }

    /** The gap between the end bytes. */
    method FillBetween(val: bv8, from: nat, to: nat)
      requires from < to < bitmap.Length
      modifies bitmap
      ensures forall i | 0 <= i < bitmap.Length :: bitmap[i] == if from < i < to then val else old(bitmap[i])
    {
      if to - from >= 2 {
        Fill(val, from + 1, to - from - 1);
      }
    }

    static method FindFirstZero(byte: bv8) returns (res: nat)
      ensures byte == FULL ==> res == 0xff
      ensures byte != FULL ==> res < 8 && !Bit(byte, res) && forall k | 0 <= k < res :: Bit(byte, k)
    {
      res := 0xff;
      for i := 0 to 8
        invariant res == 0xff && forall k | 0 <= k < i :: Bit(byte, k)
      {
        ShiftTestsBit(byte, i);
        if ((1 as bv8) << (7 - i)) & byte == 0 {
          Constants(i);
          return i;
        }
      }
      AllOnes(byte);
    }

    /** pmm_alloc_page */
    method AllocPage() returns (addr: int)
      requires Valid()
      modifies bitmap
      ensures (bitmap[..], addr) == Alloc(old(bitmap[..]), len)
    {
      var i := 0;
      while i < len && bitmap[i] == FULL
        invariant i <= len && bitmap[..] == old(bitmap[..])
        invariant forall q: nat | q < 8 * i :: Used(bitmap[..], q)
      {
        FullByte(bitmap[..], i);
        i := i + 1;
      }
      if i == len {
        FirstFreeIs(bitmap[..], len, 8 * len);
        return 0;
      }
      var offset := FindFirstZero(bitmap[i]);
      LowestInByte(bitmap[..], len, i, offset);
      MarkBit(i, offset);
      var pageid := 8 * i + offset;
      addr := pageid * PAGE % WORD;
    }

    method MarkBit(i: nat, offset: nat)
      requires i < bitmap.Length && offset < 8
      modifies bitmap
      ensures bitmap[..] == old(bitmap[..])[i := old(bitmap[i]) | Mask(offset)]
    {
      ShiftIsMask(offset);
      bitmap[i] := bitmap[i] | ((1 as bv8) << (7 - offset));
    }

    /** pmm_free_page */
    method FreePage(ptr: int)
      requires Valid() && 0 <= ptr && PageOf(ptr) < 8 * bitmap.Length
      modifies bitmap
      ensures bitmap[..] == ClearPage(old(bitmap[..]), PageOf(ptr))
    {
      var pageid := PageOf(ptr);
      var index, offset := pageid / 8, pageid % 8;
      var bitmask := (1 as bv8) << (7 - offset);
      ShiftIsMask(offset);
      bitmap[index] := (bitmap[index] | bitmask) ^ bitmask;
    }

    method MarkRangeAsUsable(base: int, length: int)
      requires Valid() && 0 <= base && 0 <= length && base + length < WORD
      requires (base + length) / PAGE / 8 < bitmap.Length
      modifies bitmap
      ensures forall p: nat | p < 8 * bitmap.Length ::
                Used(bitmap[..], p) <==> Used(old(bitmap[..]), p) && !InnerPage(base, length, p)
    {
      if length < PAGE {
        return;
      }
      var basePage := (base + (PAGE - 1)) / PAGE;
      var endPage := (base + length) / PAGE;
      ghost var was := bitmap[..];
      ClearBits(basePage / 8, Low(basePage % 8), endPage / 8, High(endPage % 8));
      forall p: nat | p < 8 * bitmap.Length
        ensures Used(bitmap[..], p) <==> Used(was, p) && !InnerPage(base, length, p)
      {
        InnerBounds(base, length, p);
        ClearedPages(was, bitmap[..], basePage / 8, basePage % 8, endPage / 8, endPage % 8, p);
      }
    }

    method ClearBits(baseIndex: nat, baseMask: bv8, endIndex: nat, endMask: bv8)
      requires baseIndex <= endIndex < bitmap.Length
      modifies bitmap
      ensures forall i | 0 <= i < bitmap.Length ::
                ClearsRange(old(bitmap[i]), bitmap[i], baseIndex, baseMask, endIndex, endMask, i)
    {
      if baseIndex == endIndex {
        bitmap[baseIndex] := bitmap[baseIndex] & (baseMask | endMask);
      } else {
        ClearEnds(baseIndex, baseMask, endIndex, endMask);
      }
    }

    method ClearEnds(baseIndex: nat, baseMask: bv8, endIndex: nat, endMask: bv8)
      requires baseIndex < endIndex < bitmap.Length
      modifies bitmap
      ensures forall i | 0 <= i < bitmap.Length ::
                bitmap[i] == if i == baseIndex then old(bitmap[i]) & baseMask
                             else if i == endIndex then old(bitmap[i]) & endMask
                             else if baseIndex < i < endIndex then ZERO else old(bitmap[i])
    {
      bitmap[baseIndex] := bitmap[baseIndex] & baseMask;
      bitmap[endIndex] := bitmap[endIndex] & endMask;
      FillBetween(ZERO, baseIndex, endIndex);
    }

    method MarkRangeAsUsed(base: int, length: int)
      requires Valid() && 0 <= base && 0 <= length && base + length + PAGE - 1 < WORD
      requires (base + length + PAGE - 1) / PAGE / 8 < bitmap.Length
      modifies bitmap
      ensures forall p: nat | p < 8 * bitmap.Length ::
                Used(bitmap[..], p) <==> Used(old(bitmap[..]), p) || OuterPage(base, length, p)
    {
      var basePage := base / PAGE;
      var endPage := (base + length + PAGE - 1) / PAGE;
      ghost var was := bitmap[..];
      SetBits(basePage / 8, !Low(basePage % 8), endPage / 8, !High(endPage % 8));
      forall p: nat | p < 8 * bitmap.Length
        ensures Used(bitmap[..], p) <==> Used(was, p) || OuterPage(base, length, p)
      {
        OuterBounds(base, length, p);
        SetPages(was, bitmap[..], basePage / 8, basePage % 8, endPage / 8, endPage % 8, p);
      }
    }

    method SetBits(baseIndex: nat, baseMask: bv8, endIndex: nat, endMask: bv8)
      requires baseIndex <= endIndex < bitmap.Length
      modifies bitmap
      ensures forall i | 0 <= i < bitmap.Length ::
                SetsRange(old(bitmap[i]), bitmap[i], baseIndex, baseMask, endIndex, endMask, i)
    {
      if baseIndex == endIndex {
        bitmap[baseIndex] := bitmap[baseIndex] | (baseMask & endMask);
      } else {
        SetEnds(baseIndex, baseMask, endIndex, endMask);
      }
    }

    method SetEnds(baseIndex: nat, baseMask: bv8, endIndex: nat, endMask: bv8)
      requires baseIndex < endIndex < bitmap.Length
      modifies bitmap
      ensures forall i | 0 <= i < bitmap.Length ::
                bitmap[i] == if i == baseIndex then old(bitmap[i]) | baseMask
                             else if i == endIndex then old(bitmap[i]) | endMask
                             else if baseIndex < i < endIndex then FULL else old(bitmap[i])
    {
      bitmap[baseIndex] := bitmap[baseIndex] | baseMask;
      bitmap[endIndex] := bitmap[endIndex] | endMask;
      FillBetween(FULL, baseIndex, endIndex);
    }
  }

  lemma FullByte(bits: seq<bv8>, i: nat)
    requires i < |bits| && bits[i] == FULL && forall q: nat | q < 8 * i :: Used(bits, q)
    ensures forall q: nat | q < 8 * i + 8 :: Used(bits, q)
  {
    forall q: nat | q < 8 * i + 8 ensures Used(bits, q) {
      if q >= 8 * i { Constants(q % 8); }
    }
  }

  lemma InByte(i: nat, k: nat)
    requires k < 8
    ensures (8 * i + k) / 8 == i && (8 * i + k) % 8 == k
  {}

  lemma LowestInByte(bits: seq<bv8>, len: nat, i: nat, offset: nat)
    requires i < len <= |bits| && offset < 8 && !Bit(bits[i], offset)
    requires (forall q: nat | q < 8 * i :: Used(bits, q)) && forall k | 0 <= k < offset :: Bit(bits[i], k)
    ensures FirstFree(bits, len, 0) == 8 * i + offset
    ensures SetPage(bits, 8 * i + offset) == bits[i := bits[i] | Mask(offset)]
  {
    var p := 8 * i + offset;
    InByte(i, offset);
    forall q: nat | q < p ensures Used(bits, q) {
      if q >= 8 * i { InByte(i, q - 8 * i); }
    }
    FirstFreeIs(bits, len, p);
  }

  /** Byte i after a usable mark from byte fi to byte ei with the end masks. */
  ghost predicate ClearsRange(was: bv8, now: bv8, fi: nat, lo: bv8, ei: nat, hi: bv8, i: nat)
  {
    now == if fi == i && i == ei then was & (lo | hi)
      else if i == fi then was & lo
      else if i == ei then was & hi
      else if fi < i < ei then ZERO else was
  }

  lemma KeptBoth(was: bv8, fo: nat, eo: nat, k: nat)
    requires fo < 8 && eo < 8 && k < 8
    ensures Bit(was & (Low(fo) | High(eo)), k) <==> Bit(was, k) && (k < fo || k >= eo)
  {
    LowHigh(fo, k);
    LowHigh(eo, k);
    AndEither(was, Low(fo), High(eo), k);
  }

  lemma KeptLow(was: bv8, fo: nat, k: nat)
    requires fo < 8 && k < 8
    ensures Bit(was & Low(fo), k) <==> Bit(was, k) && k < fo
  {
    LowHigh(fo, k);
    And(was, Low(fo), k);
  }

  lemma KeptHigh(was: bv8, eo: nat, k: nat)
    requires eo < 8 && k < 8
    ensures Bit(was & High(eo), k) <==> Bit(was, k) && k >= eo
  {
    LowHigh(eo, k);
    And(was, High(eo), k);
  }

  lemma UsableByte(was: bv8, now: bv8, fi: nat, fo: nat, ei: nat, eo: nat, i: nat, k: nat)
    requires fo < 8 && eo < 8 && k < 8 && 8 * fi + fo <= 8 * ei + eo
    requires ClearsRange(was, now, fi, Low(fo), ei, High(eo), i)
    ensures Bit(now, k) <==> Bit(was, k) && !(8 * fi + fo <= 8 * i + k < 8 * ei + eo)
  {
    if fi == i && i == ei { KeptBoth(was, fo, eo, k); }
    else if i == fi { KeptLow(was, fo, k); }
    else if i == ei { KeptHigh(was, eo, k); }
    else { Constants(k); }
  }

  /** Byte i after a used mark from byte fi to byte ei with the end masks. */
  ghost predicate SetsRange(was: bv8, now: bv8, fi: nat, lo: bv8, ei: nat, hi: bv8, i: nat)
  {
    now == if fi == i && i == ei then was | (lo & hi)
      else if i == fi then was | lo
      else if i == ei then was | hi
      else if fi < i < ei then FULL else was
  }

  lemma AddedBoth(was: bv8, fo: nat, eo: nat, k: nat)
    requires fo < 8 && eo < 8 && k < 8
    ensures Bit(was | (!Low(fo) & !High(eo)), k) <==> Bit(was, k) || fo <= k < eo
  {
    LowHigh(fo, k);
    LowHigh(eo, k);
    OrNeither(was, Low(fo), High(eo), k);
  }

  lemma AddedHigh(was: bv8, fo: nat, k: nat)
    requires fo < 8 && k < 8
    ensures Bit(was | !Low(fo), k) <==> Bit(was, k) || fo <= k
  {
    LowHigh(fo, k);
    OrNot(was, Low(fo), k);
  }

  lemma AddedLow(was: bv8, eo: nat, k: nat)
    requires eo < 8 && k < 8
    ensures Bit(was | !High(eo), k) <==> Bit(was, k) || k < eo
  {
    LowHigh(eo, k);
    OrNot(was, High(eo), k);
  }

  lemma UsedByte(was: bv8, now: bv8, fi: nat, fo: nat, ei: nat, eo: nat, i: nat, k: nat)
    requires fo < 8 && eo < 8 && k < 8 && 8 * fi + fo <= 8 * ei + eo
    requires SetsRange(was, now, fi, !Low(fo), ei, !High(eo), i)
    ensures Bit(now, k) <==> Bit(was, k) || 8 * fi + fo <= 8 * i + k < 8 * ei + eo
  {
    if fi == i && i == ei { AddedBoth(was, fo, eo, k); }
    else if i == fi { AddedHigh(was, fo, k); }
    else if i == ei { AddedLow(was, eo, k); }
    else { Constants(k); }
  }

  lemma ClearedPages(was: seq<bv8>, now: seq<bv8>, fi: nat, fo: nat, ei: nat, eo: nat, p: nat)
    requires |was| == |now| && fo < 8 && eo < 8 && 8 * fi + fo <= 8 * ei + eo && p < 8 * |was|
    requires forall i | 0 <= i < |was| :: ClearsRange(was[i], now[i], fi, Low(fo), ei, High(eo), i)
    ensures Used(now, p) <==> Used(was, p) && !(8 * fi + fo <= p < 8 * ei + eo)
  {
    UsableByte(was[p / 8], now[p / 8], fi, fo, ei, eo, p / 8, p % 8);
  }

  lemma SetPages(was: seq<bv8>, now: seq<bv8>, fi: nat, fo: nat, ei: nat, eo: nat, p: nat)
    requires |was| == |now| && fo < 8 && eo < 8 && 8 * fi + fo <= 8 * ei + eo && p < 8 * |was|
    requires forall i | 0 <= i < |was| :: SetsRange(was[i], now[i], fi, !Low(fo), ei, !High(eo), i)
    ensures Used(now, p) <==> Used(was, p) || 8 * fi + fo <= p < 8 * ei + eo
  {
    UsedByte(was[p / 8], now[p / 8], fi, fo, ei, eo, p / 8, p % 8);
  }
}
