// Bits of a bitmap byte, most significant first, and the page a bit stands for.
module Bits {

  const FULL: bv8 := 0xff
  const ZERO: bv8 := 0x00

  /** The bit of weight 2^(7 - j). */
  function Mask(j: nat): bv8
    requires j < 8
  {
    if j == 0 then 0x80 else if j == 1 then 0x40 else if j == 2 then 0x20 else if j == 3 then 0x10
    else if j == 4 then 0x08 else if j == 5 then 0x04 else if j == 6 then 0x02 else 0x01
  }

  lemma ShiftIsMask(j: nat)
    requires j < 8
    ensures (1 as bv8) << (7 - j) == Mask(j)
  {}

  predicate Bit(b: bv8, j: nat)
    requires j < 8
  {
    if j == 0 then b & 0x80 != 0 else if j == 1 then b & 0x40 != 0
    else if j == 2 then b & 0x20 != 0 else if j == 3 then b & 0x10 != 0
    else if j == 4 then b & 0x08 != 0 else if j == 5 then b & 0x04 != 0
    else if j == 6 then b & 0x02 != 0 else b & 0x01 != 0
  }

  /** The test find_first_zero makes. */
  lemma ShiftTestsBit(b: bv8, j: nat)
    requires j < 8
    ensures ((1 as bv8) << (7 - j)) & b == 0 <==> !Bit(b, j)
  {}

  /** 0xff << (8 - off), cut to a byte: the bits before off. */
  function Low(off: nat): bv8
    requires off < 8
  {
    FULL << (8 - off)
  }

  /** 0xff >> off: the bits from off on. */
  function High(off: nat): bv8
    requires off < 8
  {
    FULL >> off
  }

  lemma LowHigh(off: nat, k: nat)
    requires off < 8 && k < 8
    ensures Bit(Low(off), k) <==> k < off
    ensures Bit(High(off), k) <==> k >= off
  {}

  lemma And(a: bv8, b: bv8, k: nat)
    requires k < 8
    ensures Bit(a & b, k) <==> Bit(a, k) && Bit(b, k)
  {}

  lemma Or(a: bv8, b: bv8, k: nat)
    requires k < 8
    ensures Bit(a | b, k) <==> Bit(a, k) || Bit(b, k)
  {}

  lemma AndEither(a: bv8, b: bv8, c: bv8, k: nat)
    requires k < 8
    ensures Bit(a & (b | c), k) <==> Bit(a, k) && (Bit(b, k) || Bit(c, k))
  {}

  lemma OrNot(a: bv8, b: bv8, k: nat)
    requires k < 8
    ensures Bit(a | !b, k) <==> Bit(a, k) || !Bit(b, k)
  {}

  lemma OrNeither(a: bv8, b: bv8, c: bv8, k: nat)
    requires k < 8
    ensures Bit(a | (!b & !c), k) <==> Bit(a, k) || (!Bit(b, k) && !Bit(c, k))
  {
    Or(a, !b & !c, k);
    Neither(b, c, k);
  }

  lemma Neither(b: bv8, c: bv8, k: nat)
    requires k < 8
    ensures Bit(!b & !c, k) <==> !Bit(b, k) && !Bit(c, k)
  {}

  lemma Constants(k: nat)
    requires k < 8
    ensures Bit(FULL, k) && !Bit(ZERO, k)
  {}

  /** A byte without a zero bit is 0xff. */
  lemma AllOnes(b: bv8)
    requires forall k | 0 <= k < 8 :: Bit(b, k)
    ensures b == FULL
  {
    assert Bit(b, 0) && Bit(b, 1) && Bit(b, 2) && Bit(b, 3) && Bit(b, 4) && Bit(b, 5) && Bit(b, 6) && Bit(b, 7);
  }

  /** Bytes with the same bits are the same. */
  lemma SameBits(a: bv8, b: bv8)
    requires forall k | 0 <= k < 8 :: Bit(a, k) <==> Bit(b, k)
    ensures a == b
  {
    assert Bit(a, 0) <==> Bit(b, 0);
    assert Bit(a, 1) <==> Bit(b, 1);
    assert Bit(a, 2) <==> Bit(b, 2);
    assert Bit(a, 3) <==> Bit(b, 3);
    assert Bit(a, 4) <==> Bit(b, 4);
    assert Bit(a, 5) <==> Bit(b, 5);
    assert Bit(a, 6) <==> Bit(b, 6);
    assert Bit(a, 7) <==> Bit(b, 7);
  }

  lemma MaskBit(j: nat, k: nat)
    requires j < 8 && k < 8
    ensures Bit(Mask(j), k) <==> j == k
  {}

  lemma SetBit(b: bv8, j: nat, k: nat)
    requires j < 8 && k < 8
    ensures Bit(b | Mask(j), k) <==> Bit(b, k) || j == k
  {
    Or(b, Mask(j), k);
    MaskBit(j, k);
  }

  /** Clearing a bit the way pmm_free_page_n does. */
  lemma ClearBit(b: bv8, j: nat, k: nat)
    requires j < 8 && k < 8
    ensures Bit((b | Mask(j)) ^ Mask(j), k) <==> Bit(b, k) && j != k
  {
    SetThenFlip(b, Mask(j), k);
    MaskBit(j, k);
  }

  lemma SetThenFlip(b: bv8, m: bv8, k: nat)
    requires k < 8
    ensures Bit((b | m) ^ m, k) <==> Bit(b, k) && !Bit(m, k)
  {}

  lemma ClearUndoesSet(b: bv8, j: nat)
    requires j < 8 && !Bit(b, j)
    ensures ((b | Mask(j) | Mask(j)) ^ Mask(j)) == b
  {}

  // ------------------------------------------------------------------- pages

  /** Page p is marked used. */
  predicate Used(bits: seq<bv8>, p: nat)
    requires p < 8 * |bits|
  {
    Bit(bits[p / 8], p % 8)
  }

  function SetPage(bits: seq<bv8>, p: nat): seq<bv8>
    requires p < 8 * |bits|
  {
    bits[p / 8 := bits[p / 8] | Mask(p % 8)]
  }

  function ClearPage(bits: seq<bv8>, p: nat): seq<bv8>
    requires p < 8 * |bits|
  {
    bits[p / 8 := (bits[p / 8] | Mask(p % 8)) ^ Mask(p % 8)]
  }

  lemma SetPageBits(bits: seq<bv8>, p: nat, q: nat)
    requires p < 8 * |bits| && q < 8 * |bits|
    ensures Used(SetPage(bits, p), q) <==> Used(bits, q) || p == q
  {
    SamePlace(p, q);
    if p / 8 == q / 8 { SetBit(bits[p / 8], p % 8, q % 8); }
  }

  lemma ClearPageBits(bits: seq<bv8>, p: nat, q: nat)
    requires p < 8 * |bits| && q < 8 * |bits|
    ensures Used(ClearPage(bits, p), q) <==> Used(bits, q) && p != q
  {
    SamePlace(p, q);
    if p / 8 == q / 8 { ClearBit(bits[p / 8], p % 8, q % 8); }
  }

  lemma SamePlace(p: nat, q: nat)
    ensures p == q <==> p / 8 == q / 8 && p % 8 == q % 8
  {}

  lemma ClearUndoesSetPage(bits: seq<bv8>, p: nat)
    requires p < 8 * |bits| && !Used(bits, p)
    ensures ClearPage(SetPage(bits, p), p) == bits
  {
    ClearUndoesSet(bits[p / 8], p % 8);
  }
}
