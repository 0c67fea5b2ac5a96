// What every call of kalloc and kfree keeps, and exactly when.
module HeapInvariant {
  import opened Sequences
  import opened HeapModel

  ghost predicate Fresh(s: State, p: int) { PageOk(p) && p !in s.pages }

  /** The page allocator hands out distinct pages the heap does not hold. */
  ghost predicate Supply(s: State, supply: seq<int>) {
    |supply| >= 2 && Fresh(s, supply[0]) && Fresh(s, supply[1]) && supply[0] != supply[1]
  }

  // -------------------------------------------------------------- page facts

  lemma InPage(s: State, a: int)
    requires Tiled(s) && a in s.blocks
    ensures PageOf(a) <= a && 0 < a && End(s, a) <= PageOf(a) + PAGE && End(s, a) <= WORD
  {
    assert BlockOk(s, a);
    assert PageOk(PageOf(a));
  }

  lemma WholeIsPage(s: State, p: int)
    requires Tiled(s) && p in s.blocks && s.blocks[p] == WHOLE
    ensures p in s.pages && PageOf(p) == p
  {
    InPage(s, p);
    assert BlockOk(s, p);
  }

  // ---------------------------------------------------------------- AddPage

  lemma PagesApart(p: int, q: int)
    requires PageOf(p) == p && PageOf(q) == q && p < q
    ensures p + PAGE <= q
  {}

  lemma FreshIsOutside(s: State, p: int, a: int)
    requires Tiled(s) && Fresh(s, p) && a in s.blocks
    ensures a != p
    ensures a < p ==> End(s, a) <= p
    ensures p < a ==> p + PAGE <= a
  {
    InPage(s, a);
    assert BlockOk(s, a);
    if PageOf(a) < p { PagesApart(PageOf(a), p); } else { PagesApart(p, PageOf(a)); }
  }

  lemma AddPageTiled(s: State, p: int)
    requires Tiled(s) && Fresh(s, p)
    ensures Tiled(AddPage(s, p))
  {
    var t := AddPage(s, p);
    forall a | a in t.blocks ensures BlockOk(t, a) { AddPageBlockOk(s, p, a); }
    forall a, b | a in t.blocks && b in t.blocks && a < b ensures Before(t, a, b) { AddPageBefore(s, p, a, b); }
    forall q | q in t.pages ensures PageOk(q) && q in t.blocks {}
  }

  lemma AddPageBlockOk(s: State, p: int, a: int)
    requires Tiled(s) && Fresh(s, p) && a in AddPage(s, p).blocks
    ensures BlockOk(AddPage(s, p), a)
  {
    if a in s.blocks { assert BlockOk(s, a); FreshIsOutside(s, p, a); }
  }

  lemma AddPageBefore(s: State, p: int, a: int, b: int)
    requires Tiled(s) && Fresh(s, p) && a in AddPage(s, p).blocks && b in AddPage(s, p).blocks && a < b
    ensures Before(AddPage(s, p), a, b)
  {
    if a in s.blocks { FreshIsOutside(s, p, a); }
    if b in s.blocks { FreshIsOutside(s, p, b); }
    if a in s.blocks && b in s.blocks { assert Before(s, a, b); }
  }

  lemma AddPageInv(s: State, p: int)
    requires Inv(s) && Fresh(s, p)
    ensures p !in s.blocks
    ensures Inv(AddPage(s, p))
    ensures AddPage(s, p).free[Rank(s.free, p)] == p
  {
    var t := AddPage(s, p);
    var k := Rank(s.free, p);
    AddPageTiled(s, p);
    if p in s.blocks { FreshIsOutside(s, p, p); }
    RankSplits(s.free, p);
    forall i: nat | i < |t.free| ensures t.free[i] in t.blocks && !Touch(t, i) { AddPageApart(s, p, i); }
  }

  lemma AddPageApart(s: State, p: int, i: nat)
    requires Inv(s) && Fresh(s, p) && p !in s.blocks && Tiled(AddPage(s, p)) && i < |AddPage(s, p).free|
    ensures AddPage(s, p).free[i] in AddPage(s, p).blocks && !Touch(AddPage(s, p), i)
  {
    var t, k := AddPage(s, p), Rank(s.free, p);
    var a := t.free[i];
    RankSplits(s.free, p);
    if i + 1 == k { assert a == s.free[i]; FreshIsOutside(s, p, a); }
    else if i < k { assert a == s.free[i] && !Touch(s, i); }
    else if i > k { assert a == s.free[i - 1] && !Touch(s, i - 1); }
  }

  // ------------------------------------------------------------------ Carve

  lemma CarveInv(s: State, i: nat, m: int)
    requires Inv(s) && i < |s.free|
    requires m % 2 == 0 && MIN_ALLOCATION_SIZE <= m <= s.blocks[s.free[i]]
    ensures Inv(Carve(s, i, m).0)
  {
    var a := s.free[i];
    InPage(s, a);
    if s.blocks[a] < m + HEADER + MIN_ALLOCATION_SIZE { CarveWholeInv(s, i); } else { CarveSplitInv(s, i, m); }
  }

  lemma CarveWholeInv(s: State, i: nat)
    requires Inv(s) && i < |s.free|
    ensures Inv(s.(free := RemoveAt(s.free, i)))
  {
    var t := s.(free := RemoveAt(s.free, i));
    SameTiling(s, t);
    forall j | 0 <= j < |t.free| ensures t.free[j] in t.blocks && !Touch(t, j) {
      var k := if j < i then j else j + 1;
      assert t.free[j] == s.free[k] && !Touch(s, k);
      if j + 1 == i { assert Before(s, s.free[j], s.free[i]); }
    }
  }

  lemma SameTiling(s: State, t: State)
    requires Tiled(s) && t.pages == s.pages && t.blocks == s.blocks
    ensures Tiled(t)
  {
    forall b | b in t.blocks ensures BlockOk(t, b) { assert BlockOk(s, b); }
    forall b, c | b in t.blocks && c in t.blocks && b < c ensures Before(t, b, c) { assert Before(s, b, c); }
  }

  ghost predicate Splits(s: State, t: State, a: int, m: int)
    requires a in s.blocks
  {
    && m % 2 == 0 && MIN_ALLOCATION_SIZE <= m && m + HEADER + MIN_ALLOCATION_SIZE <= s.blocks[a]
    && t.pages == s.pages
    && t.blocks == s.blocks[a + m + HEADER := s.blocks[a] - m - HEADER][a := m]
  }

  lemma PageAround(a: int, x: int)
    requires a <= x < PageOf(a) + PAGE
    ensures PageOf(x) == PageOf(a)
  {}

  lemma EvenParts(a: int, m: int, size: int)
    requires a % 2 == 0 && m % 2 == 0 && size % 2 == 0
    ensures (a + m + HEADER) % 2 == 0 && (size - m - HEADER) % 2 == 0
  {}

  lemma SplitBlockOk(s: State, t: State, a: int, m: int, b: int)
    requires Tiled(s) && a in s.blocks && Splits(s, t, a, m) && a + m + HEADER !in s.blocks && b in t.blocks
    ensures BlockOk(t, b)
  {
    assert BlockOk(s, a);
    if b == a + m + HEADER {
      PageAround(a, b);
      EvenParts(a, m, s.blocks[a]);
      assert End(t, b) == End(s, a);
    } else {
      assert BlockOk(s, b);
      if b == a { assert End(t, b) == a + m + HEADER; } else { assert End(t, b) == End(s, b); }
    }
  }

  lemma SplitTiled(s: State, t: State, a: int, m: int)
    requires Tiled(s) && a in s.blocks && Splits(s, t, a, m)
    ensures a + m + HEADER !in s.blocks && Tiled(t)
  {
    var rest := a + m + HEADER;
    assert rest in s.blocks ==> Before(s, a, rest);
    forall b | b in t.blocks ensures BlockOk(t, b) { SplitBlockOk(s, t, a, m, b); }
    forall b, c | b in t.blocks && c in t.blocks && b < c ensures Before(t, b, c) { SplitBefore(s, t, a, m, b, c); }
    forall p | p in t.pages ensures PageOk(p) && p in t.blocks { assert PageOk(p); }
  }

  lemma SplitBefore(s: State, t: State, a: int, m: int, b: int, c: int)
    requires Tiled(s) && a in s.blocks && Splits(s, t, a, m) && a + m + HEADER !in s.blocks
    requires b in t.blocks && c in t.blocks && b < c
    ensures Before(t, b, c)
  {
    if b in s.blocks && c in s.blocks { assert Before(s, b, c); }
    else if b in s.blocks { assert b < a ==> Before(s, b, a); assert a < b ==> Before(s, a, b); }
    else if c in s.blocks { assert a < c ==> Before(s, a, c); }
  }

  lemma CarveSplitInv(s: State, i: nat, m: int)
    requires Inv(s) && i < |s.free| && m % 2 == 0 && MIN_ALLOCATION_SIZE <= m
    requires m + HEADER + MIN_ALLOCATION_SIZE <= s.blocks[s.free[i]]
    ensures Inv(Carve(s, i, m).0)
  {
    var a := s.free[i];
    var t := Carve(s, i, m).0;
    InPage(s, a);
    SplitTiled(s, t, a, m);
    forall j | 0 <= j < |t.free| && j != i
      ensures t.free[j] == s.free[j] && t.free[j] in t.blocks && t.blocks[t.free[j]] == s.blocks[s.free[j]]
      ensures j < i ==> t.free[j] < a
      ensures i < j ==> End(s, a) <= t.free[j]
    {
      if i < j { assert Before(s, a, s.free[j]); }
    }
    forall j | 0 <= j < |t.free| ensures !Touch(t, j) {
      assert !Touch(s, j);
      if j + 1 == i { assert Before(s, s.free[j], a); }
    }
  }

  // ------------------------------------------------------------------ Merge

  /** No two neighbours on the list touch, except possibly at x or at y. */
  ghost predicate CoalescedBut(s: State, x: int, y: int) {
    Listed(s) && forall j: nat {:trigger Touch(s, j)} | j < |s.free| && j != x && j != y :: !Touch(s, j)
  }

  lemma InsertCore(s: State, a: int)
    requires Inv(s) && a in s.blocks && a !in s.free
    ensures var i := Rank(s.free, a); Core(Insert(s, a)) && CoalescedBut(Insert(s, a), i - 1, i)
  {
    var i, t := Rank(s.free, a), Insert(s, a);
    SameTiling(s, t);
    forall j | 0 <= j < |t.free| && j + 1 != i && j != i ensures !Touch(t, j) {
      if j < i { assert !Touch(s, j); } else { assert !Touch(s, j - 1); }
    }
  }

  ghost predicate Joins(s: State, t: State, h1: int, h2: int)
    requires h1 in s.blocks && h2 in s.blocks
  {
    && SamePage(h1, h2) && End(s, h1) == h2 && t.pages == s.pages
    && t.blocks == (s.blocks - {h2})[h1 := s.blocks[h1] + s.blocks[h2] + HEADER]
  }

  lemma JoinedBlockOk(s: State, t: State, h1: int, h2: int, b: int)
    requires Tiled(s) && h1 in s.blocks && h2 in s.blocks && Joins(s, t, h1, h2) && b in t.blocks
    ensures BlockOk(t, b)
  {
    assert BlockOk(s, h1) && BlockOk(s, h2) && BlockOk(s, b);
    if b < h1 {
      assert Before(s, b, h1);
    } else if h1 < b {
      assert Before(s, h2, b) || b < h2;
      assert Before(s, h1, b);
    }
  }

  lemma JoinedBefore(s: State, t: State, h1: int, h2: int, b: int, c: int)
    requires Tiled(s) && h1 in s.blocks && h2 in s.blocks && Joins(s, t, h1, h2)
    requires b in t.blocks && c in t.blocks && b < c
    ensures Before(t, b, c)
  {
    assert Before(s, b, c);
    if b == h1 { assert c > h2 ==> Before(s, h2, c); }
  }

  lemma MergeTiled(s: State, t: State, h1: int, h2: int)
    requires Tiled(s) && h1 in s.blocks && h2 in s.blocks && Joins(s, t, h1, h2)
    ensures Tiled(t)
  {
    assert BlockOk(s, h1) && BlockOk(s, h2);
    InPage(s, h2);
    forall b | b in t.blocks ensures BlockOk(t, b) { JoinedBlockOk(s, t, h1, h2, b); }
    forall b, c | b in t.blocks && c in t.blocks && b < c ensures Before(t, b, c) { JoinedBefore(s, t, h1, h2, b, c); }
    forall p | p in t.pages ensures PageOk(p) && p in t.blocks {
      assert PageOk(p);
      InPage(s, h1);
      assert p == h2 ==> PageOf(h2) == PageOf(h1) <= h1;
    }
  }

  lemma MergeCore(s: State, i: nat)
    requires Core(s) && i < |s.free| && CoalescedBut(s, i - 1, i)
    ensures Core(Merge(s, i)) && CoalescedBut(Merge(s, i), i - 1, i - 1)
  {
    if Touch(s, i) {
      var t := Merge(s, i);
      MergeTiled(s, t, s.free[i], s.free[i + 1]);
      forall j: int | 0 <= j < |t.free| && j != i - 1 ensures !Touch(t, j) {
        MergeUntouched(s, i, j);
      }
    }
  }

  lemma MergeUntouched(s: State, i: nat, j: nat)
    requires Core(s) && i < |s.free| && CoalescedBut(s, i - 1, i) && Touch(s, i)
    requires j < |Merge(s, i).free| && j != i - 1
    ensures !Touch(Merge(s, i), j)
  {
    var t := Merge(s, i);
    RemovedAt(s.free, i + 1, j);
    if j + 1 < |t.free| { RemovedAt(s.free, i + 1, j + 1); }
    if j < i { assert !Touch(s, j); }
    else if j + 1 < |t.free| {
      assert !Touch(s, j + 1);
      if j == i { assert End(t, t.free[j]) == End(s, s.free[i + 1]); }
    }
  }

  lemma RemovedAt(l: seq<int>, k: nat, j: nat)
    requires k < |l| && j < |l| - 1
    ensures RemoveAt(l, k)[j] == if j < k then l[j] else l[j + 1]
  {}

  // ---------------------------------------------------------------- release

  lemma ReleaseTiled(s: State, p: int)
    requires Tiled(s) && p in s.blocks && s.blocks[p] == WHOLE
    ensures Tiled(ReleasePage(s, p))
  {
    var t := ReleasePage(s, p);
    WholeIsPage(s, p);
    forall b | b in t.blocks ensures BlockOk(t, b) {
      assert BlockOk(s, b);
      if b < p { assert Before(s, b, p); PagesApart(PageOf(b), p); } else { assert Before(s, p, b); }
    }
    forall b, c | b in t.blocks && c in t.blocks && b < c ensures Before(t, b, c) { assert Before(s, b, c); }
    forall q | q in t.pages ensures PageOk(q) && q in t.blocks { assert PageOk(q); }
  }

  lemma ReleaseInv(s: State, i: nat)
    requires Core(s) && i < |s.free| && s.blocks[s.free[i]] == WHOLE && CoalescedBut(s, i - 1, i)
    ensures Inv(ReleasePage(s.(free := RemoveAt(s.free, i)), s.free[i]))
  {
    var p := s.free[i];
    var r := s.(free := RemoveAt(s.free, i));
    var t := ReleasePage(r, p);
    SameTiling(s, r);
    ReleaseTiled(r, p);
    forall j | 0 <= j < |t.free| ensures t.free[j] in t.blocks && !Touch(t, j) {
      var k := if j < i then j else j + 1;
      assert t.free[j] == s.free[k];
      assert k != i - 1 ==> !Touch(s, k);
      if k == i - 1 { assert Before(s, s.free[k], p); }
    }
  }

  // ------------------------------------------------------------------- kfree

  /** Where the free stretch that starts with the freed block will end. */
  function StretchEnd(s: State, a: int): int
    requires a in s.blocks
  {
    var e := End(s, a);
    if e in s.free && e in s.blocks && SamePage(a, e) then End(s, e) else e
  }

  /** The head of the list is the only free block below a, and kfree is about to give the
      head's page back: either it is a wholly free page already and a's page stays in use,
      or it starts a's page and the stretch freed with a is all the rest of that page. */
  predicate Dangles(s: State, a: int)
    requires a in s.blocks && Listed(s)
  {
    && a !in s.free
    && |s.free| > 0 && s.free[0] < a && (|s.free| > 1 ==> a < s.free[1])
    && var h := s.free[0];
       || (s.blocks[h] == WHOLE && StretchEnd(s, a) - a < PAGE)
       || (End(s, h) == a && h == PageOf(a) && StretchEnd(s, a) == h + PAGE)
  }

  /** The block at a, inserted and merged with its successor, ends where the stretch ends. */
  lemma MergedForward(s: State, a: int)
    requires Inv(s) && a in s.blocks && a !in s.free
    ensures var i := Rank(s.free, a); var s2 := Listing(s, a);
      && Core(s2) && CoalescedBut(s2, i - 1, i - 1)
      && i < |s2.free| && s2.free[i] == a && s2.free[..i] == s.free[..i]
      && End(s2, a) == StretchEnd(s, a)
      && (forall b | b in s.blocks && b < a :: b in s2.blocks && s2.blocks[b] == s.blocks[b])
  {
    var i, t := Rank(s.free, a), Insert(s, a);
    var s2 := Merge(t, i);
    InsertCore(s, a);
    MergeCore(t, i);
    assert t.free[i] == a;
    TouchIsStretch(s, a);
    assert s2.free[..i] == t.free[..i] == s.free[..i];
  }

  lemma TouchIsStretch(s: State, a: int)
    requires Inv(s) && a in s.blocks && a !in s.free
    ensures Touch(Insert(s, a), Rank(s.free, a)) <==> (End(s, a) in s.free && SamePage(a, End(s, a)))
  {
    var i, t, e := Rank(s.free, a), Insert(s, a), End(s, a);
    RankSplits(s.free, a);
    if i + 1 < |t.free| { assert t.free[i + 1] == s.free[i]; }
    if e in s.free {
      assert BlockOk(s, a);
      var k :| 0 <= k < |s.free| && s.free[k] == e;
      assert i <= k;
      assert Before(s, a, s.free[i]);
    }
  }

  /** kfree keeps the heap invariant exactly when it does not strand the list head. */
  lemma FreeKeepsInv(s: State, a: int)
    requires Inv(s) && a in s.blocks
    ensures Inv(Free(s, a)) <==> !Dangles(s, a)
  {
    if a !in s.free {
      var i, s2 := Rank(s.free, a), Listing(s, a);
      RankSplits(s.free, a);
      MergedForward(s, a);
      InPage(s2, a);
      if s2.blocks[a] == WHOLE {
        ReleaseInv(s2, i);
        WholeIsPage(s2, a);
      } else if i > 0 {
        MergeBackInv(s2, i);
        MergesToWhole(s2, i);
        assert s2.free[i - 1] == s2.free[..i][i - 1] == s.free[i - 1];
        assert i == 1 <==> s.free[0] < a && (|s.free| > 1 ==> a < s.free[1]);
      }
    }
  }

  /** When the predecessor spans its page after the second merge. */
  lemma MergesToWhole(s: State, i: nat)
    requires Core(s) && 0 < i < |s.free| && s.blocks[s.free[i]] != WHOLE
    ensures var h, a := s.free[i - 1], s.free[i]; Merge(s, i - 1).blocks[h] == WHOLE <==>
      s.blocks[h] == WHOLE || (End(s, h) == a && h == PageOf(a) && End(s, a) == h + PAGE)
  {
    var h, a := s.free[i - 1], s.free[i];
    InPage(s, h);
    InPage(s, a);
    assert BlockOk(s, h) && BlockOk(s, a);
  }

  lemma MergedBack(s: State, i: nat)
    requires 0 < i < |s.free| && Core(s) && CoalescedBut(s, i - 1, i - 1)
    ensures Inv(Merge(s, i - 1))
  {
    MergeCore(s, i - 1);
    if i > 1 { UntouchedBefore(s, i); }
  }

  lemma UntouchedBefore(s: State, i: nat)
    requires 1 < i < |s.free| && Core(s) && !Touch(s, i - 2)
    ensures i - 1 < |Merge(s, i - 1).free| && !Touch(Merge(s, i - 1), i - 2)
  {
    var s3 := Merge(s, i - 1);
    assert s3.free[i - 2] == s3.free[..i - 1][i - 2] == s.free[i - 2];
  }

  lemma MergeBackInv(s: State, i: nat)
    requires 0 < i < |s.free| && Core(s) && CoalescedBut(s, i - 1, i - 1)
    ensures Inv(MergeBack(s, i)) <==> !(i == 1 && Merge(s, 0).blocks[s.free[0]] == WHOLE)
  {
    var prev := s.free[i - 1];
    var s3 := Merge(s, i - 1);
    MergedBack(s, i);
    if s3.blocks[prev] == WHOLE {
      if i > 1 { ReleaseInv(s3, i - 1); } else { assert MergeBack(s, i).free[0] !in MergeBack(s, i).blocks; }
    }
  }
}
