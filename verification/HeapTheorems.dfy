// What the heap promises its callers, call by call and over whole runs.
module HeapTheorems {
  import opened Sequences
  import opened HeapModel
  import opened HeapInvariant

  const LAST_SAFE_REQUEST := 0xFFFF_FFF6

  /** The allocations handed out and not freed: header address to payload size. */
  ghost function Live(s: State): map<int, int> {
    map a | a in s.blocks && a !in s.free :: s.blocks[a]
  }

  ghost function FreeBlocks(s: State): map<int, int> {
    map a | a in s.blocks && a in s.free :: s.blocks[a]
  }

  // ------------------------------------------------------------------ kalloc

  /** m bytes can hold n: an even number, and at least 16. */
  predicate CanHold(m: int, n: int) { m % 2 == 0 && m >= n && m >= 16 }

  /** And no smaller number can. */
  ghost predicate IsSize(m: int, n: int) { CanHold(m, n) && forall k | CanHold(k, n) :: m <= k }

  /** What kalloc works with is the least size that holds the request. */
  lemma RequestIsSize(n: int, m: int)
    requires 0 <= n <= LAST_SAFE_REQUEST
    ensures IsSize(m, n) <==> m == Request(n)
    ensures Need(n) == Request(n) + 8
  {
    var r := Request(n);
    assert CanHold(r, n);
    forall k | CanHold(k, n) ensures r <= k {}
  }

  /** A free block with room for a header and m bytes. */
  ghost predicate Suitable(s: State, m: int, a: int) {
    a in s.free && a in s.blocks && s.blocks[a] >= m + 8
  }

  /** The free block at a is handed out for m bytes: whole when it has fewer than 24 more, and
      otherwise cut, what is left being a free block behind it. */
  ghost predicate HandsOut(u: State, t: State, a: int, m: int) {
    && a in u.blocks && t.pages == u.pages
    && var size := u.blocks[a];
      if size < m + 24 then t.blocks == u.blocks && forall c :: c in t.free <==> c in u.free && c != a
      else
        && t.blocks == u.blocks[a + m + 8 := size - m - 8][a := m]
        && forall c :: c in t.free <==> (c in u.free && c != a) || c == a + m + 8
  }

  lemma FirstFitIsLeast(s: State, need: int, i: nat)
    requires Listed(s) && i <= |s.free|
    ensures var k := FirstFit(s, need, i);
      && (forall j | i <= j < k :: s.blocks[s.free[j]] < need)
      && (k < |s.free| ==> s.blocks[s.free[k]] >= need)
    decreases |s.free| - i
  {
    if i < |s.free| && s.blocks[s.free[i]] < need { FirstFitIsLeast(s, need, i + 1); }
  }

  /** The state kalloc cuts the block out of, and the block's index on its list. */
  function Source(s: State, n: int, supply: seq<int>): (State, nat)
    requires Listed(s) && |supply| >= 2
  {
    var t := if s.free == [] then 1 else 0;
    var s1 := if s.free == [] then AddPage(s, supply[0]) else s;
    var i := FirstFit(s1, Need(n), 0);
    if i < |s1.free| then (s1, i) else (AddPage(s1, supply[t]), Rank(s1.free, supply[t]))
  }

  lemma SourceIsSound(s: State, n: int, supply: seq<int>)
    requires Inv(s) && Supply(s, supply) && 0 <= n < WORD && !Rejected(n)
    ensures var (u, i) := Source(s, n, supply);
      && Inv(u) && i < |u.free| && Live(u) == Live(s)
      && (Request(n) <= WHOLE ==> Request(n) <= u.blocks[u.free[i]])
      && Alloc(s, n, supply).state == Carve(u, i, Request(n)).0
      && Alloc(s, n, supply).ptr == u.free[i] + HEADER
  {
    var t := if s.free == [] then 1 else 0;
    var s1 := if s.free == [] then AddPage(s, supply[0]) else s;
    if s.free == [] { AddPageInv(s, supply[0]); AddPageLive(s, supply[0]); }
    FirstFitIsLeast(s1, Need(n), 0);
    if FirstFit(s1, Need(n), 0) == |s1.free| { AddPageInv(s1, supply[t]); AddPageLive(s1, supply[t]); }
  }

  lemma AddPageLive(s: State, p: int)
    requires Inv(s) && Fresh(s, p)
    ensures Live(AddPage(s, p)) == Live(s)
  {
    AddPageInv(s, p);
    var t := AddPage(s, p);
    var k := Rank(s.free, p);
    assert t.free == s.free[..k] + [p] + s.free[k..];
    assert s.free == s.free[..k] + s.free[k..];
    assert forall a :: a in t.free <==> a in s.free || a == p;
  }

  ghost predicate TakesFrom(u: State, t: State, a: int, m: int) {
    && a in t.blocks && m <= t.blocks[a] < m + HEADER + MIN_ALLOCATION_SIZE
    && Live(t) == Live(u)[a := t.blocks[a]] && t.pages == u.pages
  }

  lemma CarveLive(u: State, i: nat, m: int)
    requires Inv(u) && i < |u.free| && m % 2 == 0 && MIN_ALLOCATION_SIZE <= m <= u.blocks[u.free[i]]
    ensures TakesFrom(u, Carve(u, i, m).0, u.free[i], m)
  {
    var t, a := Carve(u, i, m).0, u.free[i];
    InPage(u, a);
    if u.blocks[a] < m + HEADER + MIN_ALLOCATION_SIZE {
      RemovedMembers(u.free, i);
    } else {
      SplitTiled(u, t, a, m);
      ReplacedMembers(u.free, i, a + m + HEADER);
    }
  }

  lemma ReplacedMembers(l: seq<int>, i: nat, b: int)
    requires i < |l| && Ascending(l) && b !in l
    ensures forall c :: c in l[i := b] <==> (c in l && c != l[i]) || c == b
  {
    assert l == l[..i] + [l[i]] + l[i + 1..];
    assert l[i := b] == l[..i] + [b] + l[i + 1..];
  }

  /** kalloc's promise about the pointer it returns: enough bytes, inside one page, taken
      from nobody, and nobody else's allocation touched. */
  ghost predicate Served(s: State, n: int, r: Allocation) {
    if r.ptr == 0 then n > WHOLE && r.state == s && r.taken == 0
    else
      var a := r.ptr - HEADER;
      && a in r.state.blocks && n <= r.state.blocks[a]
      && End(r.state, a) <= PageOf(a) + PAGE
      && a !in Live(s)
      && Live(r.state) == Live(s)[a := r.state.blocks[a]]
  }

  lemma AllocServes(s: State, n: int, supply: seq<int>)
    requires Inv(s) && Supply(s, supply) && 0 <= n <= WHOLE
    ensures KeepsWord(s, n, Alloc(s, n, supply))
  {
    SourceIsSound(s, n, supply);
    var (u, i) := Source(s, n, supply);
    CarveServes(s, u, i, n, Alloc(s, n, supply));
  }

  lemma CarveServes(s: State, u: State, i: nat, n: int, r: Allocation)
    requires Inv(u) && i < |u.free| && 0 <= n <= WHOLE && Request(n) <= u.blocks[u.free[i]]
    requires Live(u) == Live(s) && r.state == Carve(u, i, Request(n)).0 && r.ptr == u.free[i] + HEADER
    ensures KeepsWord(s, n, r)
  {
    CarveInv(u, i, Request(n));
    CarveLive(u, i, Request(n));
    InPage(r.state, u.free[i]);
    InPage(u, u.free[i]);
    assert u.free[i] !in Live(u);
  }

  lemma AllocWraps(s: State, n: int, supply: seq<int>)
    requires Inv(s) && Supply(s, supply) && LAST_SAFE_REQUEST < n < WORD
    ensures !KeepsWord(s, n, Alloc(s, n, supply))
  {
    SourceIsSound(s, n, supply);
    var (u, i) := Source(s, n, supply);
    InPage(u, u.free[i]);
    var a := Alloc(s, n, supply).ptr - HEADER;
    assert PageOf(a) <= a;
  }

  /** kalloc keeps the heap invariant and serves its caller exactly when the request does
      not wrap past the 32-bit range on its way to the size test. */
  lemma AllocMeetsContract(s: State, n: int, supply: seq<int>)
    requires Inv(s) && Supply(s, supply) && 0 <= n < WORD
    ensures KeepsWord(s, n, Alloc(s, n, supply)) <==> n <= LAST_SAFE_REQUEST
  {
    if n <= WHOLE { AllocServes(s, n, supply); }
    else if n <= LAST_SAFE_REQUEST { AllocRejects(s, n, supply); }
    else { AllocWraps(s, n, supply); }
  }

  ghost predicate KeepsWord(s: State, n: int, r: Allocation) { Inv(r.state) && Served(s, n, r) }

  lemma AllocRejects(s: State, n: int, supply: seq<int>)
    requires Listed(s) && |supply| >= 2 && WHOLE < n <= LAST_SAFE_REQUEST
    ensures Alloc(s, n, supply) == Allocation(s, 0, 0)
  {}

  lemma CarveHandsOut(u: State, i: nat, m: int)
    requires Inv(u) && i < |u.free| && m % 2 == 0 && MIN_ALLOCATION_SIZE <= m <= u.blocks[u.free[i]]
    ensures HandsOut(u, Carve(u, i, m).0, u.free[i], m)
  {
    var t, a := Carve(u, i, m).0, u.free[i];
    InPage(u, a);
    if u.blocks[a] < m + HEADER + MIN_ALLOCATION_SIZE {
      RemovedMembers(u.free, i);
    } else {
      SplitTiled(u, t, a, m);
      ReplacedMembers(u.free, i, a + m + HEADER);
    }
  }

  /** First fit: the lowest-addressed free block with room is handed out; a page is added to a
      non-empty list only when there is none. m is the least size that holds the request. */
  lemma AllocIsFirstFit(s: State, n: int, m: int, supply: seq<int>, a: int)
    requires Inv(s) && Supply(s, supply) && 0 <= n <= WHOLE && IsSize(m, n)
    requires Suitable(s, m, a) && forall b | Suitable(s, m, b) :: a <= b
    ensures var r := Alloc(s, n, supply); r.ptr == a + 8 && r.taken == 0 && HandsOut(s, r.state, a, m)
  {
    RequestIsSize(n, m);
    FirstFitIsLeast(s, Need(n), 0);
    var k := FirstFit(s, Need(n), 0);
    var j :| 0 <= j < |s.free| && s.free[j] == a;
    assert k < |s.free| && s.free[k] in s.free && Suitable(s, m, s.free[k]);
    assert k <= j;
    CarveHandsOut(s, k, m);
  }

  /** With no block with room the block comes from a page added for it, whole when fewer than 24
      bytes would be left. A request over 4080 bytes on an empty list takes two pages and leaves
      the first wholly free. */
  lemma AllocAddsPages(s: State, n: int, m: int, supply: seq<int>)
    requires Inv(s) && Supply(s, supply) && 0 <= n <= WHOLE && IsSize(m, n)
    requires forall b :: !Suitable(s, m, b)
    ensures var r := Alloc(s, n, supply);
      && r.taken == (if s.free == [] && m > 4080 then 2 else 1)
      && r.ptr == supply[r.taken - 1] + 8
      && CutFromWhole(r, m)
      && r.state.pages == s.pages + (set p | p in supply[..r.taken])
      && (r.taken == 2 ==> supply[0] in r.state.free && r.state.blocks[supply[0]] == WHOLE)
  {
    RequestIsSize(n, m);
    PrefixPages(supply);
    if s.free == [] { AllocOnEmptyList(s, n, supply); } else { AllocExtendsList(s, n, m, supply); }
    NewBlockIsCut(s, n, m, supply);
  }

  lemma NewBlockIsCut(s: State, n: int, m: int, supply: seq<int>)
    requires Inv(s) && Supply(s, supply) && 0 <= n <= WHOLE && m == Request(n) && Need(n) == m + 8
    requires m % 2 == 0 && MIN_ALLOCATION_SIZE <= m <= WHOLE
    requires forall b :: !Suitable(s, m, b)
    ensures CutFromWhole(Alloc(s, n, supply), m)
  {
    SourceIsSound(s, n, supply);
    SourceIsNew(s, n, m, supply);
    WholePageIsCut(Source(s, n, supply).0, Source(s, n, supply).1, m, Alloc(s, n, supply));
  }

  ghost predicate CutFromWhole(r: Allocation, m: int) {
    var a := r.ptr - 8;
    a in r.state.blocks && r.state.blocks[a] == if 4088 < m + 24 then 4088 else m
  }

  lemma WholePageIsCut(u: State, i: nat, m: int, r: Allocation)
    requires Inv(u) && i < |u.free| && m % 2 == 0 && MIN_ALLOCATION_SIZE <= m <= WHOLE
    requires u.blocks[u.free[i]] == WHOLE && r.state == Carve(u, i, m).0 && r.ptr == u.free[i] + HEADER
    ensures CutFromWhole(r, m)
  {
    CarveHandsOut(u, i, m);
  }

  lemma SourceIsNew(s: State, n: int, m: int, supply: seq<int>)
    requires Inv(s) && Supply(s, supply) && 0 <= n <= WHOLE && Need(n) == m + 8
    requires forall b :: !Suitable(s, m, b)
    ensures var (u, i) := Source(s, n, supply); i < |u.free| && u.free[i] in u.blocks && u.blocks[u.free[i]] == WHOLE
  {
    if s.free == [] {
      FirstPage(s, supply[0]);
      FirstFitOfOne(AddPage(s, supply[0]), Need(n), supply[0]);
      AddPageInv(AddPage(s, supply[0]), supply[1]);
    } else {
      NothingFits(s, n, m);
      AddPageInv(s, supply[0]);
    }
  }

  lemma NothingFits(s: State, n: int, m: int)
    requires Listed(s) && Need(n) == m + 8 && forall b :: !Suitable(s, m, b)
    ensures FirstFit(s, Need(n), 0) == |s.free|
  {
    FirstFitIsLeast(s, Need(n), 0);
    forall a | a in s.free ensures s.blocks[a] < m + 8 { assert !Suitable(s, m, a); }
  }

  /** How many pages kalloc will ask for. */
  function Taken(s: State, n: int): nat
    requires Listed(s)
  {
    if Rejected(n) then 0
    else if s.free == [] then (if Need(n) <= WHOLE then 1 else 2)
    else if FirstFit(s, Need(n), 0) < |s.free| then 0 else 1
  }

  lemma TakenIs(s: State, n: int, supply: seq<int>)
    requires Listed(s) && |supply| >= 2
    ensures Alloc(s, n, supply).taken == Taken(s, n)
  {
    if s.free == [] { FirstFitOfOne(AddPage(s, supply[0]), Need(n), supply[0]); }
  }

  /** Only the pages asked for matter. */
  lemma UnusedSupply(s: State, n: int, supply: seq<int>, supply': seq<int>)
    requires Listed(s) && |supply| >= 2 && |supply'| >= 2
    requires forall i: nat | i < Taken(s, n) <= 2 :: supply[i] == supply'[i]
    ensures Alloc(s, n, supply) == Alloc(s, n, supply')
  {
    TakenIs(s, n, supply);
    TakenIs(s, n, supply');
  }

  lemma PrefixPages(supply: seq<int>)
    requires |supply| >= 2
    ensures (set p | p in supply[..1]) == {supply[0]} && (set p | p in supply[..2]) == {supply[0], supply[1]}
  {
    assert supply[..1] == [supply[0]];
    assert supply[..2] == [supply[0], supply[1]];
  }

  lemma AllocExtendsList(s: State, n: int, m: int, supply: seq<int>)
    requires Inv(s) && Supply(s, supply) && 0 <= n <= WHOLE && s.free != [] && Need(n) == m + 8
    requires forall b :: !Suitable(s, m, b)
    ensures var r := Alloc(s, n, supply);
      r.taken == 1 && r.ptr == supply[0] + HEADER && r.state.pages == s.pages + {supply[0]}
  {
    NothingFits(s, n, m);
    AddPageInv(s, supply[0]);
  }

  lemma AllocOnEmptyList(s: State, n: int, supply: seq<int>)
    requires Inv(s) && Supply(s, supply) && 0 <= n <= WHOLE && s.free == []
    ensures var r := Alloc(s, n, supply); Need(n) <= WHOLE ==>
      r.taken == 1 && r.ptr == supply[0] + HEADER && r.state.pages == s.pages + {supply[0]}
    ensures var r := Alloc(s, n, supply); Need(n) > WHOLE ==>
      && r.taken == 2 && r.ptr == supply[1] + HEADER && r.state.pages == s.pages + {supply[0], supply[1]}
      && r.state.free == [supply[0]] && supply[0] in r.state.blocks && r.state.blocks[supply[0]] == WHOLE
  {
    FirstPage(s, supply[0]);
    FirstFitOfOne(AddPage(s, supply[0]), Need(n), supply[0]);
    if Need(n) > WHOLE { AllocTakesTwo(s, n, supply); }
  }

  lemma AllocTakesTwo(s: State, n: int, supply: seq<int>)
    requires Inv(s) && Supply(s, supply) && 0 <= n <= WHOLE && s.free == [] && Need(n) > WHOLE
    ensures var r := Alloc(s, n, supply);
      && r.taken == 2 && r.ptr == supply[1] + HEADER && r.state.pages == s.pages + {supply[0], supply[1]}
      && r.state.free == [supply[0]] && supply[0] in r.state.blocks && r.state.blocks[supply[0]] == WHOLE
  {
    var s1 := AddPage(s, supply[0]);
    FirstPage(s, supply[0]);
    SecondIsNew(s1, supply[1]);
    FirstFitOfOne(s1, Need(n), supply[0]);
    NearlyAPage(n);
    SecondPage(s1, supply[0], supply[1], Request(n));
    FromSecondPage(s, n, supply, s1);
  }

  lemma NearlyAPage(n: int)
    requires 0 <= n <= WHOLE && Need(n) > WHOLE
    ensures !Rejected(n) && WHOLE - HEADER < Request(n) <= WHOLE
  {}

  lemma FromSecondPage(s: State, n: int, supply: seq<int>, s1: State)
    requires Listed(s) && |supply| >= 2 && s.free == [] && s1 == AddPage(s, supply[0]) && !Rejected(n)
    requires FirstFit(s1, Need(n), 0) == |s1.free|
    ensures var c := Carve(AddPage(s1, supply[1]), Rank(s1.free, supply[1]), Request(n));
      Alloc(s, n, supply) == Allocation(c.0, c.1, 2)
  {}

  lemma SecondIsNew(s: State, q: int)
    requires Inv(s) && Fresh(s, q)
    ensures q !in s.blocks
  {
    AddPageInv(s, q);
  }

  lemma FirstPage(s: State, p: int)
    requires Inv(s) && Fresh(s, p) && s.free == []
    ensures var t := AddPage(s, p);
      Inv(t) && t.free == [p] && p in t.blocks && t.blocks[p] == WHOLE && t.pages == s.pages + {p}
  {
    AddPageInv(s, p);
  }

  lemma FirstFitOfOne(s: State, need: int, p: int)
    requires s.free == [p] && p in s.blocks && s.blocks[p] == WHOLE
    ensures FirstFit(s, need, 0) == if need <= WHOLE then 0 else 1
  {
    FirstFitIsLeast(s, need, 0);
  }

  lemma SecondPage(s: State, p: int, q: int, m: int)
    requires q !in s.blocks && s.free == [p] && p in s.blocks && s.blocks[p] == WHOLE && WHOLE - HEADER < m <= WHOLE
    ensures var u := AddPage(s, q); var k := Rank(s.free, q);
      && k < |u.free| && u.free[k] == q && q in u.blocks && u.blocks[q] == WHOLE
      && Carve(u, k, m).0 == u.(free := [p])
      && p in u.blocks && u.blocks[p] == WHOLE && u.pages == s.pages + {q}
  {
    OneOfTwo(p, q);
  }

  lemma OneOfTwo(p: int, q: int)
    ensures var k := Rank([p], q); var l := InsertAt([p], k, q);
      |l| == 2 && l[k] == q && RemoveAt(l, k) == [p]
  {
    var k := Rank([p], q);
    assert k == if p >= q then 0 else 1;
    assert InsertAt([p], k, q) == (if k == 0 then [q, p] else [p, q]);
  }

  // ------------------------------------------------------------------- kfree

  lemma RemovedMembers(l: seq<int>, i: nat)
    requires i < |l| && Ascending(l)
    ensures forall b :: b in RemoveAt(l, i) <==> b in l && b != l[i]
  {
    assert l == l[..i] + [l[i]] + l[i + 1..];
  }

  lemma MergeLive(s: State, i: nat)
    requires Core(s) && i < |s.free|
    ensures Live(Merge(s, i)) == Live(s)
  {
    if Touch(s, i) { RemovedMembers(s.free, i + 1); }
  }

  lemma ReleaseLive(s: State, i: nat)
    requires Core(s) && i < |s.free|
    ensures Live(ReleasePage(s.(free := RemoveAt(s.free, i)), s.free[i])) == Live(s)
  {
    RemovedMembers(s.free, i);
  }

  lemma InsertLive(s: State, a: int)
    requires Inv(s) && a in s.blocks && a !in s.free
    ensures Live(Insert(s, a)) == Live(s) - {a}
  {
    var i, t := Rank(s.free, a), Insert(s, a);
    assert t.free == s.free[..i] + [a] + s.free[i..] && s.free == s.free[..i] + s.free[i..];
    assert forall b :: b in t.free <==> b in s.free || b == a;
  }

  lemma ListingLive(s: State, a: int)
    requires Inv(s) && a in s.blocks && a !in s.free
    ensures Live(Listing(s, a)) == Live(s) - {a}
  {
    InsertLive(s, a);
    InsertCore(s, a);
    MergeLive(Insert(s, a), Rank(s.free, a));
  }

  /** kfree ends exactly the allocation it is given. */
  lemma FreeEndsOneAllocation(s: State, a: int)
    requires Inv(s) && a in s.blocks && a !in s.free
    ensures Live(Free(s, a)) == Live(s) - {a}
  {
    var i, s2 := Rank(s.free, a), Listing(s, a);
    MergedForward(s, a);
    ListingLive(s, a);
    if s2.blocks[a] == WHOLE { ReleaseLive(s2, i); } else if i > 0 { MergeBackLive(s2, i); }
  }

  lemma MergeBackLive(s: State, i: nat)
    requires 0 < i < |s.free| && Core(s) && CoalescedBut(s, i - 1, i - 1)
    ensures Live(MergeBack(s, i)) == Live(s)
  {
    var s3, prev := Merge(s, i - 1), s.free[i - 1];
    MergeCore(s, i - 1);
    MergeLive(s, i - 1);
    if s3.blocks[prev] == WHOLE {
      if i > 1 { ReleaseLive(s3, i - 1); } else { ReleaseHeadLive(s3); }
    }
  }

  lemma ReleaseHeadLive(s: State)
    requires Listed(s) && |s.free| > 0
    ensures Live(ReleasePage(s, s.free[0])) == Live(s)
  {}

  /** kfree never leaves the freed block's page in the heap as one free block. */
  lemma FreeLeavesNoWholePage(s: State, a: int)
    requires Inv(s) && a in s.blocks && a !in s.free
    ensures var t, p := Free(s, a), PageOf(a); p in t.blocks ==> t.blocks[p] != WHOLE
  {
    var i, s2 := Rank(s.free, a), Listing(s, a);
    MergedForward(s, a);
    if s2.blocks[a] == WHOLE { WholeIsPage(s2, a); }
    else if i > 0 { NotLeftWhole(s2, i, a); }
    else { NotUnderWhole(s2, a); }
  }

  lemma NotUnderWhole(s: State, a: int)
    requires Tiled(s) && a in s.blocks && s.blocks[a] != WHOLE
    ensures PageOf(a) in s.blocks ==> s.blocks[PageOf(a)] != WHOLE
  {
    InPage(s, a);
    if PageOf(a) in s.blocks && PageOf(a) != a { assert Before(s, PageOf(a), a); }
  }

  lemma NotLeftWhole(s: State, i: nat, a: int)
    requires 0 < i < |s.free| && Core(s) && CoalescedBut(s, i - 1, i - 1)
    requires s.free[i] == a && s.blocks[a] != WHOLE
    ensures var t := MergeBack(s, i); PageOf(a) in t.blocks ==> t.blocks[PageOf(a)] != WHOLE
  {
    NotUnderWhole(s, a);
  }

  /** kfree gives back at most one page, one that the heap holds and no other allocation is in. */
  lemma FreeReleasesOnlyFreePages(s: State, a: int)
    requires Inv(s) && a in s.blocks
    ensures var t, p := Free(s, a), Released(s, a);
      if p == 0 then t.pages == s.pages else p in OnlyFreePages(s, a) && t.pages == s.pages - {p}
  {
    if a !in s.free {
      var i, s2 := Rank(s.free, a), Listing(s, a);
      MergedForward(s, a);
      ListingLive(s, a);
      InPage(s, a);
      if s2.blocks[a] == WHOLE {
        WholeIsOnlyFree(s2, a, s, a);
      } else if i > 0 {
        MergeBackReleases(s2, i, s, a);
      }
    }
  }

  lemma MergeBackReleases(s2: State, i: nat, s: State, a: int)
    requires 0 < i < |s2.free| && Core(s2) && CoalescedBut(s2, i - 1, i - 1)
    requires s2.pages == s.pages && Live(s2) == Live(s) - {a}
    ensures var t, p := MergeBack(s2, i), ReleasedBack(s2, i);
      if p == 0 then t.pages == s.pages else p in OnlyFreePages(s, a) && t.pages == s.pages - {p}
  {
    var s3, prev := Merge(s2, i - 1), s2.free[i - 1];
    MergeCore(s2, i - 1);
    MergeLive(s2, i - 1);
    if s3.blocks[prev] == WHOLE {
      assert prev in s3.free;
      InPage(s3, prev);
      WholeIsOnlyFree(s3, prev, s, a);
      assert MergeBack(s2, i).pages == s3.pages - {prev};
    }
  }

  lemma WholeIsOnlyFree(s3: State, p: int, s: State, a: int)
    requires Core(s3) && p in s3.free && p in s3.blocks && s3.blocks[p] == WHOLE
    requires s3.pages == s.pages && Live(s3) == Live(s) - {a}
    ensures p in OnlyFreePages(s, a)
  {
    WholeHoldsNothing(s3, p);
    forall b | b in Live(s) && b != a ensures PageOf(b) != p { assert b in Live(s3); }
  }

  /** Pages in which a is the only allocation, if there is any. */
  ghost function OnlyFreePages(s: State, a: int): set<int> {
    set p | p in s.pages && forall b | b in Live(s) && b != a :: PageOf(b) != p
  }

  lemma WholeHoldsNothing(s: State, p: int)
    requires Core(s) && p in s.blocks && s.blocks[p] == WHOLE && p in s.free
    ensures p in s.pages && forall b | b in Live(s) :: PageOf(b) != p
  {
    WholeIsPage(s, p);
    forall b | b in Live(s) ensures PageOf(b) != p {
      if p < b { assert Before(s, p, b); InPage(s, b); } else { InPage(s, b); }
    }
  }

  // -------------------------------------------------------------- round trip

  /** In t the block that was the k-th free one of s can be freed, and that gives s exactly when
      neither it nor the one before it on the list spans a page. */
  ghost predicate Restores(s: State, t: State, k: nat)
    requires Listed(s) && k < |s.free|
  {
    var a := s.free[k];
    && a in t.blocks && Listed(t) && Ascending(t.free)
    && (Free(t, a) == s <==> s.blocks[a] != WHOLE && (k > 0 ==> s.blocks[s.free[k - 1]] != WHOLE))
  }

  /** kfree right after a kalloc that obtained no page restores the heap exactly, unless the
      block taken, or the one before it on the list, spans a page: that page is given back. */
  lemma FreeUndoesAlloc(s: State, n: int, supply: seq<int>)
    requires Inv(s) && Supply(s, supply) && 0 <= n <= WHOLE && Alloc(s, n, supply).taken == 0
    ensures var r := Alloc(s, n, supply); var k := FirstFit(s, Need(n), 0);
      k < |s.free| && r.ptr == s.free[k] + HEADER && Restores(s, r.state, k)
  {
    AllocOffTheList(s, n, supply);
    FreeUndoesCarve(s, FirstFit(s, Need(n), 0), Request(n), Alloc(s, n, supply).state);
  }

  lemma FreeUndoesCarve(s: State, k: nat, m: int, t: State)
    requires Inv(s) && k < |s.free| && m % 2 == 0 && MIN_ALLOCATION_SIZE <= m <= s.blocks[s.free[k]]
    requires t == Carve(s, k, m).0
    ensures Restores(s, t, k)
  {
    CarveInv(s, k, m);
    CarvedBack(s, k, m);
    FreeOfCarved(s, t, k);
  }

  lemma AllocOffTheList(s: State, n: int, supply: seq<int>)
    requires Inv(s) && Supply(s, supply) && 0 <= n <= WHOLE && Alloc(s, n, supply).taken == 0
    ensures var k := FirstFit(s, Need(n), 0);
      && k < |s.free| && s.blocks[s.free[k]] >= Need(n)
      && Alloc(s, n, supply).state == Carve(s, k, Request(n)).0 && Alloc(s, n, supply).ptr == s.free[k] + HEADER
      && Request(n) % 2 == 0 && MIN_ALLOCATION_SIZE <= Request(n) <= s.blocks[s.free[k]]
  {
    FirstFitIsLeast(s, Need(n), 0);
  }

  lemma FreeOfCarved(s: State, t: State, k: nat)
    requires Inv(s) && Inv(t) && k < |s.free|
    requires s.free[k] in t.blocks && s.free[k] !in t.free && Rank(t.free, s.free[k]) == k && Listing(t, s.free[k]) == s
    ensures Free(t, s.free[k]) == s <==> s.blocks[s.free[k]] != WHOLE && (k > 0 ==> s.blocks[s.free[k - 1]] != WHOLE)
  {
    if k > 0 { MergeBackAtRest(s, k); }
  }

  lemma MergeBackAtRest(s: State, k: nat)
    requires Inv(s) && 0 < k < |s.free|
    ensures MergeBack(s, k) == s <==> s.blocks[s.free[k - 1]] != WHOLE
  {
    assert !Touch(s, k - 1);
  }

  lemma CarvedBack(s: State, k: nat, m: int)
    requires Inv(s) && k < |s.free| && m % 2 == 0 && MIN_ALLOCATION_SIZE <= m <= s.blocks[s.free[k]]
    requires Inv(Carve(s, k, m).0)
    ensures var t, a := Carve(s, k, m).0, s.free[k];
      a in t.blocks && a !in t.free && Rank(t.free, a) == k && Listing(t, a) == s
  {
    InPage(s, s.free[k]);
    if s.blocks[s.free[k]] < m + HEADER + MIN_ALLOCATION_SIZE { WholeBack(s, k); }
    else { PartBack(s, k, m); }
  }

  lemma PartBack(s: State, k: nat, m: int)
    requires Inv(s) && k < |s.free| && m % 2 == 0 && MIN_ALLOCATION_SIZE <= m
    requires m + HEADER + MIN_ALLOCATION_SIZE <= s.blocks[s.free[k]] && Inv(Carve(s, k, m).0)
    ensures var t, a := Carve(s, k, m).0, s.free[k];
      a in t.blocks && a !in t.free && Rank(t.free, a) == k && Listing(t, a) == s
  {
    var t, a := Carve(s, k, m).0, s.free[k];
    InPage(s, a);
    SplitTiled(s, t, a, m);
    RankIs(t.free, a, k);
    SplitBack(s, t, k, m);
  }

  lemma WholeBack(s: State, k: nat)
    requires Inv(s) && k < |s.free| && Inv(s.(free := RemoveAt(s.free, k)))
    ensures var t, a := s.(free := RemoveAt(s.free, k)), s.free[k];
      a !in t.free && Rank(t.free, a) == k && Listing(t, a) == s
  {
    var t, a := s.(free := RemoveAt(s.free, k)), s.free[k];
    RankIs(t.free, a, k);
    assert Insert(t, a).free == s.free;
    assert !Touch(s, k);
  }

  lemma SplitBack(s: State, t: State, k: nat, m: int)
    requires Inv(s) && k < |s.free| && Inv(t) && Splits(s, t, s.free[k], m)
    requires s.free[k] + m + HEADER !in s.blocks && t.free == s.free[k := s.free[k] + m + HEADER]
    requires s.free[k] !in t.free && Rank(t.free, s.free[k]) == k
    ensures Listing(t, s.free[k]) == s
  {
    var a := s.free[k];
    var u, rest := Insert(t, a), a + m + HEADER;
    InPage(s, a);
    SplitList(s.free, k, rest);
    PageAround(a, rest);
    assert u.free[k] == a && u.free[k + 1] == rest && Touch(u, k);
    assert (t.blocks - {rest})[a := s.blocks[a]] == s.blocks;
  }

  lemma SplitList(l: seq<int>, k: nat, b: int)
    requires k < |l|
    ensures var u := InsertAt(l[k := b], k, l[k]);
      |u| == |l| + 1 && u[k] == l[k] && u[k + 1] == b && RemoveAt(u, k + 1) == l
  {
    assert InsertAt(l[k := b], k, l[k]) == l[..k] + [l[k], b] + l[k + 1..];
  }

  lemma RankIs(l: seq<int>, a: int, k: nat)
    requires Ascending(l) && k <= |l| && (forall j | 0 <= j < k :: l[j] < a) && (forall j | k <= j < |l| :: l[j] > a)
    ensures Rank(l, a) == k && a !in l
  {
    RankSplits(l, a);
    assert k < |l| ==> l[k] > a;
    assert 0 < k ==> l[k - 1] < a;
  }
}
