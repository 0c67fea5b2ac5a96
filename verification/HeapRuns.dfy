// Whole runs of the heap: conservation of bytes, and every reachable state.
module HeapRuns {
  import opened Sequences
  import opened HeapModel
  import opened HeapInvariant
  import opened HeapTheorems

  /** Bytes taken by blocks, headers included. */
  ghost function Total(m: map<int, int>): int {
    if exists k :: k in m then var k :| k in m; HEADER + m[k] + Total(m - {k}) else 0
  }

  lemma {:induction false} TotalRemove(m: map<int, int>, k: int)
    requires k in m
    ensures Total(m) == HEADER + m[k] + Total(m - {k})
    decreases |m|
  {
    var c :| c in m && Total(m) == HEADER + m[c] + Total(m - {c});
    if c != k {
      TotalRemove(m - {c}, k);
      TotalRemove(m - {k}, c);
      assert m - {c} - {k} == m - {k} - {c};
    }
  }

  lemma {:induction false} TotalUnion(m: map<int, int>, m': map<int, int>)
    requires m.Keys !! m'.Keys
    ensures Total(m + m') == Total(m) + Total(m')
    decreases |m|
  {
    if m.Keys == {} { assert m + m' == m'; }
    else {
      var k := Pick(m.Keys);
      TotalUnion(m - {k}, m');
      RemoveFromUnion(m, m', k);
      TotalRemove(m, k);
      TotalRemove(m + m', k);
    }
  }

  lemma RemoveFromUnion(m: map<int, int>, m': map<int, int>, k: int)
    requires m.Keys !! m'.Keys && k in m
    ensures (m + m') - {k} == (m - {k}) + m' && (m + m')[k] == m[k]
  {}

  lemma Pick<T>(s: set<T>) returns (x: T)
    requires s != {}
    ensures x in s
  {
    x :| x in s;
  }

  lemma {:induction false} TiledTotal(s: State)
    requires Tiled(s)
    ensures Total(s.blocks) == PAGE * |s.pages|
    decreases |s.blocks|
  {
    forall p | p in s.pages ensures p in s.blocks.Keys { assert PageOk(p); }
    if s.blocks.Keys == {} { assert s.pages == {}; }
    else {
      var a := Pick(s.blocks.Keys);
      var p := PageOf(a);
      assert BlockOk(s, a);
      assert PageOk(p) && BlockOk(s, p);
      TotalRemove(s.blocks, p);
      if s.blocks[p] == WHOLE {
        ReleaseTiled(s, p);
        TiledTotal(ReleasePage(s, p));
      } else {
        JoinFirstTwo(s, p);
      }
    }
  }

  lemma {:induction false} JoinFirstTwo(s: State, p: int)
    requires Tiled(s) && p in s.pages && p in s.blocks && s.blocks[p] != WHOLE
    ensures Total(s.blocks) == PAGE * |s.pages|
    decreases |s.blocks|, 0
  {
    assert PageOk(p) && BlockOk(s, p);
    var q := End(s, p);
    assert BlockOk(s, q);
    InPage(s, q);
    var size := s.blocks[p] + s.blocks[q] + HEADER;
    var t := s.(blocks := (s.blocks - {q})[p := size]);
    MergeTiled(s, t, p, q);
    TotalRemove(s.blocks, q);
    TotalRemove(s.blocks - {q}, p);
    TotalRemove(t.blocks, p);
    assert t.blocks - {p} == s.blocks - {q} - {p};
    assert t.blocks.Keys == s.blocks.Keys - {q};
    assert |t.blocks| < |s.blocks|;
    TiledTotal(t);
  }

  /** Free and live bytes, headers included, add up to the pages held. */
  lemma BytesConserved(s: State)
    requires Inv(s)
    ensures Total(Live(s)) + Total(FreeBlocks(s)) == PAGE * |s.pages|
  {
    TiledTotal(s);
    TotalUnion(Live(s), FreeBlocks(s));
    LiveAndFree(s);
  }

  lemma LiveAndFree(s: State)
    ensures Live(s) + FreeBlocks(s) == s.blocks
  {
    assert (Live(s) + FreeBlocks(s)).Keys == s.blocks.Keys;
  }

  // -------------------------------------------------------------------- runs

  datatype Call = Kalloc(n: int, supply: seq<int>) | Kfree(ptr: int)

  /** What the code asks of a caller, and the two conditions under which it keeps its word. */
  ghost predicate Legal(s: State, c: Call) {
    match c
    case Kalloc(n, supply) => 0 <= n <= LAST_SAFE_REQUEST && Supply(s, supply)
    case Kfree(ptr) => ptr != 0 ==> ptr - HEADER in s.blocks && Listed(s) && !Dangles(s, ptr - HEADER)
  }

  ghost function Step(s: State, c: Call): State
    requires Listed(s) && Ascending(s.free) && Legal(s, c)
  {
    match c
    case Kalloc(n, supply) => Alloc(s, n, supply).state
    case Kfree(ptr) => if ptr == 0 then s else Free(s, ptr - HEADER)
  }

  ghost predicate Next(s: State, s': State, c: Call) {
    Listed(s) && Ascending(s.free) && Legal(s, c) && s' == Step(s, c)
  }

  /** states is a run of the heap from the empty one. */
  ghost predicate IsRun(states: seq<State>, calls: seq<Call>) {
    && |states| == |calls| + 1 && states[0] == EMPTY
    && forall i: nat {:trigger Next(states[i], states[i + 1], calls[i])} | i < |calls| ::
         Next(states[i], states[i + 1], calls[i])
  }

  /** p is held exactly when its block is live, and the block has the bytes asked for. */
  ghost predicate HeldAt(held: map<int, int>, live: map<int, int>, p: int) {
    (p in held <==> p - HEADER in live) && (p in held && p - HEADER in live ==> held[p] <= live[p - HEADER])
  }

  ghost predicate Holds(held: map<int, int>, live: map<int, int>) {
    forall p {:trigger HeldAt(held, live, p)} :: HeldAt(held, live, p)
  }

  /** The caller's own record after the first k calls: the pointers it holds, and for each the
      bytes it asked for. */
  ghost function Ledger(states: seq<State>, calls: seq<Call>, k: nat): map<int, int>
    requires IsRun(states, calls) && k <= |calls|
  {
    if k == 0 then map[]
    else
      var i: nat := k - 1;
      var held := Ledger(states, calls, i);
      assert Next(states[i], states[i + 1], calls[i]);
      match calls[i]
      case Kalloc(n, supply) => Recorded(held, Alloc(states[i], n, supply).ptr, n)
      case Kfree(ptr) => held - {ptr}
  }

  ghost function Recorded(held: map<int, int>, p: int, n: int): map<int, int> {
    if p == 0 then held else held[p := n]
  }

  /** In every reachable state pages are tiled, the list is in order and coalesced, no byte
      is lost, and the live blocks are exactly those handed out and not yet freed, still with
      the bytes asked for. */
  lemma {:induction false} RunsAreSafe(states: seq<State>, calls: seq<Call>, k: nat)
    requires IsRun(states, calls) && k <= |calls|
    ensures Inv(states[k])
    ensures Total(Live(states[k])) + Total(FreeBlocks(states[k])) == PAGE * |states[k].pages|
    ensures Holds(Ledger(states, calls, k), Live(states[k]))
  {
    if k > 0 {
      var i: nat := k - 1;
      RunsAreSafe(states, calls, i);
      assert Next(states[i], states[i + 1], calls[i]);
      StepIsSafe(states[i], calls[i]);
      match calls[i]
      case Kalloc(n, supply) => LedgerAfterAlloc(states[i], n, supply, Ledger(states, calls, i));
      case Kfree(ptr) => LedgerAfterFree(states[i], ptr, Ledger(states, calls, i));
    }
    BytesConserved(states[k]);
  }

  lemma LedgerAfterAlloc(s: State, n: int, supply: seq<int>, held: map<int, int>)
    requires Inv(s) && Supply(s, supply) && 0 <= n <= LAST_SAFE_REQUEST && Holds(held, Live(s))
    ensures var r := Alloc(s, n, supply); Holds(Recorded(held, r.ptr, n), Live(r.state))
  {
    var r := Alloc(s, n, supply);
    AllocGrows(s, n, supply);
    HeldAfterAlloc(held, Live(s), Live(r.state), r.ptr, n);
  }

  lemma LedgerAfterFree(s: State, ptr: int, held: map<int, int>)
    requires Inv(s) && Legal(s, Kfree(ptr)) && Holds(held, Live(s))
    ensures Holds(held - {ptr}, Live(Step(s, Kfree(ptr))))
  {
    StepIsSafe(s, Kfree(ptr));
    HeldAfterFree(held, Live(s), ptr);
  }

  /** The live blocks after an allocation that returned p. */
  ghost predicate Grown(live: map<int, int>, live': map<int, int>, p: int, n: int) {
    if p == 0 then live' == live
    else p - HEADER in live' && n <= live'[p - HEADER] && live' == live[p - HEADER := live'[p - HEADER]]
  }

  lemma HeldAfterAlloc(held: map<int, int>, live: map<int, int>, live': map<int, int>, p: int, n: int)
    requires Holds(held, live) && Grown(live, live', p, n)
    ensures Holds(Recorded(held, p, n), live')
  {
    forall q ensures HeldAt(Recorded(held, p, n), live', q) { assert HeldAt(held, live, q); }
  }

  lemma HeldAfterFree(held: map<int, int>, live: map<int, int>, p: int)
    requires Holds(held, live)
    ensures Holds(held - {p}, live - {p - HEADER})
  {
    var held', live' := held - {p}, live - {p - HEADER};
    forall q ensures HeldAt(held', live', q) { assert HeldAt(held, live, q); }
  }

  lemma StepIsSafe(s: State, c: Call)
    requires Inv(s) && Legal(s, c)
    ensures Inv(Step(s, c))
    ensures c.Kalloc? ==> Grown(Live(s), Live(Step(s, c)), Alloc(s, c.n, c.supply).ptr, c.n)
    ensures c.Kfree? ==> Live(Step(s, c)) == Live(s) - {c.ptr - HEADER}
  {
    match c
    case Kalloc(n, supply) => AllocGrows(s, n, supply);
    case Kfree(ptr) =>
      if ptr != 0 {
        FreeKeepsInv(s, ptr - HEADER);
        if ptr - HEADER !in s.free { FreeEndsOneAllocation(s, ptr - HEADER); }
      } else if -HEADER in s.blocks { InPage(s, -HEADER); }
  }

  lemma AllocGrows(s: State, n: int, supply: seq<int>)
    requires Inv(s) && Supply(s, supply) && 0 <= n <= LAST_SAFE_REQUEST
    ensures var r := Alloc(s, n, supply); Inv(r.state) && Grown(Live(s), Live(r.state), r.ptr, n)
  {
    AllocMeetsContract(s, n, supply);
    var r := Alloc(s, n, supply);
    if r.ptr != 0 {
      assert r.ptr - HEADER in Live(r.state);
    }
  }

  /** The bytes a caller asked for are its own as long as it holds the pointer: at any point of
      any run those of different pointers, and the headers before them, are apart, and they lie
      in one page of the heap. */
  lemma HeldBytesAreApart(states: seq<State>, calls: seq<Call>, k: nat, p: int, q: int)
    requires IsRun(states, calls) && k <= |calls|
    requires p in Ledger(states, calls, k) && q in Ledger(states, calls, k) && p != q
    ensures var held := Ledger(states, calls, k);
      && (p + held[p] <= q - HEADER || q + held[q] <= p - HEADER)
      && PageOf(p - HEADER) in states[k].pages && p + held[p] <= PageOf(p - HEADER) + PAGE
  {
    RunsAreSafe(states, calls, k);
    HeldApart(states[k], Ledger(states, calls, k), p, q);
  }

  lemma HeldApart(s: State, held: map<int, int>, p: int, q: int)
    requires Inv(s) && Holds(held, Live(s)) && p in held && q in held && p != q
    ensures p + held[p] <= q - HEADER || q + held[q] <= p - HEADER
    ensures PageOf(p - HEADER) in s.pages && p + held[p] <= PageOf(p - HEADER) + PAGE
  {
    assert HeldAt(held, Live(s), p) && HeldAt(held, Live(s), q);
    LiveAllocationsAreApart(s, p - HEADER, q - HEADER);
  }

  /** Live blocks lie in a page each, and no two share a byte, headers included. */
  lemma LiveAllocationsAreApart(s: State, a: int, b: int)
    requires Inv(s) && a in Live(s) && b in Live(s) && a != b
    ensures PageOf(a) in s.pages && a + HEADER + Live(s)[a] <= PageOf(a) + PAGE
    ensures a + HEADER + Live(s)[a] <= b || b + HEADER + Live(s)[b] <= a
  {
    assert BlockOk(s, a);
    if a < b { assert Before(s, a, b); } else { assert Before(s, b, a); }
  }

  // ------------------------------------------------- the stranded list head

  /** The page at p cut into two smallest blocks and the rest of the page. */
  function ThreeBlocks(p: int, free: seq<int>): State {
    State({p}, map[p := 16, p + 24 := 16, p + 48 := 4040], free)
  }

  /** Two smallest allocations on an empty heap ... */
  lemma TwoSmallAllocations(p: int, q: int, r: int)
    requires PageOk(p) && PageOk(q) && PageOk(r) && p != q && p != r && q != r
    ensures var s1 := Alloc(EMPTY, 16, [p, q]).state;
      && s1 == State({p}, map[p := 16, p + 24 := 4064], [p + 24])
      && Alloc(s1, 1, [q, r]).state == ThreeBlocks(p, [p + 48])
  {
    SmallOnEmpty(p, q);
  }

  lemma SmallOnEmpty(p: int, q: int)
    requires PageOk(p) && PageOk(q) && p != q
    ensures Alloc(EMPTY, 16, [p, q]).state == State({p}, map[p := 16, p + 24 := 4064], [p + 24])
  {
    assert AddPage(EMPTY, p) == State({p}, map[p := WHOLE], [p]);
  }

  /** ... freed in the order they were made strand the list head: the page goes back to the
      page allocator while the list still starts inside it. */
  lemma FreeingInOrderStrandsTheHead(p: int)
    requires PageOk(p)
    ensures Free(ThreeBlocks(p, [p + 48]), p) == ThreeBlocks(p, [p, p + 48])
    ensures Free(ThreeBlocks(p, [p, p + 48]), p + 24) == State({}, map[], [p])
    ensures Dangles(ThreeBlocks(p, [p, p + 48]), p + 24)
    ensures !Inv(State({}, map[], [p]))
  {
    FirstFreed(p);
    SecondFreed(p);
    assert p !in State({}, map[], [p]).blocks;
  }

  lemma FirstFreed(p: int)
    requires PageOk(p)
    ensures Free(ThreeBlocks(p, [p + 48]), p) == ThreeBlocks(p, [p, p + 48])
  {
    var s := ThreeBlocks(p, [p + 48]);
    assert Insert(s, p) == ThreeBlocks(p, [p, p + 48]);
  }

  lemma SecondFreed(p: int)
    requires PageOk(p)
    ensures Free(ThreeBlocks(p, [p, p + 48]), p + 24) == State({}, map[], [p])
  {
    var s := ThreeBlocks(p, [p, p + 48]);
    assert Rank(s.free, p + 24) == 1 by { RankIs(s.free, p + 24, 1); }
    var t := Insert(s, p + 24);
    assert t == ThreeBlocks(p, [p, p + 24, p + 48]);
    var u := Merge(t, 1);
    assert u == State({p}, map[p := 16, p + 24 := 4064], [p, p + 24]);
    LastMerge(p);
  }

  lemma LastMerge(p: int)
    requires PageOk(p)
    ensures var u := State({p}, map[p := 16, p + 24 := 4064], [p, p + 24]);
      Listed(u) && Ascending(u.free) && MergeBack(u, 1) == State({}, map[], [p])
  {
    var u := State({p}, map[p := 16, p + 24 := 4064], [p, p + 24]);
    assert Merge(u, 0) == State({p}, map[p := WHOLE], [p]);
  }
}
