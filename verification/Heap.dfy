// kalloc.c: an intrusive free list walked and rewired through block headers.
module Heap {
  import opened Sequences
  import opened HeapModel
  import opened HeapInvariant
  import opened HeapTheorems

  const KOBJECT_HEADER_FREE := 0
  const KOBJECT_HEADER_USED := 1

  /** link is the union of `next` (a free block) and `props` (a used one). */
  datatype Header = Header(size: int, link: int)

  /** The i-th address of a list, 0 past its end. */
  function At(l: seq<int>, i: nat): int { if i < |l| then l[i] else 0 }

  /** The list element before index i, 0 for the first. */
  function Pred(l: seq<int>, i: nat): int
    requires i <= |l|
  {
    if i == 0 then 0 else l[i - 1]
  }

  ghost predicate LinkOk(m: map<int, Header>, l: seq<int>, i: nat)
    requires i < |l|
  {
    l[i] in m && m[l[i]].link == At(l, i + 1)
  }

  /** Following links from head visits l and ends in 0. */
  ghost predicate Chain(head: int, m: map<int, Header>, l: seq<int>) {
    head == At(l, 0) && forall i: nat {:trigger LinkOk(m, l, i)} | i < |l| :: LinkOk(m, l, i)
  }

  /** Headers hold the block sizes and mark the used blocks. */
  ghost predicate Marks(m: map<int, Header>, s: State) {
    && (forall a {:trigger s.blocks[a]} {:trigger a in m} | a in s.blocks :: a in m && m[a].size == s.blocks[a])
    && (forall a {:trigger a in s.free} | a in s.blocks && a !in s.free :: a in m && m[a].link == KOBJECT_HEADER_USED)
  }

  /** What the pointer code needs to know of a state. */
  ghost predicate Usable(s: State) { Listed(s) && ProperList(s.free) }

  // ------------------------------------------------------------------ chains

  lemma FreeIsProper(s: State)
    requires Core(s)
    ensures ProperList(s.free)
  {
    forall i | 0 <= i < |s.free| ensures 0 < s.free[i] < WORD { InPage(s, s.free[i]); assert BlockOk(s, s.free[i]); }
  }

  lemma InsertedAt(l: seq<int>, k: nat, a: int)
    requires k <= |l|
    ensures var t := InsertAt(l, k, a);
      && |t| == |l| + 1 && t[k] == a
      && (forall i | 0 <= i < k :: t[i] == l[i])
      && (forall i | k < i <= |l| :: t[i] == l[i - 1])
      && (forall b :: b in t <==> b in l || b == a)
  {
    assert l == l[..k] + l[k..];
  }

  lemma LinkAt(head: int, m: map<int, Header>, l: seq<int>, i: nat)
    requires Chain(head, m, l) && i < |l|
    ensures l[i] in m && m[l[i]].link == At(l, i + 1)
  {
    assert LinkOk(m, l, i);
  }

  lemma ChainOfOthers(head: int, m: map<int, Header>, l: seq<int>, a: int, x: Header)
    requires Chain(head, m, l) && a !in l
    ensures Chain(head, m[a := x], l)
  {
    var m' := m[a := x];
    forall i: nat | i < |l| ensures LinkOk(m', l, i) { LinkAt(head, m, l, i); }
  }

  /** The hook written as header updates: a's own link, then its predecessor's. */
  lemma ChainHook(head: int, m: map<int, Header>, l: seq<int>, k: nat, a: int)
    requires Chain(head, m, l) && ProperList(l) && k <= |l| && a in m && a !in l
    ensures k > 0 ==> l[k - 1] in m
    ensures var m1 := m[a := Header(m[a].size, At(l, k))]; if k == 0 then Chain(a, m1, InsertAt(l, k, a))
      else Chain(head, m1[l[k - 1] := Header(m[l[k - 1]].size, a)], InsertAt(l, k, a))
  {
    if k > 0 { LinkAt(head, m, l, k - 1); }
    var m1 := m[a := Header(m[a].size, At(l, k))];
    var m2 := if k == 0 then m1 else m1[l[k - 1] := Header(m[l[k - 1]].size, a)];
    var t := InsertAt(l, k, a);
    InsertedAt(l, k, a);
    forall i: nat | i < |t| ensures LinkOk(m2, t, i) {
      if i < k { LinkAt(head, m, l, i); assert t[i] == l[i] != a; }
      else if i > k { LinkAt(head, m, l, i - 1); assert t[i] == l[i - 1] != a; }
    }
  }

  /** The head or the predecessor's link skips index k, whose header becomes x. */
  lemma ChainUnhook(head: int, m: map<int, Header>, l: seq<int>, k: nat, x: Header)
    requires Chain(head, m, l) && ProperList(l) && k < |l|
    ensures l[k] in m && (k > 0 ==> l[k - 1] in m)
    ensures if k == 0 then Chain(m[l[0]].link, m[l[0] := x], RemoveAt(l, 0))
      else Chain(head, m[l[k - 1] := Header(m[l[k - 1]].size, m[l[k]].link)][l[k] := x], RemoveAt(l, k))
  {
    LinkAt(head, m, l, k);
    if k > 0 { LinkAt(head, m, l, k - 1); }
    var m1 := if k == 0 then m else m[l[k - 1] := Header(m[l[k - 1]].size, m[l[k]].link)];
    var m2 := m1[l[k] := x];
    var t := RemoveAt(l, k);
    forall i: nat | i < |t| ensures LinkOk(m2, t, i) {
      RemovedAt(l, k, i);
      if i + 1 < |t| { RemovedAt(l, k, i + 1); }
      LinkAt(head, m, l, if i < k then i else i + 1);
    }
    if |t| > 0 { RemovedAt(l, k, 0); }
  }

  /** A header y for a, linked like index k, stands in for index k, whose header becomes x. */
  lemma ChainSwap(head: int, m: map<int, Header>, l: seq<int>, k: nat, a: int, y: Header, x: Header)
    requires Chain(head, m, l) && ProperList(l) && k < |l| && a !in l && y.link == At(l, k + 1)
    ensures l[k] in m && (k > 0 ==> l[k - 1] in m)
    ensures if k == 0 then Chain(a, m[a := y][l[0] := x], l[0 := a])
      else Chain(head, m[a := y][l[k - 1] := Header(m[l[k - 1]].size, a)][l[k] := x], l[k := a])
  {
    LinkAt(head, m, l, k);
    if k > 0 { LinkAt(head, m, l, k - 1); }
    var m1 := if k == 0 then m[a := y] else m[a := y][l[k - 1] := Header(m[l[k - 1]].size, a)];
    var m2 := m1[l[k] := x];
    var t := l[k := a];
    assert a != l[k];
    forall i: nat | i < |t| ensures LinkOk(m2, t, i) {
      LinkAt(head, m, l, i);
      if i != k { assert t[i] == l[i] != a && l[i] != l[k]; }
    }
  }

  /** Headers off the list, except a's, stay as they were. */
  ghost predicate Spared(m: map<int, Header>, m': map<int, Header>, l: seq<int>, a: int) {
    forall b | b in m && b !in l && b != a :: b in m' && m'[b] == m[b]
  }

  /** Only links changed. */
  ghost predicate SameSizes(m: map<int, Header>, m': map<int, Header>) {
    forall b | b in m :: b in m' && m'[b].size == m[b].size
  }

  /** Every header written is one of keys. */
  ghost predicate WritesOnly(m: map<int, Header>, m': map<int, Header>, keys: set<int>) {
    forall k {:trigger k in m'} {:trigger k in m} | k !in keys :: (k in m <==> k in m') && (k in m ==> m'[k] == m[k])
  }

  /** A list without repetition of addresses above 0. */
  ghost predicate ProperList(l: seq<int>) { Ascending(l) && forall i | 0 <= i < |l| :: 0 < l[i] < WORD }

  /** Marks survive when sizes follow the new state and used headers, except a's, stay. */
  lemma MarksAfter(m: map<int, Header>, m': map<int, Header>, s: State, s': State, a: int)
    requires Marks(m, s) && Spared(m, m', s.free, a)
    requires forall b | b in s'.blocks && b !in s'.free && b != a :: b in s.blocks && b !in s.free
    requires forall b | b in s'.blocks :: b in m' && m'[b].size == s'.blocks[b]
    requires a in s'.blocks && a !in s'.free ==> m'[a].link == KOBJECT_HEADER_USED
    ensures Marks(m', s')
  {
    forall b | b in s'.blocks && b !in s'.free ensures m'[b].link == KOBJECT_HEADER_USED {
      if b != a { assert m'[b] == m[b]; }
    }
  }

  lemma MarksAfterAddPage(m: map<int, Header>, m': map<int, Header>, s: State, page: int)
    requires Marks(m, s) && Spared(m, m', s.free, page) && SameSizes(m[page := Header(WHOLE, 0)], m')
    requires page !in s.blocks
    ensures Marks(m', AddPage(s, page))
  {
    InsertedAt(s.free, Rank(s.free, page), page);
    MarksAfter(m, m', s, AddPage(s, page), page);
  }

  lemma MarksAfterWhole(m: map<int, Header>, m': map<int, Header>, s: State, i: nat)
    requires Marks(m, s) && Listed(s) && Ascending(s.free) && i < |s.free|
    requires Spared(m, m', s.free, s.free[i]) && (forall b | b in s.blocks :: b in m' && m'[b].size == s.blocks[b])
    requires m'[s.free[i]].link == KOBJECT_HEADER_USED
    ensures Marks(m', s.(free := RemoveAt(s.free, i)))
  {
    RemovedMembers(s.free, i);
    MarksAfter(m, m', s, s.(free := RemoveAt(s.free, i)), s.free[i]);
  }

  lemma MarksAfterPart(m: map<int, Header>, m': map<int, Header>, s: State, i: nat, n: int)
    requires Marks(m, s) && Listed(s) && Ascending(s.free) && i < |s.free|
    requires var a := s.free[i]; var rest := a + n + HEADER;
      && rest !in s.blocks && rest != a
      && Spared(m, m', s.free, rest)
      && a in m' && m'[a] == Header(n, KOBJECT_HEADER_USED)
      && rest in m' && m'[rest].size == s.blocks[a] - n - HEADER
      && (forall b | b in s.blocks && b != a :: b in m' && m'[b].size == s.blocks[b])
    ensures Marks(m', Part(s, i, n))
  {
    var a, t := s.free[i], Part(s, i, n);
    ReplacedMembers(s.free, i, a + n + HEADER);
    forall b | b in t.blocks && b !in t.free ensures m'[b].link == KOBJECT_HEADER_USED {
      if b != a { assert b in s.blocks && b !in s.free && m'[b] == m[b]; }
    }
  }

  /** The state after a split that leaves rest of the i-th free block on the list. */
  function Part(s: State, i: nat, n: int): State
    requires i < |s.free| && s.free[i] in s.blocks
  {
    var a := s.free[i];
    var rest := a + n + HEADER;
    State(s.pages, s.blocks[rest := s.blocks[a] - n - HEADER][a := n], s.free[i := rest])
  }

  lemma AddPageUsable(s: State, page: int)
    requires Usable(s) && page !in s.blocks && 0 < page < WORD
    ensures var k, t := Rank(s.free, page), AddPage(s, page);
      page !in s.free && Usable(t) && t.free[k] == page && Pred(t.free, k) == Pred(s.free, k)
  {
    assert page !in s.free;
    RankSplits(s.free, page);
    InsertedProper(s.free, Rank(s.free, page), page);
    InsertedAt(s.free, Rank(s.free, page), page);
  }

  lemma InsertedProper(l: seq<int>, k: nat, a: int)
    requires ProperList(l) && k <= |l| && 0 < a < WORD && a !in l && forall j | 0 <= j < |l| :: l[j] < a <==> j < k
    ensures ProperList(InsertAt(l, k, a))
  {}

  // ------------------------------------------------------------------- kfree

  lemma ChainSameLinks(head: int, m: map<int, Header>, m': map<int, Header>, l: seq<int>)
    requires Chain(head, m, l)
    requires forall i | 0 <= i < |l| :: l[i] in m ==> l[i] in m' && m'[l[i]].link == m[l[i]].link
    ensures Chain(head, m', l)
  {
    forall i: nat | i < |l| ensures LinkOk(m', l, i) { LinkAt(head, m, l, i); }
  }

  lemma InsertUsable(s: State, a: int)
    requires Usable(s) && a in s.blocks && a !in s.free && 0 < a < WORD
    ensures Usable(Insert(s, a)) && forall b :: b in Insert(s, a).free <==> b in s.free || b == a
  {
    InsertedAt(s.free, Rank(s.free, a), a);
  }

  lemma RemoveUsable(s: State, i: nat)
    requires Usable(s) && i < |s.free|
    ensures Usable(s.(free := RemoveAt(s.free, i)))
    ensures forall b :: b in RemoveAt(s.free, i) <==> b in s.free && b != s.free[i]
  {
    RemovedMembers(s.free, i);
  }

  lemma MarksAfterInsert(m: map<int, Header>, m': map<int, Header>, s: State, a: int)
    requires Marks(m, s) && Usable(s) && a in s.blocks && a !in s.free && 0 < a < WORD
    requires Spared(m, m', s.free, a) && SameSizes(m, m')
    ensures Marks(m', Insert(s, a))
  {
    InsertUsable(s, a);
    MarksAfter(m, m', s, Insert(s, a), a);
  }

  /** The header k_try_collide writes when the i-th free block absorbs its successor. */
  function MergedHeader(m: map<int, Header>, l: seq<int>, i: nat): Header
    requires i + 1 < |l| && l[i] in m && l[i + 1] in m
  {
    Header(m[l[i]].size + m[l[i + 1]].size + HEADER, m[l[i + 1]].link)
  }

  lemma MergeChained(head: int, m: map<int, Header>, l: seq<int>, i: nat)
    requires Chain(head, m, l) && ProperList(l) && i + 1 < |l|
    ensures l[i] in m && l[i + 1] in m
    ensures Chain(head, m[l[i] := MergedHeader(m, l, i)], RemoveAt(l, i + 1))
  {
    LinkAt(head, m, l, i);
    LinkAt(head, m, l, i + 1);
    var m' := m[l[i] := MergedHeader(m, l, i)];
    ChainUnhook(head, m, l, i + 1, m[l[i + 1]]);
    ghost var linked := m[l[i] := Header(m[l[i]].size, m[l[i + 1]].link)];
    ChainSameLinks(head, linked[l[i + 1] := m[l[i + 1]]], m', RemoveAt(l, i + 1));
  }

  lemma MergeMarked(m: map<int, Header>, s: State, i: nat)
    requires Marks(m, s) && Usable(s) && i < |s.free| && Touch(s, i) && s.free[i] in m && s.free[i + 1] in m
    ensures Usable(Merge(s, i))
    ensures Marks(m[s.free[i] := MergedHeader(m, s.free, i)], Merge(s, i))
  {
    var h1 := s.free[i];
    RemoveUsable(s, i + 1);
    assert h1 in s.free && h1 != s.free[i + 1];
    MarksAfter(m, m[h1 := MergedHeader(m, s.free, i)], s, Merge(s, i), h1);
  }

  /** Unhooking the i-th free block and dropping it with its page. */
  lemma ReleaseRepresented(m: map<int, Header>, m': map<int, Header>, s: State, i: nat)
    requires Marks(m, s) && Usable(s) && i < |s.free| && Spared(m, m', s.free, s.free[i]) && SameSizes(m, m')
    ensures Marks(m', ReleasePage(s.(free := RemoveAt(s.free, i)), s.free[i]))
  {
    RemoveUsable(s, i);
    MarksAfter(m, m', s, ReleasePage(s.(free := RemoveAt(s.free, i)), s.free[i]), s.free[i]);
  }

  /** The low bit of a header tells a used block from one on the list. */
  lemma MarkOf(s: State, m: map<int, Header>, head: int, a: int)
    requires Inv(s) && Chain(head, m, s.free) && Marks(m, s) && a in m
    requires a in s.blocks || m[a].link % 2 == KOBJECT_HEADER_FREE
    ensures m[a].link % 2 == KOBJECT_HEADER_USED <==> a in s.blocks && a !in s.free
  {
    if a in s.free {
      var i: nat :| i < |s.free| && s.free[i] == a;
      LinkAt(head, m, s.free, i);
      if i + 1 < |s.free| { assert BlockOk(s, s.free[i + 1]); }
    }
  }

  lemma DropHeadMarks(m: map<int, Header>, s: State)
    requires Marks(m, s) && |s.free| > 0
    ensures Marks(m, ReleasePage(s, s.free[0]))
  {
    MarksAfter(m, m, s, ReleasePage(s, s.free[0]), s.free[0]);
  }

  lemma WrappedSum(sum: int, h: int)
    requires 0 <= sum <= WORD && 0 < h < WORD
    ensures sum % WORD == h <==> sum == h
  {}

  /** What the pointer code needs to know of the block it puts on the list. */
  ghost predicate Freeable(s: State, a: int) {
    && Usable(s) && a in s.blocks && a !in s.free && 0 < a < WORD
    && 0 <= s.blocks[a] && End(s, a) <= WORD
    && var i := Rank(s.free, a);
      i > 0 ==>
        && s.free[i - 1] in Listing(s, a).blocks && 0 <= Listing(s, a).blocks[s.free[i - 1]]
        && End(Listing(s, a), s.free[i - 1]) <= WORD
  }

  lemma FreeBounds(s: State, a: int)
    requires Inv(s) && a in s.blocks && a !in s.free
    ensures Freeable(s, a)
  {
    FreeIsProper(s);
    InPage(s, a);
    assert BlockOk(s, a);
    MergedForward(s, a);
    RankSplits(s.free, a);
    var i := Rank(s.free, a);
    if i > 0 {
      InPage(Listing(s, a), s.free[i - 1]);
      assert BlockOk(Listing(s, a), s.free[i - 1]);
    }
  }

  ghost predicate CanCut(s: State, i: nat, m: int) {
    && Usable(s) && i < |s.free| && MIN_ALLOCATION_SIZE <= m <= s.blocks[s.free[i]]
    && s.blocks[s.free[i]] <= WHOLE && s.free[i] + s.blocks[s.free[i]] + HEADER <= WORD
    && (m + HEADER + MIN_ALLOCATION_SIZE <= s.blocks[s.free[i]] ==> s.free[i] + m + HEADER !in s.blocks)
  }

  lemma InvCanCut(s: State, i: nat, m: int)
    requires Inv(s) && i < |s.free| && m % 2 == 0 && MIN_ALLOCATION_SIZE <= m <= s.blocks[s.free[i]]
    ensures CanCut(s, i, m)
  {
    FreeIsProper(s);
    InPage(s, s.free[i]);
    if m + HEADER + MIN_ALLOCATION_SIZE <= s.blocks[s.free[i]] { SplitTiled(s, Part(s, i, m), s.free[i], m); }
  }

  lemma CarveShape(s: State, i: nat, m: int)
    requires CanCut(s, i, m)
    ensures Carve(s, i, m).1 == s.free[i] + HEADER
    ensures Carve(s, i, m).0 ==
      if s.blocks[s.free[i]] < m + HEADER + MIN_ALLOCATION_SIZE then s.(free := RemoveAt(s.free, i)) else Part(s, i, m)
  {}

  /** The headers kalloc writes when it splits the i-th free block. */
  function PartHeaders(m: map<int, Header>, l: seq<int>, i: nat, n: int): map<int, Header>
    requires i < |l| && l[i] in m && (i > 0 ==> l[i - 1] in m)
  {
    var a := l[i];
    var rest := a + n + HEADER;
    var m1 := m[rest := Header(m[a].size - n - HEADER, m[a].link)];
    var m2 := if i == 0 then m1 else m1[l[i - 1] := Header(m[l[i - 1]].size, rest)];
    m2[a := Header(n, KOBJECT_HEADER_USED)]
  }

  lemma PartHeadersFacts(m: map<int, Header>, s: State, i: nat, n: int)
    requires Marks(m, s) && Usable(s) && i < |s.free| && s.free[i] in m && (i > 0 ==> s.free[i - 1] in m)
    requires MIN_ALLOCATION_SIZE <= n && s.free[i] + n + HEADER !in s.blocks
    ensures var a := s.free[i]; var rest := a + n + HEADER; var m' := PartHeaders(m, s.free, i, n);
      && Spared(m, m', s.free, rest)
      && a in m' && m'[a] == Header(n, KOBJECT_HEADER_USED)
      && rest in m' && m'[rest].size == s.blocks[a] - n - HEADER
      && (forall b | b in s.blocks && b != a :: b in m' && m'[b].size == s.blocks[b])
  {
    assert i > 0 ==> s.free[i - 1] in s.blocks && s.free[i - 1] != s.free[i];
  }

  lemma PartRepresented(head: int, m: map<int, Header>, s: State, i: nat, n: int)
    requires Chain(head, m, s.free) && Marks(m, s) && Usable(s) && i < |s.free| && MIN_ALLOCATION_SIZE <= n
    requires s.free[i] + n + HEADER !in s.blocks
    ensures s.free[i] in m && m[s.free[i]].link == At(s.free, i + 1) && (i > 0 ==> s.free[i - 1] in m)
    ensures Chain(if i == 0 then s.free[0] + n + HEADER else head, PartHeaders(m, s.free, i, n), Part(s, i, n).free)
    ensures Marks(PartHeaders(m, s.free, i, n), Part(s, i, n))
  {
    LinkAt(head, m, s.free, i);
    PartChained(head, m, s, i, n);
    PartMarked(m, s, i, n);
  }

  lemma PartChained(head: int, m: map<int, Header>, s: State, i: nat, n: int)
    requires Chain(head, m, s.free) && Usable(s) && i < |s.free| && MIN_ALLOCATION_SIZE <= n
    requires s.free[i] + n + HEADER !in s.blocks
    requires s.free[i] in m && m[s.free[i]].link == At(s.free, i + 1) && (i > 0 ==> s.free[i - 1] in m)
    ensures Chain(if i == 0 then s.free[0] + n + HEADER else head, PartHeaders(m, s.free, i, n), Part(s, i, n).free)
  {
    var rest := s.free[i] + n + HEADER;
    assert rest !in s.free;
    var tail := Header(m[s.free[i]].size - n - HEADER, m[s.free[i]].link);
    ChainSwap(head, m, s.free, i, rest, tail, Header(n, KOBJECT_HEADER_USED));
  }

  lemma PartMarked(m: map<int, Header>, s: State, i: nat, n: int)
    requires Marks(m, s) && Usable(s) && i < |s.free| && s.free[i] in m && (i > 0 ==> s.free[i - 1] in m)
    requires MIN_ALLOCATION_SIZE <= n && s.free[i] + n + HEADER !in s.blocks
    ensures Marks(PartHeaders(m, s.free, i, n), Part(s, i, n))
  {
    PartHeadersFacts(m, s, i, n);
    MarksAfterPart(m, PartHeaders(m, s.free, i, n), s, i, n);
  }

  /** Where the search of kalloc ends: at the first fit, or at a page added for the request. */
  ghost predicate Found(first: State, s: State, i: nat, need: int, page: int, added: int)
    requires Listed(first)
  {
    var k := FirstFit(first, need, 0);
    if k < |first.free| then s == first && i == k && added == 0
    else s == AddPage(first, page) && i == Rank(first.free, page) && added == 1
  }

  lemma FoundIsSource(s0: State, n: int, supply: seq<int>, first: State, u: State, i: nat, added: int)
    requires Listed(s0) && |supply| >= 2 && !Rejected(n) && Listed(first)
    requires first == if s0.free == [] then AddPage(s0, supply[0]) else s0
    requires Found(first, u, i, Need(n), if s0.free == [] then supply[1] else supply[0], added)
    ensures (u, i) == Source(s0, n, supply)
    ensures Alloc(s0, n, supply).taken == (if s0.free == [] then 1 else 0) + added
  {}

  lemma FirstFitIs(s: State, need: int, i: nat)
    requires Listed(s) && i <= |s.free| && (forall j | 0 <= j < i :: s.blocks[s.free[j]] < need)
    requires i < |s.free| ==> s.blocks[s.free[i]] >= need
    ensures FirstFit(s, need, 0) == i
  {
    FirstFitIsLeast(s, need, 0);
  }

  /** The pages supplied can be added, one after the other. */
  ghost predicate CanSearch(s: State, supply: seq<int>) {
    && |supply| >= 2 && supply[0] != supply[1]
    && supply[0] !in s.blocks && 0 < supply[0] < WORD && supply[1] !in s.blocks && 0 < supply[1] < WORD
  }

  lemma SourceCanCut(s: State, n: int, supply: seq<int>)
    requires Inv(s) && Supply(s, supply) && 0 <= n <= LAST_SAFE_REQUEST && !Rejected(n)
    ensures CanSearch(s, supply) && Usable(s)
    ensures var (u, i) := Source(s, n, supply); CanCut(u, i, Request(n))
  {
    SupplyCanBeAdded(s, supply);
    SourceIsSound(s, n, supply);
    RequestFits(n);
    var (u, i) := Source(s, n, supply);
    InvCanCut(u, i, Request(n));
  }

  lemma RequestFits(n: int)
    requires 0 <= n <= LAST_SAFE_REQUEST && !Rejected(n)
    ensures Request(n) % 2 == 0 && MIN_ALLOCATION_SIZE <= Request(n) <= WHOLE
  {}

  lemma SupplyCanBeAdded(s: State, supply: seq<int>)
    requires Inv(s) && Supply(s, supply)
    ensures CanSearch(s, supply) && Usable(s)
  {
    FreeIsProper(s);
    AddPageInv(s, supply[0]);
    AddPageInv(s, supply[1]);
  }

  /** What kalloc's steps add up to. */
  lemma KallocServes(s: State, n: int, supply: seq<int>)
    requires Inv(s) && Supply(s, supply) && 0 <= n <= LAST_SAFE_REQUEST
    ensures Inv(Alloc(s, n, supply).state) && Served(s, n, Alloc(s, n, supply))
    ensures Rejected(n) ==> Alloc(s, n, supply) == Allocation(s, 0, 0)
    ensures !Rejected(n) ==> var (u, i) := Source(s, n, supply);
      i < |u.free| && Listed(u) && Carve(u, i, Request(n)) == (Alloc(s, n, supply).state, Alloc(s, n, supply).ptr)
  {
    AllocMeetsContract(s, n, supply);
    if !Rejected(n) { SourceIsSound(s, n, supply); }
  }

  class Allocator {
    var fList: int
    var hdr: map<int, Header>   // headers ever written, by address
    ghost var s: State

    /** The headers in memory spell out the abstract state. */
    ghost predicate Represents()
      reads this
    {
      Chain(fList, hdr, s.free) && Marks(hdr, s)
    }

    ghost predicate Valid()
      reads this
    {
      Inv(s) && Represents()
    }

    constructor ()
      ensures Valid() && s == EMPTY
    {
      fList := 0;
      hdr := map[];
      s := EMPTY;
    }

    /** vmm_alloc_page and kobject_free_init, then the walk to the page's place. */
    method AddFreePage(page: int) returns (prev: int)
      requires Represents() && Usable(s) && page !in s.blocks && 0 < page < WORD
      modifies this
      ensures Represents() && Usable(s) && s == AddPage(old(s), page)
      ensures var k := Rank(old(s).free, page); s.free[k] == page && prev == Pred(s.free, k)
      ensures WritesOnly(old(hdr), hdr, s.blocks.Keys)
    {
      AddPageUsable(s, page);
      ghost var before := hdr;
      KobjectFreeInit(page, PAGE);
      ChainOfOthers(fList, before, s.free, page, hdr[page]);
      var tmp;
      prev, tmp := FindPlace(page);
      HookPage(page, prev, tmp, Rank(s.free, page));
      MarksAfterAddPage(before, hdr, s, page);
      s := AddPage(s, page);
    }

    method KobjectFreeInit(node: int, kSize: int)
      modifies this`hdr
      ensures hdr == old(hdr)[node := Header(kSize - HEADER, 0)]
    {
      hdr := hdr[node := Header(kSize - HEADER, 0)];
    }

    /** The walk to the first list element at or above an address. */
    method FindPlace(a: int) returns (prev: int, tmp: int)
      requires Chain(fList, hdr, s.free) && ProperList(s.free)
      ensures var k := Rank(s.free, a); prev == Pred(s.free, k) && tmp == At(s.free, k)
    {
      RankSplits(s.free, a);
      tmp := fList;
      prev := 0;
      ghost var k := 0;
      while tmp != 0 && tmp < a
        invariant k <= Rank(s.free, a) && tmp == At(s.free, k) && prev == Pred(s.free, k)
        decreases |s.free| - k
      {
        LinkAt(fList, hdr, s.free, k);
        prev := tmp;
        tmp := hdr[tmp].link;
        k := k + 1;
      }
    }

    /** The three ways a new page is hooked into the list. */
    method HookPage(page: int, prev: int, tmp: int, ghost k: nat)
      requires Chain(fList, hdr, s.free) && ProperList(s.free) && k <= |s.free|
      requires page !in s.free && page in hdr && hdr[page].link == 0
      requires prev == Pred(s.free, k) && tmp == At(s.free, k)
      modifies this`fList, this`hdr
      ensures Chain(fList, hdr, InsertAt(s.free, k, page))
      ensures Spared(old(hdr), hdr, s.free, page) && SameSizes(old(hdr), hdr) && hdr.Keys == old(hdr).Keys
    {
      ChainHook(fList, hdr, s.free, k, page);
      if k > 0 { LinkAt(fList, hdr, s.free, k - 1); }
      if tmp == 0 && prev != 0 {
        assert hdr == hdr[page := Header(hdr[page].size, At(s.free, k))];
        hdr := hdr[prev := Header(hdr[prev].size, page)];
      } else if prev == 0 {
        hdr := hdr[page := Header(hdr[page].size, fList)];
        fList := page;
      } else {
        hdr := hdr[page := Header(hdr[page].size, hdr[prev].link)];
        hdr := hdr[prev := Header(hdr[prev].size, page)];
      }
    }

    /** kalloc. supply holds the addresses the next calls of vmm_alloc_page return. */
    method Kalloc(n: int, supply: seq<int>) returns (p: int, taken: nat)
      requires Valid() && Supply(s, supply) && 0 <= n <= LAST_SAFE_REQUEST
      modifies this
      ensures Valid()
      ensures Allocation(s, p, taken) == Alloc(old(s), n, supply)
      ensures Served(old(s), n, Allocation(s, p, taken))
      ensures WritesOnly(old(hdr), hdr, s.blocks.Keys)
    {
      KallocServes(s, n, supply);
      var m := Normalise(n);
      if Exceeds(m) { return 0, 0; }
      SourceCanCut(s, n, supply);
      p, taken := Serve(m, supply, n);
    }

    /** At least 16 bytes, and an even number of them. */
    static method Normalise(n: int) returns (m: int)
      requires 0 <= n < WORD
      ensures m == Request(n) && (n <= LAST_SAFE_REQUEST ==> IsSize(m, n))
    {
      if n <= LAST_SAFE_REQUEST { RequestIsSize(n, Request(n)); }
      m := n;
      if m < MIN_ALLOCATION_SIZE { m := MIN_ALLOCATION_SIZE; }
      if m % 2 != 0 { m := (m + 1) % WORD; }
    }

    /** The size test, in 32 bits. */
    static predicate Exceeds(m: int) { (m + HEADER) % WORD > PAGE }

    /** kalloc once the request is known to fit a page. */
    method Serve(m: int, supply: seq<int>, ghost n: int) returns (p: int, taken: nat)
      requires Represents() && Usable(s) && CanSearch(s, supply) && m + HEADER == Need(n) && !Rejected(n)
      requires var (u, i) := Source(s, n, supply); CanCut(u, i, m)
      modifies this
      ensures Represents() && WritesOnly(old(hdr), hdr, s.blocks.Keys)
      ensures var (u, i) := Source(old(s), n, supply); (s, p) == Carve(u, i, m)
      ensures taken == Alloc(old(s), n, supply).taken
    {
      var current, prev;
      ghost var i;
      current, prev, i, taken := Search(m, supply, n);
      p := TakeFrom(current, prev, m, i);
    }

    /** kalloc up to the block it takes, once the request is known to fit a page. */
    method Search(m: int, supply: seq<int>, ghost n: int) returns (current: int, prev: int, ghost i: nat, taken: nat)
      requires Represents() && Usable(s) && CanSearch(s, supply) && m + HEADER == Need(n) && !Rejected(n)
      modifies this
      ensures Represents() && WritesOnly(old(hdr), hdr, s.blocks.Keys)
      ensures (s, i) == Source(old(s), n, supply) && taken == Alloc(old(s), n, supply).taken
      ensures i < |s.free| && current == s.free[i] && prev == Pred(s.free, i)
    {
      taken := 0;
      if fList == 0 {
        var _ := AddFreePage(supply[0]);
        taken := 1;
      }
      ghost var first := s;
      var added;
      current, prev, i, added := FindBlock(m, supply[taken]);
      FoundIsSource(old(s), n, supply, first, s, i, added);
      taken := taken + added;
    }

    /** The search loop of kalloc. */
    method FindBlock(m: int, page: int) returns (current: int, prev: int, ghost i: nat, added: nat)
      requires Represents() && Usable(s) && s.free != [] && page !in s.blocks && 0 < page < WORD
      modifies this
      ensures Represents() && Found(old(s), s, i, m + HEADER, page, added)
      ensures WritesOnly(old(hdr), hdr, s.blocks.Keys)
      ensures i < |s.free| && current == s.free[i] && prev == Pred(s.free, i)
    {
      var found := false;
      current, prev, added := fList, 0, 0;
      i := 0;
      while !found
        invariant Represents() && Usable(s) && i < |s.free| && current == s.free[i] && prev == Pred(s.free, i)
        invariant WritesOnly(old(hdr), hdr, s.blocks.Keys)
        invariant !found ==>
          && s == old(s) && hdr == old(hdr) && added == 0
          && forall j | 0 <= j < i :: s.blocks[s.free[j]] < m + HEADER
        invariant found ==> Found(old(s), s, i, m + HEADER, page, added)
        decreases !found, |s.free| - i
      {
        LinkAt(fList, hdr, s.free, i);
        if hdr[current].size >= m + HEADER {
          FirstFitIs(s, m + HEADER, i);
          found := true;
        } else if hdr[current].link != 0 {
          prev := current;
          current := hdr[current].link;
          i := i + 1;
        } else {
          FirstFitIs(s, m + HEADER, i + 1);
          i := Rank(s.free, page);
          current := page;
          prev := AddFreePage(current);
          added := 1;
          found := true;
        }
      }
    }

    /** The end of kalloc: unlink the block, or leave its tail on the list. */
    method TakeFrom(current: int, prev: int, m: int, ghost i: nat) returns (p: int)
      requires Represents() && CanCut(s, i, m) && current == s.free[i] && prev == Pred(s.free, i)
      modifies this
      ensures Represents() && (s, p) == Carve(old(s), i, m)
      ensures WritesOnly(old(hdr), hdr, s.blocks.Keys)
    {
      CarveShape(s, i, m);
      if hdr[current].size < m + HEADER + MIN_ALLOCATION_SIZE {
        TakeWhole(current, prev, i);
      } else {
        TakePart(current, prev, m, i);
      }
      p := current + HEADER;
    }

    method TakeWhole(current: int, prev: int, ghost i: nat)
      requires Represents() && Usable(s) && i < |s.free| && current == s.free[i] && prev == Pred(s.free, i)
      modifies this
      ensures Represents() && s == old(s).(free := RemoveAt(old(s).free, i))
      ensures WritesOnly(old(hdr), hdr, s.blocks.Keys)
    {
      ghost var before := hdr;
      ChainUnhook(fList, hdr, s.free, i, Header(hdr[current].size, KOBJECT_HEADER_USED));
      if prev == 0 {
        fList := hdr[current].link;
      } else {
        hdr := hdr[prev := Header(hdr[prev].size, hdr[current].link)];
      }
      hdr := hdr[current := Header(hdr[current].size, KOBJECT_HEADER_USED)];
      MarksAfterWhole(before, hdr, s, i);
      s := s.(free := RemoveAt(s.free, i));
    }

    method TakePart(current: int, prev: int, n: int, ghost i: nat)
      requires Represents() && Usable(s) && i < |s.free| && current == s.free[i] && prev == Pred(s.free, i)
      requires MIN_ALLOCATION_SIZE <= n && current + n + HEADER !in s.blocks
      modifies this
      ensures Represents() && s == Part(old(s), i, n)
      ensures WritesOnly(old(hdr), hdr, s.blocks.Keys)
    {
      PartRepresented(fList, hdr, s, i, n);
      ghost var after := PartHeaders(hdr, s.free, i, n);
      var cpy := current + n + HEADER;
      assert cpy !in s.free;
      hdr := hdr[cpy := Header(hdr[current].size - n - HEADER, hdr[current].link)];
      if prev == 0 {
        fList := cpy;
      } else {
        hdr := hdr[prev := Header(hdr[prev].size, cpy)];
      }
      hdr := hdr[current := Header(n, KOBJECT_HEADER_USED)];
      assert hdr == after;
      s := Part(s, i, n);
    }

    /** k_try_collide on a list element and its successor, if it has one. */
    method TryCollide(h1: int, h2: int, ghost i: nat)
      requires Represents() && Usable(s) && i < |s.free| && h1 == s.free[i] && h2 == At(s.free, i + 1)
      requires 0 <= s.blocks[h1] && End(s, h1) <= WORD
      modifies this
      ensures Represents() && Usable(s) && s == Merge(old(s), i)
      ensures WritesOnly(old(hdr), hdr, old(s).blocks.Keys)
    {
      if h1 == 0 || h2 == 0 {
        return;
      }
      MergeChained(fList, hdr, s.free, i);
      WrappedSum(hdr[h1].size + h1 + HEADER, h2);
      if (hdr[h1].size + h1 + HEADER) % WORD == h2 && PageNumber(h1) == PageNumber(h2) {
        MergeMarked(hdr, s, i);
        ghost var after := hdr[h1 := MergedHeader(hdr, s.free, i)];
        hdr := hdr[h1 := Header(hdr[h1].size + hdr[h2].size + HEADER, hdr[h1].link)];
        hdr := hdr[h1 := Header(hdr[h1].size, hdr[h2].link)];
        assert hdr == after;
        s := Merge(s, i);
      }
    }

    /** kfree. released is the page handed to vmm_free_page, 0 for none. A pointer that was
        freed before is recognised by the low bit of its header, on the list or absorbed. */
    method Kfree(ptr: int) returns (released: int)
      requires Valid()
      requires ptr != 0 ==> ptr - HEADER in s.blocks ||
                            (ptr - HEADER in hdr && hdr[ptr - HEADER].link % 2 == KOBJECT_HEADER_FREE)
      modifies this
      ensures Represents() && WritesOnly(old(hdr), hdr, old(s).blocks.Keys)
      ensures var a := ptr - HEADER;
        if ptr == 0 || a !in old(s).blocks || a in old(s).free
        then s == old(s) && hdr == old(hdr) && fList == old(fList) && released == 0
        else s == Free(old(s), a) && released == Released(old(s), a) && (Valid() <==> !Dangles(old(s), a))
      ensures s.pages == if released == 0 then old(s).pages else old(s).pages - {released}
      ensures released != 0 ==> released in OnlyFreePages(old(s), ptr - HEADER)
    {
      if ptr == 0 { return 0; }
      var a := ptr - HEADER;
      MarkOf(s, hdr, fList, a);
      if hdr[a].link % 2 != KOBJECT_HEADER_USED {
        return 0;
      }
      FreeKeepsInv(s, a);
      FreeBounds(s, a);
      FreeReleasesOnlyFreePages(s, a);
      released := Release(a);
    }

    /** kfree once the header is known to be a used one. */
    method Release(a: int) returns (released: int)
      requires Represents() && Freeable(s, a)
      modifies this
      ensures Represents() && s == Free(old(s), a) && released == Released(old(s), a)
      ensures WritesOnly(old(hdr), hdr, old(s).blocks.Keys)
    {
      ghost var i := Rank(s.free, a);
      var prev := ListBlock(a);
      released := Settle(a, prev, i);
    }

    /** The second half of kfree. */
    method Settle(a: int, prev: int, ghost i: nat) returns (released: int)
      requires Represents() && Usable(s) && i < |s.free| && a == s.free[i] && prev == Pred(s.free, i)
      requires i > 0 ==> 0 <= s.blocks[s.free[i - 1]] && End(s, s.free[i - 1]) <= WORD
      modifies this
      ensures Represents() && s == HeapModel.Settle(old(s), i) && released == SettledPage(old(s), i)
      ensures WritesOnly(old(hdr), hdr, old(s).blocks.Keys)
    {
      LinkAt(fList, hdr, s.free, i);
      if hdr[a].size == PAGE - HEADER {
        UnhookPage(a, prev, i);
        released := a;
      } else if prev != 0 {
        released := CollideBack(prev, a, i);
      } else {
        released := 0;
      }
    }

    /** The first half of kfree: on the list, merged with the successor. */
    method ListBlock(a: int) returns (prev: int)
      requires Represents() && Freeable(s, a)
      modifies this
      ensures Represents() && Usable(s) && s == Listing(old(s), a)
      ensures var i := Rank(old(s).free, a);
        && i < |s.free| && s.free[i] == a && prev == Pred(s.free, i)
        && (i > 0 ==> 0 <= s.blocks[s.free[i - 1]] && End(s, s.free[i - 1]) <= WORD)
      ensures WritesOnly(old(hdr), hdr, old(s).blocks.Keys)
    {
      ghost var i := Rank(s.free, a);
      prev := PutOnList(a);
      TryCollide(a, hdr[a].link, i);
    }

    method UnhookPage(page: int, prev: int, ghost i: nat)
      requires Represents() && Usable(s) && i < |s.free| && page == s.free[i] && prev == Pred(s.free, i)
      modifies this
      ensures Represents() && s == ReleasePage(old(s).(free := RemoveAt(old(s).free, i)), page)
      ensures WritesOnly(old(hdr), hdr, old(s).blocks.Keys)
    {
      ghost var before := hdr;
      ChainUnhook(fList, hdr, s.free, i, hdr[page]);
      if prev == 0 {
        fList := hdr[page].link;
      } else {
        hdr := hdr[prev := Header(hdr[prev].size, hdr[page].link)];
      }
      assert hdr == hdr[page := hdr[page]];
      ReleaseRepresented(before, hdr, s, i);
      s := ReleasePage(s.(free := RemoveAt(s.free, i)), page);
    }

    /** The end of kfree: merge with the predecessor, and give its page back if it is whole. */
    method CollideBack(prev: int, a: int, ghost i: nat) returns (released: int)
      requires Represents() && Usable(s) && 0 < i < |s.free| && prev == s.free[i - 1] && a == s.free[i]
      requires 0 <= s.blocks[prev] && End(s, prev) <= WORD
      modifies this
      ensures Represents() && s == MergeBack(old(s), i) && released == ReleasedBack(old(s), i)
      ensures WritesOnly(old(hdr), hdr, old(s).blocks.Keys)
    {
      TryCollide(prev, a, i - 1);
      LinkAt(fList, hdr, s.free, i - 1);
      released := 0;
      if hdr[prev].size == PAGE - HEADER {
        UnhookByScan(prev, i - 1);
        released := prev;
      }
    }

    /** Only the element whose `next` leads to the page is repaired; the head has none. */
    method UnhookByScan(page: int, ghost i: nat)
      requires Represents() && Usable(s) && i < |s.free| && page == s.free[i]
      modifies this
      ensures Represents()
      ensures s == ReleasePage(if i > 0 then old(s).(free := RemoveAt(old(s).free, i)) else old(s), page)
      ensures WritesOnly(old(hdr), hdr, old(s).blocks.Keys)
    {
      var temp := FindByNext(page, i);
      if temp != 0 {
        UnhookPage(page, temp, i);
      } else {
        DropHeadMarks(hdr, s);
        s := ReleasePage(s, page);
      }
    }

    method FindByNext(page: int, ghost i: nat) returns (temp: int)
      requires Represents() && Usable(s) && i < |s.free| && page == s.free[i]
      ensures temp == Pred(s.free, i)
    {
      temp := fList;
      ghost var j := 0;
      LinkAt(fList, hdr, s.free, 0);
      while temp != 0 && hdr[temp].link != page
        invariant j <= |s.free| && temp == At(s.free, j)
        invariant j < |s.free| ==> temp in hdr && hdr[temp].link == At(s.free, j + 1)
        invariant forall k | 0 < k <= j && k < |s.free| :: s.free[k] != page
        decreases |s.free| - j
      {
        temp := hdr[temp].link;
        j := j + 1;
        if j < |s.free| { LinkAt(fList, hdr, s.free, j); }
      }
    }

    /** The block is hooked in between prev and the first list element above it. */
    method PutOnList(a: int) returns (prev: int)
      requires Represents() && Usable(s) && a in s.blocks && a !in s.free && 0 < a < WORD
      modifies this
      ensures Represents() && Usable(s) && s == Insert(old(s), a)
      ensures WritesOnly(old(hdr), hdr, old(s).blocks.Keys)
      ensures prev == Pred(s.free, Rank(old(s).free, a))
      ensures a in hdr && hdr[a].link == At(s.free, Rank(old(s).free, a) + 1)
    {
      ghost var k, before := Rank(s.free, a), hdr;
      var current;
      prev, current := FindPlace(a);
      hdr := hdr[a := Header(hdr[a].size, KOBJECT_HEADER_FREE)];
      ChainOfOthers(fList, before, s.free, a, hdr[a]);
      ChainHook(fList, hdr, s.free, k, a);
      HookFree(a, prev, current, k);
      MarksAfterInsert(before, hdr, s, a);
      InsertUsable(s, a);
      s := Insert(s, a);
    }

    method HookFree(a: int, prev: int, current: int, ghost k: nat)
      requires Chain(fList, hdr, s.free) && ProperList(s.free) && k <= |s.free| && a !in s.free && a in hdr
      requires prev == Pred(s.free, k) && current == At(s.free, k)
      modifies this`fList, this`hdr
      ensures Chain(fList, hdr, InsertAt(s.free, k, a)) && a in hdr && hdr[a].link == current
      ensures Spared(old(hdr), hdr, s.free, a) && SameSizes(old(hdr), hdr) && hdr.Keys == old(hdr).Keys
    {
      ChainHook(fList, hdr, s.free, k, a);
      if prev == 0 {
        hdr := hdr[a := Header(hdr[a].size, fList)];
        fList := a;
      } else {
        ghost var after := hdr[a := Header(hdr[a].size, current)][prev := Header(hdr[prev].size, a)];
        hdr := hdr[prev := Header(hdr[prev].size, a)];
        hdr := hdr[a := Header(hdr[a].size, current)];
        assert hdr == after;
      }
    }
  }

  /** No header write of a call that turns s into s' reaches an allocation live before and
      after it; keys are the blocks of whichever of the two states has more of them. */
  lemma LiveMemoryIsLeftAlone(s: State, s': State, u: State, m: map<int, Header>, m': map<int, Header>, b: int)
    requires Marks(m, s) && Marks(m', s') && Inv(u) && (u == s || u == s') && WritesOnly(m, m', u.blocks.Keys)
    requires b in Live(s) && b in Live(s') && Live(s)[b] == Live(s')[b]
    ensures m[b] == m'[b]
    ensures forall k | k in m' && (k !in m || m'[k] != m[k]) :: k + HEADER <= b || b + HEADER + Live(s)[b] <= k
  {
    assert s.blocks[b] == s'.blocks[b];
    forall k | k in m' && (k !in m || m'[k] != m[k]) ensures k + HEADER <= b || b + HEADER + Live(s)[b] <= k {
      assert k in u.blocks && b in u.blocks && k != b;
      assert BlockOk(u, k);
      if k < b { assert Before(u, k, b); } else { assert Before(u, b, k); }
    }
  }
}
