// The kernel heap seen as a value: which pages it holds, how they are cut into
// blocks, and the address-ordered free list.
module HeapModel {
  import opened Sequences

  const PAGE := 4096
  const HEADER := 8            // sizeof(struct kobject_header)
  const MIN_ALLOCATION_SIZE := 16
  const WHOLE := 4088          // payload of a block that spans a page
  const WORD := 0x1_0000_0000

  /** pages: page addresses held; blocks: header address to payload size;
      free: addresses on the free list, in list order. */
  datatype State = State(pages: set<int>, blocks: map<int, int>, free: seq<int>)

  const EMPTY := State({}, map[], [])

  /** vmm_get_page */
  function PageNumber(a: int): int { a / PAGE }

  function PageOf(a: int): int { PageNumber(a) * PAGE }

  function End(s: State, a: int): int
    requires a in s.blocks
  {
    a + HEADER + s.blocks[a]
  }

  ghost function Used(s: State): set<int> { s.blocks.Keys - set a | a in s.free }

  // ---------------------------------------------------------------- invariant

  ghost predicate PageOk(p: int) { PageOf(p) == p && 0 < p && p + PAGE <= WORD }

  ghost predicate BlockOk(s: State, a: int)
    requires a in s.blocks
  {
    && a % 2 == 0 && s.blocks[a] % 2 == 0 && MIN_ALLOCATION_SIZE <= s.blocks[a]
    && PageOf(a) in s.pages
    && End(s, a) <= PageOf(a) + PAGE
    && (End(s, a) == PageOf(a) + PAGE || End(s, a) in s.blocks)
  }

  ghost predicate Before(s: State, a: int, b: int)
    requires a in s.blocks
  {
    End(s, a) <= b
  }

  /** Every page is cut into blocks without gap or overlap. */
  ghost predicate Tiled(s: State) {
    && (forall p {:trigger PageOk(p)} | p in s.pages :: PageOk(p) && p in s.blocks)
    && (forall a {:trigger BlockOk(s, a)} | a in s.blocks :: BlockOk(s, a))
    && (forall a, b {:trigger Before(s, a, b)} | a in s.blocks && b in s.blocks && a < b :: Before(s, a, b))
  }

  ghost predicate Ascending(l: seq<int>) { forall i, j | 0 <= i < j < |l| :: l[i] < l[j] }

  ghost predicate Listed(s: State) { forall i | 0 <= i < |s.free| :: s.free[i] in s.blocks }

  /** Tiled pages and an address-ordered list of blocks. */
  ghost predicate Core(s: State) {
    && Tiled(s)
    && Ascending(s.free)
    && Listed(s)
  }

  predicate SamePage(a: int, b: int) { PageNumber(a) == PageNumber(b) }

  predicate Touch(s: State, i: nat)
    requires i < |s.free| && s.free[i] in s.blocks
  {
    i + 1 < |s.free| && End(s, s.free[i]) == s.free[i + 1] && SamePage(s.free[i], s.free[i + 1])
  }

  ghost predicate Inv(s: State) {
    Core(s) && forall i: nat {:trigger Touch(s, i)} | i < |s.free| :: !Touch(s, i)
  }

  // --------------------------------------------------------------- operations

  /** How many list elements lie below a: where the ordered list takes a in. */
  function Rank(l: seq<int>, a: int): (k: nat)
    ensures k <= |l|
  {
    if l == [] || l[0] >= a then 0 else 1 + Rank(l[1..], a)
  }

  function AddPage(s: State, p: int): State {
    State(s.pages + {p}, s.blocks[p := WHOLE], InsertAt(s.free, Rank(s.free, p), p))
  }

  /** Least index from i on whose block holds need bytes; |free| when there is none. */
  function FirstFit(s: State, need: int, i: nat): (k: nat)
    requires i <= |s.free|
    requires Listed(s)
    ensures i <= k <= |s.free|
    decreases |s.free| - i
  {
    if i == |s.free| || s.blocks[s.free[i]] >= need then i else FirstFit(s, need, i + 1)
  }

  /** Take m bytes from the i-th free block: all of it when the rest is too small. */
  function Carve(s: State, i: nat, m: int): (State, int)
    requires i < |s.free| && s.free[i] in s.blocks
  {
    var a := s.free[i];
    var size := s.blocks[a];
    if size < (m + HEADER + MIN_ALLOCATION_SIZE) % WORD then
      (s.(free := RemoveAt(s.free, i)), a + HEADER)
    else
      var rest := (a + m + HEADER) % WORD;
      (s.(blocks := s.blocks[rest := (size - m - HEADER) % WORD][a := m], free := s.free[i := rest]), a + HEADER)
  }

  /** The request the code works with, in 32-bit arithmetic. */
  function Request(n: int): int {
    var m := if n < MIN_ALLOCATION_SIZE then MIN_ALLOCATION_SIZE else n;
    if m % 2 != 0 then (m + 1) % WORD else m
  }

  predicate Rejected(n: int) { (Request(n) + HEADER) % WORD > PAGE }

  function Need(n: int): int { (Request(n) + HEADER) % WORD }

  /** State after, pointer returned (0 for none) and how many supplied pages were taken. */
  datatype Allocation = Allocation(state: State, ptr: int, taken: nat)

  /** kalloc(n); supply holds the addresses the next calls of vmm_alloc_page return. */
  function Alloc(s: State, n: int, supply: seq<int>): Allocation
    requires Listed(s) && |supply| >= 2
  {
    if Rejected(n) then Allocation(s, 0, 0)
    else
      var t := if s.free == [] then 1 else 0;
      var s1 := if s.free == [] then AddPage(s, supply[0]) else s;
      var i := FirstFit(s1, Need(n), 0);
      if i < |s1.free| then
        var r := Carve(s1, i, Request(n));
        Allocation(r.0, r.1, t)
      else
        var r := Carve(AddPage(s1, supply[t]), Rank(s1.free, supply[t]), Request(n));
        Allocation(r.0, r.1, t + 1)
  }

  /** k_try_collide on the i-th list element and its successor. */
  function Merge(s: State, i: nat): (r: State)
    requires i < |s.free| && Listed(s) && Ascending(s.free)
    ensures Listed(r) && Ascending(r.free) && r.pages == s.pages
    ensures i < |r.free| && r.free[i] == s.free[i] && r.free[..i] == s.free[..i]
  {
    if Touch(s, i) then
      var h1, h2 := s.free[i], s.free[i + 1];
      s.(blocks := (s.blocks - {h2})[h1 := s.blocks[h1] + s.blocks[h2] + HEADER], free := RemoveAt(s.free, i + 1))
    else s
  }

  function ReleasePage(s: State, p: int): State {
    s.(pages := s.pages - {p}, blocks := s.blocks - {p})
  }

  /** hdr->next, f_list or prev->next now lead to the freed block. */
  function Insert(s: State, a: int): (r: State)
    requires Listed(s) && Ascending(s.free) && a in s.blocks && a !in s.free
    ensures Listed(r) && Ascending(r.free) && |r.free| == |s.free| + 1 && r.free[Rank(s.free, a)] == a
  {
    RankSplits(s.free, a);
    s.(free := InsertAt(s.free, Rank(s.free, a), a))
  }

  /** The tail of kfree: the predecessor absorbs the freed block if they touch, and goes
      back to the page allocator if it spans its page. Only a `next` field that leads to
      it is repaired, so the head of the list stays on the list. */
  function MergeBack(s: State, i: nat): State
    requires 0 < i < |s.free| && Listed(s) && Ascending(s.free)
  {
    var prev := s.free[i - 1];
    var s3 := Merge(s, i - 1);
    if s3.blocks[prev] == WHOLE then
      ReleasePage(if i - 1 > 0 then s3.(free := RemoveAt(s3.free, i - 1)) else s3, prev)
    else s3
  }

  /** The first half of kfree: the block on the list, merged with its successor. */
  function Listing(s: State, a: int): State
    requires Listed(s) && Ascending(s.free) && a in s.blocks && a !in s.free
  {
    Merge(Insert(s, a), Rank(s.free, a))
  }

  /** The second half: the i-th free block goes back with its page if it spans it, or joins its
      predecessor. */
  function Settle(s: State, i: nat): State
    requires i < |s.free| && Listed(s) && Ascending(s.free)
  {
    var a := s.free[i];
    if s.blocks[a] == WHOLE then ReleasePage(s.(free := RemoveAt(s.free, i)), a)
    else if i > 0 then MergeBack(s, i)
    else s
  }

  /** kfree of the block at a. */
  function Free(s: State, a: int): State
    requires Listed(s) && Ascending(s.free) && a in s.blocks
  {
    if a in s.free then s
    else
      Settle(Listing(s, a), Rank(s.free, a))
  }

  /** The page the tail of kfree gives back, 0 for none. */
  function ReleasedBack(s: State, i: nat): int
    requires 0 < i < |s.free| && Listed(s) && Ascending(s.free)
  {
    var prev := s.free[i - 1];
    if Merge(s, i - 1).blocks[prev] == WHOLE then prev else 0
  }

  function SettledPage(s: State, i: nat): int
    requires i < |s.free| && Listed(s) && Ascending(s.free)
  {
    var a := s.free[i];
    if s.blocks[a] == WHOLE then a else if i > 0 then ReleasedBack(s, i) else 0
  }

  /** The page kfree gives back, 0 for none. */
  function Released(s: State, a: int): int
    requires Listed(s) && Ascending(s.free) && a in s.blocks
  {
    if a in s.free then 0
    else
      SettledPage(Listing(s, a), Rank(s.free, a))
  }

  // ------------------------------------------------------------ ordered lists

  lemma {:induction false} RankSplits(l: seq<int>, a: int)
    requires Ascending(l)
    ensures forall j | 0 <= j < |l| :: l[j] < a <==> j < Rank(l, a)
  {
    if l != [] && l[0] < a {
      RankSplits(l[1..], a);
      forall j | 0 <= j < |l| ensures l[j] < a <==> j < Rank(l, a) {
        assert j > 0 ==> l[j] == l[1..][j - 1];
      }
    }
  }
}
