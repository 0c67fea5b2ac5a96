// scheduler.c over the linked list of fifo.c.
module Scheduler {
  import opened Sequences
  import opened SchedModel

  class Pcb {
    const id: int
    const priority: int
    var stackPtr: int
    var flags: int
    var runtime: int

    constructor (id: int, priority: int, stack: int)
      ensures this.id == id && this.priority == priority && stackPtr == stack && flags == PROC_OK && runtime == 0
    {
      this.id, this.priority, stackPtr, flags, runtime := id, priority, stack, PROC_OK, 0;
    }

    function Value(): Proc
      reads this
    {
      Proc(id, priority, stackPtr, flags, runtime)
    }
  }

  class Node {
    const proc: Pcb
    var next: Node?

    constructor (p: Pcb)
      ensures proc == p && next == null
    {
      proc, next := p, null;
    }
  }

  ghost function NodeAt(l: seq<Node>, i: nat): Node? { if i < |l| then l[i] else null }

  ghost predicate LinkOk(l: seq<Node>, i: nat)
    requires i < |l|
    reads l
  {
    l[i].next == NodeAt(l, i + 1)
  }

  ghost predicate Separate(l: seq<Node>, i: nat, j: nat)
    requires i < |l| && j < |l|
  {
    l[i] != l[j] && l[i].proc != l[j].proc
  }

  ghost predicate AllSeparate(l: seq<Node>) {
    forall i: nat, j: nat {:trigger Separate(l, i, j)} | i < j < |l| :: Separate(l, i, j)
  }

  /** No node of l holds p. */
  ghost predicate Keeps(l: seq<Node>, p: Pcb) { forall i: nat | i < |l| :: l[i].proc != p }

  ghost predicate AllLinked(l: seq<Node>)
    reads l
  {
    forall i: nat {:trigger LinkOk(l, i)} | i < |l| :: LinkOk(l, i)
  }

  ghost predicate WasLink(l: seq<Node>, nx: seq<Node?>, i: nat)
    requires i < |nx|
  {
    nx[i] == NodeAt(l, i + 1)
  }

  /** nx holds the links of l as they were when l was a chain. */
  ghost predicate WereLinks(l: seq<Node>, nx: seq<Node?>) {
    |nx| == |l| && forall i: nat {:trigger WasLink(l, nx, i)} | i < |l| :: WasLink(l, nx, i)
  }

  ghost function Links(l: seq<Node>): (nx: seq<Node?>)
    requires AllLinked(l)
    reads l
    ensures WereLinks(l, nx) && forall i: nat {:trigger nx[i]} | i < |l| :: nx[i] == l[i].next
  {
    var nx := seq(|l|, i requires 0 <= i < |l| reads l => l[i].next);
    assert WereLinks(l, nx) by {
      forall i: nat | i < |l| ensures WasLink(l, nx, i) { assert LinkOk(l, i); }
    }
    nx
  }

  lemma WithoutSeparate(l: seq<Node>, k: nat)
    requires AllSeparate(l) && k < |l|
    ensures AllSeparate(RemoveAt(l, k)) && forall p :: Keeps(l, p) ==> Keeps(RemoveAt(l, k), p)
    ensures forall i: nat | i < |l| - 1 :: RemoveAt(l, k)[i] == l[if i < k then i else i + 1]
  {
    var t := RemoveAt(l, k);
    forall i: nat, j: nat | i < j < |t| ensures Separate(t, i, j) {
      assert Separate(l, if i < k then i else i + 1, if j < k then j else j + 1);
    }
  }

  lemma WithoutLinked(l: seq<Node>, nx: seq<Node?>, k: nat)
    requires AllSeparate(l) && WereLinks(l, nx) && k < |l|
    requires forall i: nat {:trigger nx[i]} | i < |l| && (k == 0 || l[i] != l[k - 1]) :: l[i].next == nx[i]
    requires k > 0 ==> l[k - 1].next == nx[k]
    ensures AllLinked(RemoveAt(l, k))
  {
    var t := RemoveAt(l, k);
    forall i: nat | i < |t| ensures LinkOk(t, i) {
      var j := if i < k then i else i + 1;
      assert WasLink(l, nx, j) && WasLink(l, nx, k);
      if k > 0 && j != k - 1 { assert if j < k - 1 then Separate(l, j, k - 1) else Separate(l, k - 1, j); }
    }
  }

  lemma BehindSeparate(l: seq<Node>, a: Node)
    requires AllSeparate(l) && |l| > 0 && a !in l && Keeps(l, a.proc)
    ensures AllSeparate(Behind(l, a)) && forall p :: Keeps(l, p) && p != a.proc ==> Keeps(Behind(l, a), p)
    ensures forall i: nat | i <= |l| :: Behind(l, a)[i] == if i == 0 then l[0] else if i == 1 then a else l[i - 1]
  {
    var t := Behind(l, a);
    forall i: nat, j: nat | i < j < |t| ensures Separate(t, i, j) {
      assert l[j - 1] in l && l[0] in l;
      if i != 1 && j != 1 { assert Separate(l, if i == 0 then 0 else i - 1, j - 1); }
    }
  }

  lemma BehindLinked(l: seq<Node>, nx: seq<Node?>, a: Node)
    requires AllSeparate(l) && WereLinks(l, nx) && |l| > 0
    requires forall i: nat {:trigger nx[i]} | i < |l| && l[i] != l[0] :: l[i].next == nx[i]
    requires l[0].next == a && a.next == nx[0]
    ensures AllLinked(Behind(l, a))
  {
    var t := Behind(l, a);
    forall i: nat | i < |t| ensures LinkOk(t, i) {
      assert WasLink(l, nx, 0);
      if i >= 2 { assert Separate(l, 0, i - 1) && WasLink(l, nx, i - 1); }
    }
  }

  ghost function Values(l: seq<Node>): (v: seq<Proc>)
    reads set n | n in l :: n.proc
    ensures |v| == |l| && forall i | 0 <= i < |l| :: v[i] == l[i].proc.Value()
  {
    seq(|l|, i requires 0 <= i < |l| reads set n | n in l :: n.proc => l[i].proc.Value())
  }

  class RoundRobin {
    var procList: Node?
    var current: Pcb?
    var lastPid: int
    const exitHelper: Pcb
    ghost var nodes: seq<Node>
    ghost var cur: int

    ghost function Procs(): set<Pcb>
      reads this
    {
      set n | n in nodes :: n.proc
    }

    ghost predicate Chain()
      reads this, nodes
    {
      && procList == NodeAt(nodes, 0)
      && AllLinked(nodes) && AllSeparate(nodes)
    }

    ghost predicate Valid()
      reads this, nodes
    {
      && Chain() && Keeps(nodes, exitHelper)
      && -1 <= cur < |nodes| && (cur >= 0 ==> current == nodes[cur].proc)
    }

    ghost function Abs(): State
      reads this, Procs()
    {
      State(Values(nodes), cur, lastPid)
    }

    constructor ()
      ensures Valid() && fresh(exitHelper) && Abs() == BOOT && current == null
    {
      procList, current, lastPid := null, null, 0;
      exitHelper := new Pcb(0, 0, 0);
      nodes, cur := [], -1;
    }

    /** get_by_pid */
    method GetByPid(pid: int) returns (p: Node?, ghost k: nat)
      requires Valid()
      ensures p == NodeAt(nodes, Find(Values(nodes), pid)) && k == Find(Values(nodes), pid)
    {
      p := procList;
      k := 0;
      while p != null && p.proc.id != pid
        invariant k <= |nodes| && p == NodeAt(nodes, k)
        invariant forall j | 0 <= j < k :: Values(nodes)[j].id != pid
        decreases |nodes| - k
      {
        assert LinkOk(nodes, k);
        p := p.next;
        k := k + 1;
      }
      FindEnds(Values(nodes), pid, k);
    }

    /** sched_fifo_next */
    method NextAfter(p: Pcb?) returns (q: Pcb?)
      requires Valid()
      ensures p == null ==> q == if nodes == [] then null else nodes[0].proc
      ensures p != null ==>
        var n := |nodes|; var k := Find(Values(nodes), p.id); q == if k == n then null else nodes[After(k, n)].proc
    {
      if p == null {
        if procList == null {
          return null;
        }
        return procList.proc;
      }
      var node, k := GetByPid(p.id);
      if node == null {
        return null;
      }
      assert LinkOk(nodes, k);
      if node.next == null {
        q := procList.proc;
      } else {
        q := node.next.proc;
      }
    }

    /** sched_fifo_enqueue of a copy nobody else holds. */
    method Enqueue(copy: Pcb)
      requires Valid() && Keeps(nodes, copy) && copy != exitHelper
      modifies this`procList, this`nodes, this`cur, nodes
      ensures Valid() && cur == if old(cur) >= 1 then old(cur) + 1 else old(cur)
      ensures if old(nodes) == [] then |nodes| == 1 && nodes[0].proc == copy
        else |nodes| == |old(nodes)| + 1 && nodes[1].proc == copy && nodes == Behind(old(nodes), nodes[1])
    {
      var node := new Node(copy);
      if procList == null {
        procList := node;
        nodes := [node];
      } else {
        HookBehind(node);
      }
    }

    method HookBehind(node: Node)
      requires Valid() && node !in nodes && Keeps(nodes, node.proc) && node.proc != exitHelper && |nodes| > 0
      modifies this`nodes, this`cur, nodes, node
      ensures Valid() && cur == (if old(cur) >= 1 then old(cur) + 1 else old(cur)) && nodes == Behind(old(nodes), node)
    {
      ghost var nx := Links(nodes);
      node.next := procList.next;
      procList.next := node;
      BehindSeparate(nodes, node);
      BehindLinked(nodes, nx, node);
      nodes := Behind(nodes, node);
      cur := if cur >= 1 then cur + 1 else cur;
    }

    /** sched_fifo_dequeue: the link that leads to the process leads past it. */
    method Dequeue(pid: int) returns (rc: int)
      requires Valid()
      modifies this`procList, this`nodes, this`cur, nodes
      ensures Valid()
      ensures var k := Find(Values(old(nodes)), pid);
        if k == |old(nodes)| then rc == 1 && nodes == old(nodes) && cur == old(cur)
        else rc == 0 && nodes == RemoveAt(old(nodes), k) && cur == Shift(old(cur), k)
    {
      var node, k := GetByPid(pid);
      if node == null {
        return 1;
      }
      var prev := PrevOf(node, k);
      Unlink(node, prev, k);
      rc := 0;
    }

    method Unlink(node: Node, prev: Node?, ghost k: nat)
      requires Valid() && k < |nodes| && node == nodes[k] && prev == if k == 0 then null else nodes[k - 1]
      modifies this`procList, this`nodes, this`cur, nodes
      ensures Valid() && nodes == RemoveAt(old(nodes), k) && cur == Shift(old(cur), k)
    {
      ghost var nx := Links(nodes);
      if prev == null {
        procList := node.next;
      } else {
        prev.next := node.next;
      }
      assert WasLink(nodes, nx, k);
      WithoutSeparate(nodes, k);
      WithoutLinked(nodes, nx, k);
      nodes := RemoveAt(nodes, k);
      cur := Shift(cur, k);
    }

    /** The node whose link leads to the k-th, null for the head. */
    method PrevOf(node: Node, ghost k: nat) returns (prev: Node?)
      requires Valid() && k < |nodes| && node == nodes[k]
      ensures prev == if k == 0 then null else nodes[k - 1]
    {
      prev := null;
      var n := procList;
      ghost var j := 0;
      assert k > 0 ==> Separate(nodes, 0, k);
      while n != node
        invariant j <= k && n == nodes[j] && prev == if j == 0 then null else nodes[j - 1]
        invariant j < k ==> n != node
        decreases k - j
      {
        assert LinkOk(nodes, j);
        prev := n;
        n := n.next;
        j := j + 1;
        assert j < k ==> Separate(nodes, j, k);
      }
    }

    method AddProcess(stack: int, priority: int)
      requires Valid()
      modifies this`procList, this`nodes, this`cur, this`lastPid, nodes
      ensures Valid() && Abs() == SchedModel.Add(old(Abs()), stack, priority)
    {
      var p := NextPcb(stack, priority);
      EnqueueProc(p);
    }

    /** A block with the next id. */
    method NextPcb(stack: int, priority: int) returns (p: Pcb)
      requires Valid()
      modifies this`lastPid
      ensures Valid() && Keeps(nodes, p) && p != exitHelper && fresh(p)
      ensures p.Value() == Proc(old(lastPid), priority, stack, PROC_OK, 0)
      ensures Abs() == old(Abs()).(lastPid := (old(lastPid) + 1) % WORD)
    {
      ghost var ps := Procs();
      p := new Pcb(lastPid, priority, stack);
      lastPid := (lastPid + 1) % WORD;
      assert forall i: nat | i < |nodes| :: nodes[i].proc in ps;
    }

    /** sched_fifo_enqueue as the scheduler calls it. */
    method EnqueueProc(p: Pcb)
      requires Valid() && Keeps(nodes, p) && p != exitHelper
      modifies this`procList, this`nodes, this`cur, nodes
      ensures Valid()
      ensures Abs() == var s := old(Abs());
        State(SchedModel.Enqueue(s.procs, p.Value()), if s.cur >= 1 then s.cur + 1 else s.cur, s.lastPid)
    {
      ghost var l := Values(nodes);
      Enqueue(p);
      assert Values(nodes) == SchedModel.Enqueue(l, p.Value());
    }

    method KillProcess(pid: int)
      requires Valid()
      modifies this`procList, this`nodes, this`cur, nodes
      ensures Valid() && Abs() == SchedModel.Kill(old(Abs()), pid)
    {
      DequeueProc(pid);
    }

    /** sched_fifo_dequeue as the scheduler calls it, whatever it returns. */
    method DequeueProc(pid: int)
      requires Valid()
      modifies this`procList, this`nodes, this`cur, nodes
      ensures Valid() && Abs() == SchedModel.Kill(old(Abs()), pid)
    {
      ghost var l, was := Values(nodes), nodes;
      ghost var k := Find(l, pid);
      var _ := Dequeue(pid);
      if k < |l| { ValuesRemoveAt(was, l, k); } else { assert Values(nodes) == l; }
    }

    /** scheduler_schedule, up to the context switch. */
    method Schedule()
      requires Valid() && cur >= 0
      modifies this`procList, this`nodes, this`cur, this`current, nodes, Procs(), exitHelper
      ensures Valid() && Abs() == SchedModel.Schedule(old(Abs()))
    {
      var from := current;
      IdIsFound(nodes, from);
      var next := NextAfter(from);
      if from.flags == PROC_EXIT {
        Retire(from, next);
        LeaveFor(next);
      } else {
        SwitchTo(from, next);
      }
    }

    /** The branch of scheduler_schedule for a process on its way out. */
    method Retire(from: Pcb, next: Pcb)
      requires Valid() && cur >= 0 && from == current
      requires var n := |nodes|; var k := Find(Values(nodes), from.id); k < n && next == nodes[After(k, n)].proc
      modifies this`procList, this`nodes, this`cur, this`current, nodes
      ensures Valid()
      ensures var s := old(Abs()); var k := Find(s.procs, from.id);
        k < |s.procs| && Abs() == SchedModel.Kill(s.(cur := After(k, |s.procs|)), from.id)
    {
      ghost var k := Find(Values(nodes), from.id);
      MakeCurrent(next, After(k, |nodes|));
      DequeueProc(from.id);
    }

    method MakeCurrent(next: Pcb, ghost k: nat)
      requires Valid() && k < |nodes| && next == nodes[k].proc
      modifies this`cur, this`current
      ensures Valid() && Abs() == old(Abs()).(cur := k) && nodes == old(nodes)
    {
      current, cur := next, k;
    }

    /** The helper stands in for the process that left; nobody looks at its count. */
    method LeaveFor(next: Pcb)
      requires Valid()
      modifies exitHelper
      ensures Valid() && Abs() == old(Abs())
    {
      if exitHelper != next {
        ghost var l := Values(nodes);
        exitHelper.runtime := 0;
        assert Values(nodes) == l;
      }
    }

    /** The branch for a process that will come back. */
    method SwitchTo(from: Pcb, next: Pcb)
      requires Valid() && cur >= 0 && from == current
      requires var n := |nodes|; var k := Find(Values(nodes), from.id); k < n && next == nodes[After(k, n)].proc
      modifies this`cur, this`current, Procs()
      ensures Valid()
      ensures var l, c := old(Values(nodes)), old(cur); var k := After(Find(l, from.id), |l|);
        0 <= k < |l| && Abs() == State(if k != c then l[c := l[c].(runtime := 0)] else l, k, old(lastPid))
    {
      ghost var l, c := Values(nodes), cur;
      current := next;
      cur := After(Find(l, from.id), |nodes|);
      if cur != c { assert if cur < c then Separate(nodes, cur, c) else Separate(nodes, c, cur); }
      if from != current {
        from.runtime := 0;
        UpdatedAt(nodes, l, c);
      }
    }

    method Tick()
      requires Valid() && cur >= 0
      modifies this`procList, this`nodes, this`cur, this`current, nodes, Procs(), exitHelper
      ensures Valid() && Abs() == SchedModel.Tick(old(Abs()))
    {
      CountTick();
      var must := MustReschedule();
      if must {
        Schedule();
      }
    }

    /** sched_fifo_tick of the running process. */
    method MustReschedule() returns (must: bool)
      requires Valid() && cur >= 0
      ensures must <==> Abs().procs[cur].runtime >= MAX_PROC_QUANTUM
    {
      IdIsFound(nodes, current);
      var node, k := GetByPid(current.id);
      must := node != null && current.runtime >= MAX_PROC_QUANTUM;
    }

    method CountTick()
      requires Valid() && cur >= 0
      modifies Procs()
      ensures Valid()
      ensures Abs() == var s := old(Abs()); var p := s.procs[s.cur];
        s.(procs := s.procs[s.cur := p.(runtime := (p.runtime + 1) % WORD)])
    {
      ghost var l := Values(nodes);
      current.runtime := (current.runtime + 1) % WORD;
      UpdatedAt(nodes, l, cur);
    }

    method Start()
      requires Valid()
      modifies this`current, this`cur
      ensures Valid() && Abs() == SchedModel.Start(old(Abs()))
    {
      current := NextAfter(null);
      cur := if current == null then -1 else 0;
    }

    method ExitCurrent()
      requires Valid() && (current != null ==> cur >= 0)
      modifies this`procList, this`nodes, this`cur, this`current, nodes, Procs(), exitHelper
      ensures Valid() && Abs() == SchedModel.Exit(old(Abs()))
    {
      if current == null {
        return;
      }
      ghost var l := Values(nodes);
      current.flags := PROC_EXIT;
      UpdatedAt(nodes, l, cur);
      Schedule();
    }
  }

  lemma ValuesRemoveAt(l: seq<Node>, before: seq<Proc>, k: nat)
    requires k < |l| == |before| && forall i | 0 <= i < |l| :: l[i].proc.Value() == before[i]
    ensures Values(RemoveAt(l, k)) == RemoveAt(before, k)
  {}

  /** After a write to the c-th process the others read as before. */
  lemma UpdatedAt(l: seq<Node>, before: seq<Proc>, c: nat)
    requires c < |l| == |before|
    requires AllSeparate(l)
    requires forall i | 0 <= i < |l| && l[i].proc != l[c].proc :: l[i].proc.Value() == before[i]
    ensures Values(l) == before[c := l[c].proc.Value()]
  {
    forall i | 0 <= i < |l| && i != c ensures l[i].proc != l[c].proc {
      assert if i < c then Separate(l, i, c) else Separate(l, c, i);
    }
  }

  lemma FindEnds(l: seq<Proc>, pid: int, k: nat)
    requires k <= |l| && (forall j | 0 <= j < k :: l[j].id != pid) && (k < |l| ==> l[k].id == pid)
    ensures Find(l, pid) == k
  {}

  lemma IdIsFound(l: seq<Node>, p: Pcb)
    requires exists n :: n in l && n.proc == p
    ensures Find(Values(l), p.id) < |l|
  {
    var n :| n in l && n.proc == p;
    var i :| 0 <= i < |l| && l[i] == n;
    assert Values(l)[i].id == p.id;
  }
}
