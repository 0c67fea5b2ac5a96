// The round-robin scheduler as a value: the process list in order, which process runs, and
// what every scheduler call does to them.
module SchedModel {
  import opened Sequences

  const MAX_PROC_QUANTUM := 300
  const PROC_OK := 0
  const PROC_EXIT := 1
  const WORD := 0x1_0000_0000

  datatype Proc = Proc(id: int, priority: int, stack: int, flags: int, runtime: int)

  /** cur is the index of the running process, -1 when `current` leads to no listed one. */
  datatype State = State(procs: seq<Proc>, cur: int, lastPid: int)

  /** After scheduler_init. */
  const BOOT := State([], -1, 0)

  // --------------------------------------------------------------------- list

  /** get_by_pid: index of the first process with that id, the length when there is none. */
  function IndexOf(l: seq<Proc>, pid: int, from: nat): (i: nat)
    requires from <= |l|
    ensures from <= i <= |l|
    ensures i < |l| ==> l[i].id == pid
    ensures forall j | from <= j < i :: l[j].id != pid
    decreases |l| - from
  {
    if from == |l| || l[from].id == pid then from else IndexOf(l, pid, from + 1)
  }

  function Find(l: seq<Proc>, pid: int): nat { IndexOf(l, pid, 0) }

  /** sched_fifo_enqueue: behind the first process. */
  function Enqueue(l: seq<Proc>, p: Proc): seq<Proc> {
    if l == [] then [p] else Behind(l, p)
  }

  /** Where index i is once index k is gone; -1 for k itself. */
  function Shift(i: int, k: int): int { if i == k then -1 else if k < i then i - 1 else i }

  /** The index after i in the ring of n. */
  function After(i: int, n: int): int { if i + 1 == n then 0 else i + 1 }

  // -------------------------------------------------------------------- calls

  predicate Listed(s: State) { 0 <= s.cur < |s.procs| }

  function Add(s: State, stack: int, priority: int): State {
    State(Enqueue(s.procs, Proc(s.lastPid, priority, stack, PROC_OK, 0)),
          if s.cur >= 1 then s.cur + 1 else s.cur,
          (s.lastPid + 1) % WORD)
  }

  function Kill(s: State, pid: int): State {
    var k := Find(s.procs, pid);
    if k == |s.procs| then s else State(RemoveAt(s.procs, k), Shift(s.cur, k), s.lastPid)
  }

  function Start(s: State): State { s.(cur := if s.procs == [] then -1 else 0) }

  /** scheduler_schedule: the successor is chosen first, then an exiting process is removed,
      then the process switched away from starts a new count. */
  function Schedule(s: State): State
    requires Listed(s)
  {
    var from := s.procs[s.cur];
    var next := After(Find(s.procs, from.id), |s.procs|);
    if from.flags == PROC_EXIT then
      var k := Find(s.procs, from.id);
      State(RemoveAt(s.procs, k), Shift(next, k), s.lastPid)
    else if next != s.cur then
      s.(procs := s.procs[s.cur := from.(runtime := 0)], cur := next)
    else s
  }

  function Tick(s: State): State
    requires Listed(s)
  {
    var p := s.procs[s.cur];
    var q := p.(runtime := (p.runtime + 1) % WORD);
    var t := s.(procs := s.procs[s.cur := q]);
    if q.runtime >= MAX_PROC_QUANTUM then Schedule(t) else t
  }

  function Exit(s: State): State {
    if !Listed(s) then s
    else Schedule(s.(procs := s.procs[s.cur := s.procs[s.cur].(flags := PROC_EXIT)]))
  }

  // ---------------------------------------------------------------- invariant

  ghost predicate Different(l: seq<Proc>, i: nat, j: nat)
    requires i < |l| && j < |l|
  {
    l[i].id != l[j].id
  }

  ghost predicate Distinct(l: seq<Proc>) {
    forall i: nat, j: nat {:trigger Different(l, i, j)} | i < j < |l| :: Different(l, i, j)
  }

  ghost predicate ProcOk(s: State, i: nat)
    requires i < |s.procs|
  {
    var p := s.procs[i];
    0 <= p.id < s.lastPid && p.flags == PROC_OK && 0 <= p.runtime < WORD && (i != s.cur ==> p.runtime == 0)
  }

  /** Ids are distinct and below the next one, the running process is listed, nobody is on
      the way out, and only the running process has run since it was last switched away. */
  ghost predicate Inv(s: State) {
    && Listed(s) && Distinct(s.procs) && s.lastPid < WORD
    && forall i: nat {:trigger ProcOk(s, i)} | i < |s.procs| :: ProcOk(s, i)
  }

  /** At least two processes share the processor and the running one is within its quantum. */
  ghost predicate Sharing(s: State) {
    Inv(s) && |s.procs| >= 2 && s.procs[s.cur].runtime < MAX_PROC_QUANTUM
  }

  lemma FindIs(l: seq<Proc>, i: nat)
    requires Distinct(l) && i < |l|
    ensures Find(l, l[i].id) == i
  {
    var k := Find(l, l[i].id);
    assert k >= i || Different(l, k, i);
  }

  /** The new table of a tick or switch: only runtimes change. */
  lemma SameIds(l: seq<Proc>, l': seq<Proc>)
    requires Distinct(l) && |l| == |l'| && forall i | 0 <= i < |l| :: l'[i].id == l[i].id
    ensures Distinct(l')
  {
    forall i: nat, j: nat | i < j < |l'| ensures Different(l', i, j) { assert Different(l, i, j); }
  }

  lemma RemovedDistinct(l: seq<Proc>, k: nat)
    requires Distinct(l) && k < |l|
    ensures Distinct(RemoveAt(l, k))
  {
    var t := RemoveAt(l, k);
    forall i: nat, j: nat | i < j < |t| ensures Different(t, i, j) {
      assert Different(l, if i < k then i else i + 1, if j < k then j else j + 1);
    }
  }

  /** What a tick does, without looking processes up. */
  lemma TickShape(s: State)
    requires Inv(s)
    ensures var p := s.procs[s.cur]; var r := (p.runtime + 1) % WORD; var n := |s.procs|;
      Tick(s) == if r >= MAX_PROC_QUANTUM && n > 1
                 then s.(procs := s.procs[s.cur := p.(runtime := 0)], cur := After(s.cur, n))
                 else s.(procs := s.procs[s.cur := p.(runtime := r)])
  {
    var p := s.procs[s.cur];
    assert ProcOk(s, s.cur);
    var l := s.procs[s.cur := p.(runtime := (p.runtime + 1) % WORD)];
    SameIds(s.procs, l);
    FindIs(l, s.cur);
  }

  lemma TickKeepsInv(s: State)
    requires Inv(s)
    ensures Inv(Tick(s))
    ensures Sharing(s) ==> Sharing(Tick(s))
  {
    TickShape(s);
    var t := Tick(s);
    assert ProcOk(s, s.cur);
    SameIds(s.procs, t.procs);
    forall i: nat | i < |t.procs| ensures ProcOk(t, i) { assert ProcOk(s, i); }
    assert ProcOk(s, t.cur);
  }

  /** The exiting process is gone and the one after it runs. */
  lemma ExitShape(s: State)
    requires Inv(s)
    ensures Exit(s) == State(RemoveAt(s.procs, s.cur), Shift(After(s.cur, |s.procs|), s.cur), s.lastPid)
  {
    var l := s.procs[s.cur := s.procs[s.cur].(flags := PROC_EXIT)];
    SameIds(s.procs, l);
    FindIs(l, s.cur);
    assert RemoveAt(l, s.cur) == RemoveAt(s.procs, s.cur);
  }

  /** scheduler_exit_current leaves a running process exactly when there is another one. */
  lemma ExitKeepsInv(s: State)
    requires Inv(s)
    ensures Inv(Exit(s)) <==> |s.procs| >= 2
    ensures |s.procs| >= 3 ==> Sharing(Exit(s))
  {
    ExitShape(s);
    if |s.procs| >= 2 {
      var t := Exit(s);
      RemovedDistinct(s.procs, s.cur);
      forall i: nat | i < |t.procs| ensures ProcOk(t, i) { assert ProcOk(s, if i < s.cur then i else i + 1); }
      assert ProcOk(s, After(s.cur, |s.procs|));
    }
  }

  /** scheduler_kill_process keeps a running process exactly when another one is killed. */
  lemma KillKeepsInv(s: State, pid: int)
    requires Inv(s)
    ensures Inv(Kill(s, pid)) <==> pid != s.procs[s.cur].id
    ensures Sharing(s) && pid != s.procs[s.cur].id && |Kill(s, pid).procs| >= 2 ==> Sharing(Kill(s, pid))
  {
    var k, t := Find(s.procs, pid), Kill(s, pid);
    FindIs(s.procs, s.cur);
    if pid != s.procs[s.cur].id && k < |s.procs| {
      RemovedDistinct(s.procs, k);
      forall i: nat | i < |t.procs| ensures ProcOk(t, i) { assert ProcOk(s, if i < k then i else i + 1); }
    }
  }

  /** scheduler_add_process keeps ids distinct and ordered exactly when the counter does not
      wrap; the new process goes behind the first one. */
  lemma AddKeepsInv(s: State, stack: int, priority: int)
    requires Inv(s)
    ensures Inv(Add(s, stack, priority)) <==> s.lastPid + 1 < WORD
    ensures Sharing(s) && s.lastPid + 1 < WORD ==> Sharing(Add(s, stack, priority))
  {
    assert ProcOk(s, 0);
    var t := Add(s, stack, priority);
    if s.lastPid + 1 < WORD {
      forall i: nat | i < |t.procs| ensures ProcOk(t, i) {
        if i != 1 { assert ProcOk(s, if i == 0 then 0 else i - 1); }
      }
      forall i: nat, j: nat | i < j < |t.procs| ensures Different(t.procs, i, j) {
        var i', j' := if i == 0 then 0 else i - 1, if j == 0 then 0 else j - 1;
        assert ProcOk(s, i') && ProcOk(s, j');
        if i != 1 && j != 1 { assert Different(s.procs, i', j'); }
      }
    } else {
      assert !ProcOk(t, 0);
    }
  }

  // ------------------------------------------------------------------- start

  /** Processes have been added and none has run. */
  ghost predicate Ready(s: State) {
    s.cur == -1 && 0 <= s.lastPid && (s.procs != [] ==> Inv(s.(cur := 0)) && s.procs[0].runtime == 0)
  }

  lemma AddKeepsReady(s: State, stack: int, priority: int)
    requires Ready(s) && s.lastPid + 1 < WORD
    ensures Ready(Add(s, stack, priority))
  {
    var t := Add(s, stack, priority);
    if s.procs == [] {
      var u := t.(cur := 0);
      assert forall i: nat | i < |u.procs| :: ProcOk(u, i);
    } else {
      AddKeepsInv(s.(cur := 0), stack, priority);
    }
  }

  lemma KillKeepsReady(s: State, pid: int)
    requires Ready(s)
    ensures Ready(Kill(s, pid))
  {
    var k := Find(s.procs, pid);
    if k < |s.procs| {
      var u := s.(cur := 0);
      var t := Kill(s, pid).(cur := 0);
      RemovedDistinct(s.procs, k);
      assert ProcOk(u, 0);
      forall i: nat | i < |t.procs| ensures ProcOk(t, i) && t.procs[i].runtime == 0 {
        assert ProcOk(u, if i < k then i else i + 1);
      }
    }
  }

  /** scheduler_start runs the first process added, in a sound state, if there is one. */
  lemma StartIsSound(s: State)
    requires Ready(s)
    ensures Inv(Start(s)) <==> s.procs != []
    ensures |s.procs| >= 2 ==> Sharing(Start(s))
  {}
}
