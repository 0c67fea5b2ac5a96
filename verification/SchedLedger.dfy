// What the scheduler's table holds over a run: who is listed, with which stack and priority, and
// who runs first.
module SchedLedger {
  import opened Sequences
  import opened SchedModel
  import opened SchedRuns

  /** What a process was made of. */
  datatype Making = Made(stack: int, priority: int) | Unknown

  function Lookup(l: seq<Proc>, pid: int): Making {
    var i := Find(l, pid);
    if i < |l| then Made(l[i].stack, l[i].priority) else Unknown
  }

  /** The id of the running process. */
  function Running(s: State): int { if Listed(s) then s.procs[s.cur].id else -1 }

  /** The processes there should be after the first m events, by the events alone but for who was
      running at an exit: the k-th added process has id k, kills and exits strike out. */
  function Ledger(states: seq<State>, events: seq<Event>, m: nat): map<int, Making>
    requires m <= |events| < |states|
  {
    if m == 0 then map[]
    else Entered(Ledger(states, events, m - 1), states[m - 1], events[m - 1], Arrivals(events, m - 1))
  }

  function Entered(ledger: map<int, Making>, s: State, e: Event, added: nat): map<int, Making> {
    match e
    case Tick => ledger
    case Start => ledger
    case Exit => ledger - {Running(s)}
    case Kill(pid) => ledger - {pid}
    case Add(stack, priority) => ledger[added := Made(stack, priority)]
  }

  ghost predicate SameAt(s: State, ledger: map<int, Making>, pid: int) {
    Lookup(s.procs, pid) == if pid in ledger then ledger[pid] else Unknown
  }

  /** The table lists exactly the processes of the ledger, made as the ledger says. */
  ghost predicate Matches(s: State, ledger: map<int, Making>) {
    forall pid {:trigger SameAt(s, ledger, pid)} :: SameAt(s, ledger, pid)
  }

  // ------------------------------------------------------------------ lookups

  lemma LookupIs(l: seq<Proc>, i: nat)
    requires Distinct(l) && i < |l|
    ensures Lookup(l, l[i].id) == Made(l[i].stack, l[i].priority)
  {
    FindIs(l, i);
  }

  lemma LookupAfterRemove(l: seq<Proc>, k: nat, pid: int)
    requires Distinct(l) && k < |l|
    ensures Lookup(RemoveAt(l, k), pid) == if pid == l[k].id then Unknown else Lookup(l, pid)
  {
    var t, i := RemoveAt(l, k), Find(l, pid);
    if pid == l[k].id { GoneAfterRemove(l, k); }
    else if i < |l| { FindAfterRemove(l, k, i); }
    else { assert forall f: nat | f < |t| :: t[f] == l[if f < k then f else f + 1]; }
  }

  /** Tables that differ in counts and flags only look the same. */
  lemma LookupAfterUpdate(l: seq<Proc>, t: seq<Proc>, pid: int)
    requires |l| == |t|
    requires forall i | 0 <= i < |l| ::
               l[i].id == t[i].id && l[i].stack == t[i].stack && l[i].priority == t[i].priority
    ensures Lookup(t, pid) == Lookup(l, pid)
  {
    var i, j := Find(l, pid), Find(t, pid);
    assert i == j;
  }

  lemma LookupAfterEnqueue(l: seq<Proc>, p: Proc, pid: int)
    requires Distinct(l) && Distinct(Enqueue(l, p)) && forall i | 0 <= i < |l| :: l[i].id != p.id
    ensures Lookup(Enqueue(l, p), pid) == if pid == p.id then Made(p.stack, p.priority) else Lookup(l, pid)
  {
    var t, i := Enqueue(l, p), Find(l, pid);
    if l == [] { assert t == [p]; }
    else if pid == p.id { assert t[1] == p; FindIs(t, 1); }
    else if i < |l| { assert t[if i == 0 then 0 else i + 1] == l[i]; FindIs(t, if i == 0 then 0 else i + 1); }
    else { assert forall f: nat | f < |t| :: t[f] == if f == 0 then l[0] else if f == 1 then p else l[f - 1]; }
  }

  // -------------------------------------------------------------------- steps

  lemma ReadyIsDistinct(s: State)
    requires Sound(s)
    ensures Distinct(s.procs) && forall i | 0 <= i < |s.procs| :: s.procs[i].id < s.lastPid
  {
    var t := if Inv(s) || s.procs == [] then s else s.(cur := 0);
    if s.procs != [] {
      forall i | 0 <= i < |s.procs| ensures s.procs[i].id < s.lastPid { assert ProcOk(t, i); }
    }
  }

  lemma StepKeepsLedger(s: State, e: Event, ledger: map<int, Making>)
    requires Sound(s) && Legal(s, e) && Matches(s, ledger) && s.lastPid >= 0
    ensures Matches(Step(s, e), Entered(ledger, s, e, s.lastPid))
    ensures Step(s, e).lastPid == s.lastPid + if e.Add? then 1 else 0
  {
    ReadyIsDistinct(s);
    match e
    case Tick => TickKeepsLedger(s, ledger);
    case Start => forall pid ensures SameAt(Step(s, e), ledger, pid) { assert SameAt(s, ledger, pid); }
    case Exit => ExitKeepsLedger(s, ledger);
    case Kill(victim) => KillKeepsLedger(s, victim, ledger);
    case Add(stack, priority) => AddKeepsLedger(s, stack, priority, ledger);
  }

  lemma TickKeepsLedger(s: State, ledger: map<int, Making>)
    requires Sound(s) && Listed(s) && Matches(s, ledger)
    ensures Matches(SchedModel.Tick(s), ledger) && SchedModel.Tick(s).lastPid == s.lastPid
  {
    var t := SchedModel.Tick(s);
    TickShape(s);
    forall pid ensures SameAt(t, ledger, pid) {
      assert SameAt(s, ledger, pid);
      LookupAfterUpdate(s.procs, t.procs, pid);
    }
  }

  lemma ExitKeepsLedger(s: State, ledger: map<int, Making>)
    requires Sound(s) && Distinct(s.procs) && Matches(s, ledger)
    ensures Matches(SchedModel.Exit(s), ledger - {Running(s)}) && SchedModel.Exit(s).lastPid == s.lastPid
  {
    var t := SchedModel.Exit(s);
    if Listed(s) { ExitShape(s); }
    forall pid ensures SameAt(t, ledger - {Running(s)}, pid) {
      assert SameAt(s, ledger, pid);
      if Listed(s) { LookupAfterRemove(s.procs, s.cur, pid); } else { NoNegativeIds(s); }
    }
  }

  /** A scheduler that has not started lists nobody with id -1. */
  lemma NoNegativeIds(s: State)
    requires Sound(s)
    ensures Lookup(s.procs, -1) == Unknown
  {
    var t := if Inv(s) || s.procs == [] then s else s.(cur := 0);
    forall i: nat | i < |s.procs| ensures s.procs[i].id >= 0 { assert ProcOk(t, i); }
  }

  lemma KillKeepsLedger(s: State, victim: int, ledger: map<int, Making>)
    requires Distinct(s.procs) && Matches(s, ledger)
    ensures Matches(SchedModel.Kill(s, victim), ledger - {victim}) && SchedModel.Kill(s, victim).lastPid == s.lastPid
  {
    var t, k := SchedModel.Kill(s, victim), Find(s.procs, victim);
    forall pid ensures SameAt(t, ledger - {victim}, pid) {
      assert SameAt(s, ledger, pid);
      if k < |s.procs| { LookupAfterRemove(s.procs, k, pid); }
    }
  }

  lemma AddKeepsLedger(s: State, stack: int, priority: int, ledger: map<int, Making>)
    requires Sound(s) && Distinct(s.procs) && Matches(s, ledger) && 0 <= s.lastPid && s.lastPid + 1 < WORD
    requires forall i | 0 <= i < |s.procs| :: s.procs[i].id < s.lastPid
    ensures Matches(SchedModel.Add(s, stack, priority), ledger[s.lastPid := Made(stack, priority)])
    ensures SchedModel.Add(s, stack, priority).lastPid == s.lastPid + 1
  {
    var t := SchedModel.Add(s, stack, priority);
    if Inv(s) { AddKeepsInv(s, stack, priority); } else { AddKeepsReady(s, stack, priority); ReadyIsDistinct(t); }
    var entered := ledger[s.lastPid := Made(stack, priority)];
    forall pid ensures SameAt(t, entered, pid) {
      assert SameAt(s, ledger, pid);
      LookupAfterEnqueue(s.procs, t.procs[if s.procs == [] then 0 else 1], pid);
    }
  }

  // --------------------------------------------------------------------- runs

  /** In every state of every run from the start of the scheduler the table lists exactly the
      processes added and not killed or gone, each with the stack and priority it was added with,
      the k-th one under id k. */
  lemma {:induction false} TableIsLedger(states: seq<State>, events: seq<Event>, m: nat)
    requires IsRun(states, events) && states[0] == BOOT && m <= |events|
    ensures Matches(states[m], Ledger(states, events, m)) && states[m].lastPid == Arrivals(events, m)
  {
    if m == 0 {
      forall pid ensures SameAt(BOOT, map[], pid) {}
    } else {
      var i := m - 1;
      TableIsLedger(states, events, i);
      ReachableIsSound(states, events, i);
      assert Next(states[i], states[i + 1], events[i]);
      StepKeepsLedger(states[i], events[i], Ledger(states, events, i));
    }
  }

  // ------------------------------------------------------------- who runs first

  /** Before the start the head of the list stays, whoever is added or killed behind it. */
  lemma {:induction false} HeadStays(states: seq<State>, events: seq<Event>, i: nat, m: nat)
    requires IsRun(states, events) && i <= m <= |events| && states[i].procs != [] && states[i].cur == -1
    requires forall k | i <= k < m ::
               events[k].Add? || (events[k].Kill? && events[k].pid != states[i].procs[0].id)
    ensures states[m].procs != [] && states[m].procs[0] == states[i].procs[0] && states[m].cur == -1
  {
    if i < m {
      var k := m - 1;
      HeadStays(states, events, i, k);
      assert Next(states[k], states[k + 1], events[k]);
      assert events[k].Add? || (events[k].Kill? && events[k].pid != states[i].procs[0].id);
    }
  }

  /** The process that scheduler_start runs is the one added first, unless it was killed: with its
      id 0 and its own stack and priority. */
  lemma FirstAddedRunsFirst(states: seq<State>, events: seq<Event>, m: nat)
    requires IsRun(states, events) && states[0] == BOOT && 0 < m < |events|
    requires events[0].Add? && events[m].Start?
    requires forall k | 0 < k < m :: events[k].Add? || (events[k].Kill? && events[k].pid != 0)
    ensures var s := states[m + 1];
      && Listed(s) && s.procs[s.cur].id == 0
      && s.procs[s.cur].stack == events[0].stack && s.procs[s.cur].priority == events[0].priority
  {
    assert Next(states[0], states[0 + 1], events[0]);
    assert Next(states[m], states[m + 1], events[m]);
    HeadStays(states, events, 1, m);
  }

  /** With the first one killed too, it is whoever is the head of the list then. */
  lemma HeadRunsFirst(states: seq<State>, events: seq<Event>, i: nat, m: nat)
    requires IsRun(states, events) && i <= m < |events| && states[i].procs != [] && states[i].cur == -1
    requires events[m].Start?
    requires forall k | i <= k < m ::
               events[k].Add? || (events[k].Kill? && events[k].pid != states[i].procs[0].id)
    ensures Listed(states[m + 1]) && Running(states[m + 1]) == states[i].procs[0].id
  {
    HeadStays(states, events, i, m);
    assert Next(states[m], states[m + 1], events[m]);
  }
}
