// Whole runs of the scheduler: safety, bounded waiting and equal shares.
module SchedRuns {
  import opened Sequences
  import opened SchedModel

  datatype Event = Tick | Exit | Kill(pid: int) | Add(stack: int, priority: int) | Start

  function Step(s: State, e: Event): State
    requires e.Tick? ==> Listed(s)
  {
    match e
    case Tick => SchedModel.Tick(s)
    case Exit => SchedModel.Exit(s)
    case Kill(pid) => SchedModel.Kill(s, pid)
    case Add(stack, priority) => SchedModel.Add(s, stack, priority)
    case Start => SchedModel.Start(s)
  }

  /** The conditions under which each call keeps the scheduler sound. */
  predicate Legal(s: State, e: Event) {
    match e
    case Tick => Listed(s)
    case Exit => Listed(s) ==> |s.procs| >= 2
    case Kill(pid) => Listed(s) ==> pid != s.procs[s.cur].id
    case Add(_, _) => s.lastPid + 1 < WORD
    case Start => !Listed(s)
  }

  ghost predicate Next(s: State, s': State, e: Event) { Legal(s, e) && s' == Step(s, e) }

  ghost predicate IsRun(states: seq<State>, events: seq<Event>) {
    && |states| == |events| + 1
    && forall i: nat {:trigger Next(states[i], states[i + 1], events[i])} | i < |events| ::
         Next(states[i], states[i + 1], events[i])
  }

  /** A process runs, or none has run yet. */
  ghost predicate Sound(s: State) { Inv(s) || Ready(s) }

  /** The running process, if there is one, is within its quantum. */
  predicate InQuantum(s: State) { Listed(s) ==> s.procs[s.cur].runtime < MAX_PROC_QUANTUM }

  predicate Shared(s: State) { Listed(s) ==> |s.procs| >= 2 }

  lemma StepKeepsInv(s: State, e: Event)
    requires Inv(s) && !e.Start?
    ensures Inv(Step(s, e)) <==> Legal(s, e)
    ensures Sharing(s) && Legal(s, e) && |Step(s, e).procs| >= 2 ==> Sharing(Step(s, e))
  {
    match e
    case Tick => TickKeepsInv(s);
    case Exit =>
      ExitShape(s);
      ExitKeepsInv(s);
    case Kill(pid) => KillKeepsInv(s, pid);
    case Add(stack, priority) => AddKeepsInv(s, stack, priority);
  }

  lemma StepKeepsReady(s: State, e: Event)
    requires Ready(s) && Legal(s, e)
    ensures Sound(Step(s, e)) && InQuantum(Step(s, e))
    ensures Inv(Step(s, e)) <==> e.Start? && s.procs != []
  {
    match e
    case Exit =>
    case Kill(pid) => KillKeepsReady(s, pid);
    case Add(stack, priority) => AddKeepsReady(s, stack, priority);
    case Start => StartIsSound(s);
  }

  /** Every state of a run is sound, and while a running process has always had company it is
      below its quantum. */
  lemma {:induction false} RunsAreSafe(states: seq<State>, events: seq<Event>, m: nat)
    requires IsRun(states, events) && Sound(states[0]) && m <= |events|
    ensures Sound(states[m])
    ensures InQuantum(states[0]) && (forall i | 0 <= i <= m :: Shared(states[i])) ==> InQuantum(states[m])
  {
    if m > 0 {
      RunsAreSafe(states, events, m - 1);
      var i := m - 1;
      assert Next(states[i], states[i + 1], events[i]);
      if Inv(states[i]) { StepKeepsInv(states[i], events[i]); } else { StepKeepsReady(states[i], events[i]); }
    }
  }

  /** From scheduler_init on, through adds, the start and everything after it. */
  lemma ReachableIsSound(states: seq<State>, events: seq<Event>, m: nat)
    requires IsRun(states, events) && states[0] == BOOT && m <= |events|
    ensures Sound(states[m])
    ensures (forall i | 0 <= i <= m :: Shared(states[i])) ==> InQuantum(states[m])
  {
    RunsAreSafe(states, events, m);
  }

  // --------------------------------------------------------- bounded waiting

  /** The process is listed and does not run. */
  predicate Waiting(s: State, pid: int) { Listed(s) && Find(s.procs, pid) < |s.procs| && Find(s.procs, pid) != s.cur }

  /** Switches until index i runs. */
  function Distance(cur: int, i: int, n: int): int { if cur <= i then i - cur else i - cur + n }

  /** Ticks until a process with that count is switched away: a lone process may be past its
      quantum, and a full count wraps to 0. */
  function Left(runtime: int): int {
    if runtime == WORD - 1 then MAX_PROC_QUANTUM + 1
    else if runtime >= MAX_PROC_QUANTUM then 1 else MAX_PROC_QUANTUM - runtime
  }

  /** Ticks until the process runs, if nobody comes or leaves. */
  function Wait(s: State, pid: int): int
    requires Listed(s)
  {
    (Distance(s.cur, Find(s.procs, pid), |s.procs|) - 1) * MAX_PROC_QUANTUM + Left(s.procs[s.cur].runtime)
  }

  /** What an event takes off a wait. */
  function Cost(e: Event): int { if e.Tick? then 1 else if e.Add? then -MAX_PROC_QUANTUM else 0 }

  lemma FindAfterRemove(l: seq<Proc>, k: nat, i: nat)
    requires Distinct(l) && k < |l| && i < |l| && i != k
    ensures Find(RemoveAt(l, k), l[i].id) == Shift(i, k)
  {
    RemovedDistinct(l, k);
    var t := RemoveAt(l, k);
    assert t[Shift(i, k)] == l[i];
    FindIs(t, Shift(i, k));
  }

  lemma FindAfterUpdate(l: seq<Proc>, c: nat, p: Proc, i: nat)
    requires Distinct(l) && c < |l| && p.id == l[c].id && i < |l|
    ensures Find(l[c := p], l[i].id) == i
  {
    SameIds(l, l[c := p]);
    FindIs(l[c := p], i);
  }

  /** The running process counts on: the wait changes by what is left of its quantum. */
  lemma CountsOn(s: State, r: int, pid: int)
    requires Inv(s) && Waiting(s, pid)
    ensures var p := s.procs[s.cur]; var t := s.(procs := s.procs[s.cur := p.(runtime := r)]);
      Waiting(t, pid) && Wait(t, pid) == Wait(s, pid) - Left(p.runtime) + Left(r)
  {
    FindAfterUpdate(s.procs, s.cur, s.procs[s.cur].(runtime := r), Find(s.procs, pid));
  }

  /** The next process runs, with a whole quantum: it is the one waiting, or that one is a
      quantum nearer. */
  lemma SwitchesOn(s: State, pid: int)
    requires Inv(s) && Waiting(s, pid)
    ensures var p := s.procs[s.cur];
      var t := s.(procs := s.procs[s.cur := p.(runtime := 0)], cur := After(s.cur, |s.procs|));
      && Wait(s, pid) >= Left(p.runtime)
      && if Wait(s, pid) == Left(p.runtime) then t.cur == Find(t.procs, pid)
         else Waiting(t, pid) && Wait(t, pid) == Wait(s, pid) - Left(p.runtime)
  {
    FindAfterUpdate(s.procs, s.cur, s.procs[s.cur].(runtime := 0), Find(s.procs, pid));
    assert ProcOk(s, After(s.cur, |s.procs|));
  }

  /** A tick takes exactly one off a wait. */
  lemma TickTakesOne(s: State, pid: int)
    requires Inv(s) && Waiting(s, pid)
    ensures Inv(SchedModel.Tick(s)) && Wait(s, pid) >= 1
    ensures var t := SchedModel.Tick(s);
      if Wait(s, pid) == 1 then t.cur == Find(t.procs, pid)
      else Waiting(t, pid) && Wait(t, pid) == Wait(s, pid) - 1
  {
    TickKeepsInv(s);
    TickShape(s);
    assert ProcOk(s, s.cur);
    SwitchesOn(s, pid);
    CountsOn(s, (s.procs[s.cur].runtime + 1) % WORD, pid);
  }

  lemma ExitBringsNearer(s: State, pid: int)
    requires Inv(s) && Waiting(s, pid) && Waiting(Step(s, Exit), pid)
    ensures Wait(Step(s, Exit), pid) <= Wait(s, pid)
  {
    var i, c, n := Find(s.procs, pid), s.cur, |s.procs|;
    ExitShape(s);
    FindAfterRemove(s.procs, c, i);
    assert ProcOk(s, After(c, n));
    DistanceAfterExit(c, i, n);
  }

  lemma DistanceAfterExit(c: int, i: int, n: int)
    requires 0 <= c < n && 0 <= i < n && i != c
    ensures Distance(Shift(After(c, n), c), Shift(i, c), n - 1) == Distance(c, i, n) - 1
  {}

  lemma KillBringsNearer(s: State, victim: int, pid: int)
    requires Inv(s) && Waiting(s, pid) && Legal(s, Kill(victim)) && Waiting(Step(s, Kill(victim)), pid)
    ensures Wait(Step(s, Kill(victim)), pid) <= Wait(s, pid)
  {
    assert ProcOk(s, s.cur);
    var i, k := Find(s.procs, pid), Find(s.procs, victim);
    if k < |s.procs| {
      if k == i { RemovedDistinct(s.procs, k); GoneAfterRemove(s.procs, k); }
      else { FindAfterRemove(s.procs, k, i); }
    }
  }

  /** The newcomer goes behind the first process: it gets its turn before index i when the
      first process runs, or one behind i does. */
  predicate Overtaken(cur: int, i: int) { i > 0 && (cur == 0 || i < cur) }

  /** A process added sets back by a quantum exactly those it overtakes. */
  lemma AddSetsBack(s: State, stack: int, priority: int, pid: int)
    requires Inv(s) && Waiting(s, pid) && Legal(s, Add(stack, priority))
    ensures var t := Step(s, Add(stack, priority));
      && Waiting(t, pid)
      && Wait(t, pid) == Wait(s, pid) + if Overtaken(s.cur, Find(s.procs, pid)) then MAX_PROC_QUANTUM else 0
  {
    AddKeepsInv(s, stack, priority);
    var i, t := Find(s.procs, pid), Step(s, Add(stack, priority));
    FindIs(t.procs, if i == 0 then 0 else i + 1);
  }

  /** Each tick brings a waiting process one tick nearer, nobody's departure sets it back, and
      an arrival by a quantum at most. */
  lemma StepBringsNearer(s: State, e: Event, pid: int)
    requires Inv(s) && Waiting(s, pid) && Legal(s, e)
    requires Waiting(Step(s, e), pid)
    ensures Inv(Step(s, e)) && Wait(Step(s, e), pid) <= Wait(s, pid) - Cost(e)
  {
    StepKeepsInv(s, e);
    match e
    case Tick => TickTakesOne(s, pid);
    case Exit => ExitBringsNearer(s, pid);
    case Kill(victim) => KillBringsNearer(s, victim, pid);
    case Add(stack, priority) => AddSetsBack(s, stack, priority, pid);
  }

  lemma GoneAfterRemove(l: seq<Proc>, k: nat)
    requires Distinct(l) && k < |l|
    ensures Find(RemoveAt(l, k), l[k].id) == |l| - 1
  {
    var t := RemoveAt(l, k);
    forall f | 0 <= f < |t| ensures t[f].id != l[k].id {
      assert if f < k then Different(l, f, k) else Different(l, k, f + 1);
    }
  }

  function Ticks(events: seq<Event>, m: nat): nat
    requires m <= |events|
  {
    if m == 0 then 0 else Ticks(events, m - 1) + (if events[m - 1].Tick? then 1 else 0)
  }

  function Arrivals(events: seq<Event>, m: nat): nat
    requires m <= |events|
  {
    if m == 0 then 0 else Arrivals(events, m - 1) + (if events[m - 1].Add? then 1 else 0)
  }

  lemma {:induction false} WaitingRun(states: seq<State>, events: seq<Event>, pid: int, m: nat)
    requires IsRun(states, events) && Inv(states[0]) && m <= |events|
    requires forall i | 0 <= i <= m :: Waiting(states[i], pid)
    ensures Inv(states[m])
    ensures Ticks(events, m) <= Wait(states[0], pid) - Wait(states[m], pid) + Arrivals(events, m) * MAX_PROC_QUANTUM
  {
    if m > 0 {
      WaitingRun(states, events, pid, m - 1);
      var i := m - 1;
      assert Next(states[i], states[i + 1], events[i]);
      StepBringsNearer(states[i], events[i], pid);
    }
  }

  /** The longest wait is n - 1 quanta exactly when the running process's count is not full:
      the next tick wraps a full count, and that tick comes on top. */
  lemma LongestWait(s: State)
    requires Inv(s) && |s.procs| >= 2
    ensures (forall pid | Waiting(s, pid) :: Wait(s, pid) <= (|s.procs| - 1) * MAX_PROC_QUANTUM) <==>
            s.procs[s.cur].runtime != WORD - 1
    ensures forall pid | Waiting(s, pid) :: Wait(s, pid) <= (|s.procs| - 1) * MAX_PROC_QUANTUM + 1
  {
    assert ProcOk(s, s.cur);
    if s.procs[s.cur].runtime == WORD - 1 {
      var last := if s.cur == 0 then |s.procs| - 1 else s.cur - 1;
      FindIs(s.procs, last);
      assert Waiting(s, s.procs[last].id);
    }
  }

  /** A process that has been waiting all along has seen fewer than (n - 1 + a) * 300 ticks,
      n being the number of processes at the start and a of those added since: it runs within
      that many, whoever exits or is killed in the meantime. One more tick is possible exactly
      when the run starts at a full count. */
  lemma WaitingIsBounded(states: seq<State>, events: seq<Event>, pid: int)
    requires IsRun(states, events) && Inv(states[0])
    requires forall i | 0 <= i < |states| :: Waiting(states[i], pid)
    ensures var a := Arrivals(events, |events|);
      && Ticks(events, |events|) < Wait(states[0], pid) + a * MAX_PROC_QUANTUM
      && Ticks(events, |events|) < (|states[0].procs| - 1 + a) * MAX_PROC_QUANTUM +
                                   if states[0].procs[states[0].cur].runtime == WORD - 1 then 1 else 0
  {
    var m := |events|;
    WaitingRun(states, events, pid, m);
    TickTakesOne(states[m], pid);
    LongestWait(states[0]);
  }

  // ------------------------------------------------------------ equal shares

  /** A timer interrupt; a scheduler without a running process ignores it. */
  function OneTick(s: State): State { if Listed(s) then SchedModel.Tick(s) else s }

  function Iterate(f: State -> State, s: State, m: nat): State {
    if m == 0 then s else f(Iterate(f, s, m - 1))
  }

  /** How often index i runs at the start of one of the first m steps. */
  function Turns(f: State -> State, s: State, m: nat, i: int): nat {
    if m == 0 then 0 else Turns(f, s, m - 1, i) + (if Iterate(f, s, m - 1).cur == i then 1 else 0)
  }

  function TickN(s: State, m: nat): State { Iterate(OneTick, s, m) }

  /** Ticks among the first m that fall to index i. */
  function Charged(s: State, m: nat, i: int): nat { Turns(OneTick, s, m, i) }

  /** The index q switches after c. */
  function Turn(c: int, q: int, n: int): int { if c + q < n then c + q else c + q - n }

  lemma {:induction false} StepsCompose(f: State -> State, s: State, a: nat, b: nat, i: int)
    ensures Iterate(f, s, a + b) == Iterate(f, Iterate(f, s, a), b)
    ensures Turns(f, s, a + b, i) == Turns(f, s, a, i) + Turns(f, Iterate(f, s, a), b, i)
  {
    if b > 0 {
      StepsCompose(f, s, a, b - 1, i);
      assert a + b - 1 == a + (b - 1);
    }
  }

  function Counting(s: State, r: int): State
    requires Listed(s)
  {
    s.(procs := s.procs[s.cur := s.procs[s.cur].(runtime := r)])
  }

  lemma CountingInv(s: State, r: int)
    requires Inv(s) && 0 <= r < WORD
    ensures Inv(Counting(s, r))
  {
    var t := Counting(s, r);
    SameIds(s.procs, t.procs);
    forall i: nat | i < |t.procs| ensures ProcOk(t, i) { assert ProcOk(s, i); }
  }

  /** One more tick within the quantum, and the last tick of it. */
  lemma TickCounts(s: State, r: nat)
    requires Inv(s) && |s.procs| >= 2 && s.procs[s.cur].runtime == 0 && r < MAX_PROC_QUANTUM
    ensures OneTick(Counting(s, r)) ==
      if r + 1 < MAX_PROC_QUANTUM then Counting(s, r + 1) else s.(cur := After(s.cur, |s.procs|))
  {
    CountingInv(s, r);
    TickShape(Counting(s, r));
    var p := s.procs[s.cur];
    assert s.procs[s.cur := p.(runtime := r)][s.cur := p.(runtime := 0)] == s.procs;
    assert s.procs[s.cur := p.(runtime := r)][s.cur := p.(runtime := r + 1)] == s.procs[s.cur := p.(runtime := r + 1)];
  }

  /** r ticks into a quantum only the running process's count has changed. */
  lemma {:induction false} WithinQuantum(f: State -> State, s: State, r: nat, i: int)
    requires Listed(s) && s.procs[s.cur].runtime == 0
    requires forall k: nat | k < r :: f(Counting(s, k)) == Counting(s, k + 1)
    ensures Iterate(f, s, r) == Counting(s, r)
    ensures Turns(f, s, r, i) == if i == s.cur then r else 0
  {
    if r == 0 { assert s.procs[s.cur := s.procs[s.cur].(runtime := 0)] == s.procs; }
    else { WithinQuantum(f, s, r - 1, i); }
  }

  lemma WholeQuantum(f: State -> State, s: State, d: nat, i: int)
    requires Listed(s) && s.procs[s.cur].runtime == 0 && d > 0
    requires forall k: nat | k < d - 1 :: f(Counting(s, k)) == Counting(s, k + 1)
    requires f(Counting(s, d - 1)) == s.(cur := After(s.cur, |s.procs|))
    ensures Iterate(f, s, d) == s.(cur := After(s.cur, |s.procs|))
    ensures Turns(f, s, d, i) == if i == s.cur then d else 0
  {
    WithinQuantum(f, s, d - 1, i);
  }

  /** A whole quantum: the next process's turn, every count as it was. */
  lemma OneQuantum(s: State, i: int)
    requires Inv(s) && |s.procs| >= 2 && s.procs[s.cur].runtime == 0
    ensures TickN(s, MAX_PROC_QUANTUM) == s.(cur := After(s.cur, |s.procs|))
    ensures Charged(s, MAX_PROC_QUANTUM, i) == if i == s.cur then MAX_PROC_QUANTUM else 0
  {
    var f: State -> State := OneTick;
    forall k: nat | k < MAX_PROC_QUANTUM - 1 ensures f(Counting(s, k)) == Counting(s, k + 1) {
      TickCounts(s, k);
    }
    TickCounts(s, MAX_PROC_QUANTUM - 1);
    WholeQuantum(f, s, MAX_PROC_QUANTUM, i);
  }

  function AtTurn(s: State, p: nat): State { s.(cur := Turn(s.cur, p, |s.procs|)) }

  /** d steps from the p-th turn on are that process's quantum. */
  ghost predicate IsQuantum(f: State -> State, s: State, p: nat, d: nat, i: int) {
    && Iterate(f, AtTurn(s, p), d) == AtTurn(s, p + 1)
    && Turns(f, AtTurn(s, p), d, i) == if i == AtTurn(s, p).cur then d else 0
  }

  /** After q quanta those that had a turn have had d steps each. */
  lemma {:induction false} QuantaAddUp(f: State -> State, s: State, q: nat, d: nat, i: int)
    requires Listed(s) && q <= |s.procs| && 0 <= i < |s.procs|
    requires forall p: nat | p < q :: IsQuantum(f, s, p, d, i)
    ensures Iterate(f, s, q * d) == AtTurn(s, q) || q == 0
    ensures Turns(f, s, q * d, i) == if Distance(s.cur, i, |s.procs|) < q then d else 0
  {
    if q > 0 {
      var p := q - 1;
      QuantaAddUp(f, s, p, d, i);
      StepsCompose(f, s, p * d, d, i);
      OneMoreTime(p, d);
      assert IsQuantum(f, s, p, d, i);
      NextTurn(s.cur, p, i, |s.procs|);
      assert AtTurn(s, 0) == s;
    }
  }

  lemma OneMoreTime(p: nat, d: nat)
    ensures (p + 1) * d == p * d + d
  {}

  /** After q whole quanta it is the turn of the q-th process after the first, and those that
      had a turn were charged 300 ticks. */
  lemma AfterQuanta(s: State, q: nat, i: int)
    requires Inv(s) && |s.procs| >= 2 && s.procs[s.cur].runtime == 0 && q <= |s.procs| && 0 <= i < |s.procs|
    ensures TickN(s, q * MAX_PROC_QUANTUM) == s.(cur := Turn(s.cur, q, |s.procs|))
    ensures Charged(s, q * MAX_PROC_QUANTUM, i) == if Distance(s.cur, i, |s.procs|) < q then MAX_PROC_QUANTUM else 0
  {
    forall p: nat | p < q ensures IsQuantum(OneTick, s, p, MAX_PROC_QUANTUM, i) {
      NextTurn(s.cur, p, i, |s.procs|);
      TurnInv(s, AtTurn(s, p).cur);
      OneQuantum(AtTurn(s, p), i);
    }
    QuantaAddUp(OneTick, s, q, MAX_PROC_QUANTUM, i);
  }

  lemma TurnInv(s: State, c: nat)
    requires Inv(s) && s.procs[s.cur].runtime == 0 && c < |s.procs|
    ensures Inv(s.(cur := c)) && s.procs[c].runtime == 0
  {
    var t := s.(cur := c);
    forall i: nat | i < |t.procs| ensures ProcOk(t, i) { assert ProcOk(s, i); }
    assert ProcOk(s, c);
  }

  /** Turns go round: the process whose turn it is after p switches is the one p away. */
  lemma NextTurn(c: int, p: int, i: int, n: int)
    requires 0 <= c < n && 0 <= p < n && 0 <= i < n
    ensures 0 <= Turn(c, p, n) < n && After(Turn(c, p, n), n) == Turn(c, p + 1, n)
    ensures i == Turn(c, p, n) <==> Distance(c, i, n) == p
  {}

  /** With a fixed list of at least two, every window of 300 * n ticks that starts at a switch
      gives each process exactly 300 and ends in the state it started from. */
  lemma EqualShares(s: State, i: int)
    requires Inv(s) && |s.procs| >= 2 && s.procs[s.cur].runtime == 0 && 0 <= i < |s.procs|
    ensures Charged(s, |s.procs| * MAX_PROC_QUANTUM, i) == MAX_PROC_QUANTUM
    ensures TickN(s, |s.procs| * MAX_PROC_QUANTUM) == s
  {
    AfterQuanta(s, |s.procs|, i);
  }

  // ------------------------------------------------------------ waits are exact

  /** With nobody coming or leaving, a waiting process runs after exactly its wait, and not
      before. */
  lemma {:induction false} RunsOnTime(s: State, pid: int, m: nat)
    requires Inv(s) && Waiting(s, pid) && m <= Wait(s, pid)
    ensures OnTime(TickN(s, m), pid, Wait(s, pid) - m)
  {
    if m > 0 {
      RunsOnTime(s, pid, m - 1);
      OnTimeStep(TickN(s, m - 1), pid, Wait(s, pid) - (m - 1));
      OneMoreTick(s, m - 1);
    }
  }

  /** The process runs, or will after the ticks left. */
  ghost predicate OnTime(s: State, pid: int, left: int) {
    Inv(s) && if left == 0 then s.cur == Find(s.procs, pid) else Waiting(s, pid) && Wait(s, pid) == left
  }

  lemma OnTimeStep(s: State, pid: int, left: int)
    requires OnTime(s, pid, left) && left > 0
    ensures OnTime(OneTick(s), pid, left - 1)
  {
    TickTakesOne(s, pid);
  }

  lemma OneMoreTick(s: State, m: nat)
    ensures TickN(s, m + 1) == OneTick(TickN(s, m))
  {}

  lemma {:induction false} LoneCounts(s: State, m: nat)
    requires Inv(s) && |s.procs| == 1 && s.procs[0].runtime == 0 && m < WORD
    ensures TickN(s, m) == s.(procs := [s.procs[0].(runtime := m)]) && Inv(TickN(s, m))
  {
    if m > 0 {
      LoneCounts(s, m - 1);
      TickShape(TickN(s, m - 1));
      TickKeepsInv(TickN(s, m - 1));
    } else {
      assert s.procs == [s.procs[0]];
    }
  }

  /** The case of the extra tick: a process alone until its count is full, then another one
      added, which waits 301 ticks where one quantum is 300. */
  lemma FullCountWaitsLonger(s: State, stack: int, priority: int)
    requires Inv(s) && |s.procs| == 1 && s.procs[0].runtime == 0 && s.lastPid + 1 < WORD
    ensures var t := SchedModel.Add(TickN(s, WORD - 1), stack, priority);
      && Inv(t) && Waiting(t, s.lastPid) && |t.procs| == 2
      && Wait(t, s.lastPid) == 301 > (|t.procs| - 1) * MAX_PROC_QUANTUM
  {
    LoneCounts(s, WORD - 1);
    AddedAlone(TickN(s, WORD - 1), stack, priority);
  }

  lemma AddedAlone(s: State, stack: int, priority: int)
    requires Inv(s) && |s.procs| == 1 && s.lastPid + 1 < WORD
    ensures var t := SchedModel.Add(s, stack, priority);
      && Inv(t) && Waiting(t, s.lastPid) && |t.procs| == 2
      && Wait(t, s.lastPid) == Left(s.procs[0].runtime)
  {
    AddKeepsInv(s, stack, priority);
    FindIs(SchedModel.Add(s, stack, priority).procs, 1);
  }
}
