// The context switch and the first stack frame of a process.
module Context {

  const PAGE := 4096
  const FRAME := 28               // sizeof(struct sched_frame)
  const STACK_PTR := 8            // offset of stack_ptr in struct pcb
  const FIRST_FLAGS := 0x202

  /** Memory words by address; words never written read 0. */
  type Memory = map<int, int>

  function Load(m: Memory, a: int): int { if a in m then m[a] else 0 }

  /** The registers a switch carries over, the stack pointer and the address to go on at. */
  datatype Regs = Regs(edi: int, esi: int, ebx: int, ebp: int, eflags: int, esp: int, eip: int)

  datatype Machine = Machine(regs: Regs, mem: Memory)

  /** The frame a switch pushes, and a switch back pops, at sp. */
  function Restored(m: Memory, sp: int): Regs {
    Regs(Load(m, sp), Load(m, sp + 4), Load(m, sp + 8), Load(m, sp + 12), Load(m, sp + 16), sp + 24, Load(m, sp + 20))
  }

  /** What a process sees when arch_switch_context returns to it. */
  function Caller(s: Machine): Regs { s.regs.(eip := Load(s.mem, s.regs.esp), esp := s.regs.esp + 4) }

  function Pushed(s: Machine): Memory {
    var r := s.regs;
    s.mem[r.esp - 4 := r.eflags][r.esp - 8 := r.ebp][r.esp - 12 := r.ebx][r.esp - 16 := r.esi][r.esp - 20 := r.edi]
  }

  /** arch_switch_context, entered with the return address at esp and prev and next above. */
  function Switch(s: Machine): Machine {
    var m1 := Pushed(s);
    var prev := Load(m1, s.regs.esp + 4);
    var m2 := m1[prev + STACK_PTR := s.regs.esp - 20];
    var next := Load(m2, s.regs.esp + 8);
    Machine(Restored(m2, Load(m2, next + STACK_PTR)), m2)
  }

  /** Bit k of a word. */
  predicate IsSet(word: nat, k: nat) { if k == 0 then word % 2 == 1 else IsSet(word / 2, k - 1) }

  /** The first flags of a process: interrupts enabled (bit 9), the bit that is always one (bit
      1), and nothing else. */
  lemma FirstFlagsAre(k: nat)
    ensures IsSet(FIRST_FLAGS, k) <==> k == 1 || k == 9
  {
    if k >= 2 {
      assert IsSet(514, k) == IsSet(257, k - 1) == IsSet(128, k - 2);
      assert Power(2) == 4 && Power(4) == 16 && Power(6) == 64 && Power(7) == 128;
      OneBit(7, k - 2);
    }
  }

  function Power(j: nat): nat { if j == 0 then 1 else 2 * Power(j - 1) }

  lemma {:induction false} OneBit(j: nat, k: nat)
    ensures IsSet(Power(j), k) <==> k == j
  {
    if j > 0 && k > 0 { OneBit(j - 1, k - 1); }
    else if k > 0 { NoBits(k - 1); }
  }

  lemma {:induction false} NoBits(k: nat)
    ensures !IsSet(0, k)
  {
    if k > 0 { NoBits(k - 1); }
  }

  /** Below top lies a frame from which a switch starts a process at entry, all registers clear
      and interrupts enabled; the word above it is where the process returns to. */
  predicate FirstFrame(m: Memory, top: int, entry: int, exit: int) {
    && Restored(m, top - FRAME) == Regs(0, 0, 0, 0, FIRST_FLAGS, top - 4, entry)
    && Load(m, top - 4) == exit
  }

  /** The memories differ at most on the length bytes from base on. */
  ghost predicate SameBut(m: Memory, m': Memory, base: int, length: int) {
    forall a | !(base <= a < base + length) :: Load(m', a) == Load(m, a)
  }

  class Cpu {
    var edi: int
    var esi: int
    var ebx: int
    var ebp: int
    var eflags: int
    var esp: int
    var eip: int
    var eax: int
    var edx: int
    var mem: Memory

    ghost function View(): Machine
      reads this
    {
      Machine(Regs(edi, esi, ebx, ebp, eflags, esp, eip), mem)
    }

    constructor (s: Machine)
      ensures View() == s
    {
      edi, esi, ebx, ebp, eflags := s.regs.edi, s.regs.esi, s.regs.ebx, s.regs.ebp, s.regs.eflags;
      esp, eip, mem := s.regs.esp, s.regs.eip, s.mem;
      eax, edx := 0, 0;
    }

    method Push(x: int)
      modifies this`esp, this`mem
      ensures esp == old(esp) - 4 && mem == old(mem)[old(esp) - 4 := x]
    {
      esp := esp - 4;
      mem := mem[esp := x];
    }

    method Pop() returns (x: int)
      modifies this`esp
      ensures x == Load(mem, old(esp)) && esp == old(esp) + 4
    {
      x := Load(mem, esp);
      esp := esp + 4;
    }

    method SwitchContext()
      modifies this
      ensures View() == Switch(old(View()))
    {
      PushSaved();
      eax := Load(mem, esp + 24);
      mem := mem[eax + STACK_PTR := esp];
      edx := Load(mem, esp + 28);
      esp := Load(mem, edx + STACK_PTR);
      PopSaved();
    }

    method PushSaved()
      modifies this`esp, this`mem
      ensures mem == Pushed(old(View())) && esp == old(esp) - 20
    {
      Push(eflags);
      Push(ebp);
      Push(ebx);
      Push(esi);
      Push(edi);
    }

    method PopSaved()
      modifies this`edi, this`esi, this`ebx, this`ebp, this`eflags, this`eip, this`esp
      ensures View() == Machine(Restored(mem, old(esp)), old(mem))
    {
      edi := Pop();
      esi := Pop();
      ebx := Pop();
      ebp := Pop();
      eflags := Pop();
      eip := Pop();
    }

    /** arch_proc_prepare_stack */
    method PrepareStack(entry: int, exit: int, stackStart: int) returns (frame: int)
      modifies this`mem
      ensures frame == stackStart - FRAME && FirstFrame(mem, stackStart, entry, exit)
      ensures SameBut(old(mem), mem, frame, FRAME)
    {
      frame := stackStart - FRAME;
      Store(frame, 0);
      Store(frame + 4, 0);
      Store(frame + 8, 0);
      Store(frame + 12, 0);
      Store(frame + 16, FIRST_FLAGS);
      Store(frame + 20, entry);
      Store(frame + 24, exit);
    }

    method Store(a: int, x: int)
      modifies this`mem
      ensures Load(mem, a) == x && forall b | b != a :: Load(mem, b) == Load(old(mem), b)
    {
      mem := mem[a := x];
    }

    /** proc_create_process: stackEnd is what vmm_alloc_page returned, 0 for no page. */
    method CreateProcess(entry: int, exit: int, stackEnd: int) returns (stack: int)
      modifies this`mem
      ensures stackEnd == 0 ==> stack == 0 && mem == old(mem)
      ensures stackEnd != 0 ==>
        && stack == stackEnd + PAGE - FRAME && FirstFrame(mem, stackEnd + PAGE, entry, exit)
        && SameBut(old(mem), mem, stackEnd, PAGE)
    {
      if stackEnd == 0 {
        return 0;
      }
      stack := PrepareStack(entry, exit, stackEnd + PAGE);
    }
  }

  // -------------------------------------------------------------------- runs

  /** Where each process has its control block and its stack page, and the spare block that a
      switch without return saves to. */
  datatype Layout = Layout(pcb: map<int, int>, page: map<int, int>, helper: int)

  predicate OnPage(l: Layout, p: int, a: int)
    requires p in l.page
  {
    l.page[p] <= a < l.page[p] + PAGE
  }

  /** Different processes have different blocks and stack pages; no block lies on a stack. */
  ghost predicate LayoutOk(l: Layout) {
    && l.pcb.Keys == l.page.Keys
    && (forall p, q | p in l.page && q in l.page && p != q ::
          l.pcb[p] != l.pcb[q] && (l.page[p] + PAGE <= l.page[q] || l.page[q] + PAGE <= l.page[p]))
    && (forall p, q | p in l.page && q in l.page :: !OnPage(l, p, l.pcb[q] + STACK_PTR))
    && (forall p | p in l.page :: !OnPage(l, p, l.helper + STACK_PTR) && l.pcb[p] != l.helper)
  }

  datatype State = State(machine: Machine, running: int)

  /** The running process computes: it leaves other stacks and all saved stack pointers. */
  ghost predicate Computes(l: Layout, s: State, s': State) {
    && s.running in l.page && s'.running == s.running
    && var m, m' := s.machine.mem, s'.machine.mem;
      && (forall q, a | q in l.page && q != s.running && OnPage(l, q, a) :: Load(m', a) == Load(m, a))
      && (forall q | q in l.pcb :: Load(m', l.pcb[q] + STACK_PTR) == Load(m, l.pcb[q] + STACK_PTR))
  }

  /** The block the switch about to happen saves the stack pointer to. */
  function Prev(s: State): int { Load(s.machine.mem, s.machine.regs.esp + 4) }

  /** The running process has called the switch to another one, on its own stack: to come back
      later, or, with the spare block, for good. */
  ghost predicate CallsSwitch(l: Layout, s: State, next: int) {
    && s.running in l.page && s.running in l.pcb && next in l.page && next in l.pcb && next != s.running
    && OnPage(l, s.running, s.machine.regs.esp - 20) && OnPage(l, s.running, s.machine.regs.esp + 8)
    && (Prev(s) == l.pcb[s.running] || Prev(s) == l.helper)
    && Load(s.machine.mem, s.machine.regs.esp + 8) == l.pcb[next]
  }

  ghost predicate Switches(l: Layout, s: State, s': State, next: int) {
    CallsSwitch(l, s, next) && s' == State(Switch(s.machine), next)
  }

  ghost predicate Step(l: Layout, s: State, s': State) { Computes(l, s, s') || Switches(l, s, s', s'.running) }

  ghost predicate IsRun(l: Layout, states: seq<State>) {
    forall i: nat {:trigger Step(l, states[i], states[i + 1])} | i + 1 < |states| :: Step(l, states[i], states[i + 1])
  }

  /** Process p is suspended with its frame at sp on its own stack page. */
  ghost predicate Saved(l: Layout, m: Memory, p: int, sp: int)
    requires p in l.page && p in l.pcb
  {
    Load(m, l.pcb[p] + STACK_PTR) == sp && OnPage(l, p, sp) && OnPage(l, p, sp + 23)
  }

  /** Nothing on p's stack page, nor its saved stack pointer, differs. */
  ghost predicate SameStack(l: Layout, m: Memory, m': Memory, p: int)
    requires p in l.page && p in l.pcb
  {
    && (forall a | OnPage(l, p, a) :: Load(m', a) == Load(m, a))
    && Load(m', l.pcb[p] + STACK_PTR) == Load(m, l.pcb[p] + STACK_PTR)
  }

  lemma PushedElsewhere(s: Machine, a: int)
    requires a < s.regs.esp - 20 || s.regs.esp <= a
    ensures Load(Pushed(s), a) == Load(s.mem, a)
  {}

  /** The words pushed have the order of struct sched_frame, the return address above them. */
  lemma FrameIsStruct(s: Machine)
    ensures var m, sp := Pushed(s), s.regs.esp - 20;
      && Load(m, sp) == s.regs.edi && Load(m, sp + 4) == s.regs.esi && Load(m, sp + 8) == s.regs.ebx
      && Load(m, sp + 12) == s.regs.ebp && Load(m, sp + 16) == s.regs.eflags
      && Load(m, sp + 20) == Load(s.mem, s.regs.esp)
  {}

  /** What a switch writes: below esp on the running stack, and the block it saves to. */
  lemma SwitchWrites(l: Layout, s: State, next: int)
    requires LayoutOk(l) && CallsSwitch(l, s, next)
    ensures var m := Switch(s.machine).mem; var esp := s.machine.regs.esp;
      && m == Pushed(s.machine)[Prev(s) + 8 := esp - 20]
      && Switch(s.machine).regs == Restored(m, Load(s.machine.mem, l.pcb[next] + 8))
    ensures forall q | q in l.page && q != s.running :: SameStack(l, s.machine.mem, Switch(s.machine).mem, q)
  {
    SwitchIs(l, s, next);
    forall q | q in l.page && q != s.running ensures SameStack(l, s.machine.mem, Switch(s.machine).mem, q) {
      SwitchSpares(l, s, next, q);
    }
  }

  lemma SwitchIs(l: Layout, s: State, next: int)
    requires LayoutOk(l) && CallsSwitch(l, s, next)
    ensures var m := Switch(s.machine).mem; var esp := s.machine.regs.esp;
      && m == Pushed(s.machine)[Prev(s) + STACK_PTR := esp - 20]
      && Switch(s.machine).regs == Restored(m, Load(s.machine.mem, l.pcb[next] + STACK_PTR))
  {
    assert !OnPage(l, s.running, Prev(s) + STACK_PTR) && !OnPage(l, s.running, l.pcb[next] + STACK_PTR);
    assert Prev(s) != l.pcb[next];
    SwitchShape(s.machine, Prev(s), l.pcb[next]);
  }

  lemma SwitchShape(s: Machine, prev: int, next: int)
    requires Load(s.mem, s.regs.esp + 4) == prev && Load(s.mem, s.regs.esp + 8) == next
    requires prev != next && prev + STACK_PTR != s.regs.esp + 8
    requires next + STACK_PTR < s.regs.esp - 20 || s.regs.esp <= next + STACK_PTR
    ensures Switch(s).mem == Pushed(s)[prev + STACK_PTR := s.regs.esp - 20]
    ensures Switch(s).regs == Restored(Switch(s).mem, Load(s.mem, next + STACK_PTR))
  {
    PushedElsewhere(s, s.regs.esp + 4);
    PushedElsewhere(s, s.regs.esp + 8);
    PushedElsewhere(s, next + STACK_PTR);
  }

  lemma SwitchSpares(l: Layout, s: State, next: int, q: int)
    requires LayoutOk(l) && CallsSwitch(l, s, next) && q in l.page && q != s.running
    requires Switch(s.machine).mem == Pushed(s.machine)[Prev(s) + STACK_PTR := s.machine.regs.esp - 20]
    ensures SameStack(l, s.machine.mem, Switch(s.machine).mem, q)
  {
    assert !OnPage(l, q, Prev(s) + STACK_PTR) && !OnPage(l, s.running, l.pcb[q] + STACK_PTR);
    assert Prev(s) != l.pcb[q];
    PushedElsewhere(s.machine, l.pcb[q] + STACK_PTR);
    forall a | OnPage(l, q, a) ensures Load(Switch(s.machine).mem, a) == Load(s.machine.mem, a) {
      PushedElsewhere(s.machine, a);
    }
  }

  /** A process that is switched away from is saved with the registers its caller will see. */
  lemma SuspendSaves(l: Layout, s: State, next: int)
    requires LayoutOk(l) && CallsSwitch(l, s, next) && Prev(s) == l.pcb[s.running]
    ensures var m, sp := Switch(s.machine).mem, s.machine.regs.esp - 20;
      Saved(l, m, s.running, sp) && Restored(m, sp) == Caller(s.machine)
  {
    SwitchWrites(l, s, next);
    assert !OnPage(l, s.running, l.pcb[s.running] + STACK_PTR);
  }

  lemma StepKeepsStack(l: Layout, s: State, s': State, p: int)
    requires LayoutOk(l) && Step(l, s, s') && p in l.page && p != s.running
    ensures SameStack(l, s.machine.mem, s'.machine.mem, p)
  {
    if !Computes(l, s, s') { SwitchWrites(l, s, s'.running); }
  }

  /** While a process does not run, every step of everybody else leaves its stack alone. */
  lemma {:induction false} RunKeepsStack(l: Layout, states: seq<State>, p: int, i: nat, j: nat)
    requires LayoutOk(l) && IsRun(l, states) && p in l.page && i <= j < |states|
    requires forall k | i <= k < j :: states[k].running != p
    ensures SameStack(l, states[i].machine.mem, states[j].machine.mem, p)
  {
    if i < j {
      RunKeepsStack(l, states, p, i, j - 1);
      var k: nat := j - 1;
      assert Step(l, states[k], states[k + 1]);
      StepKeepsStack(l, states[k], states[j], p);
    }
  }

  lemma SavedCarriesOver(l: Layout, m: Memory, m': Memory, p: int, sp: int)
    requires LayoutOk(l) && p in l.page && Saved(l, m, p, sp) && SameStack(l, m, m', p)
    ensures Saved(l, m', p, sp) && Restored(m', sp) == Restored(m, sp)
  {}

  /** A process suspended at step i and resumed at step j continues, whatever ran in between,
      with exactly the registers and the return address it had. */
  lemma ResumesWhereItStopped(l: Layout, states: seq<State>, p: int, i: nat, j: nat)
    requires LayoutOk(l) && IsRun(l, states) && i + 1 <= j && j + 1 < |states|
    requires states[i].running == p && Switches(l, states[i], states[i + 1], states[i + 1].running)
    requires Prev(states[i]) == l.pcb[p]
    requires forall k | i < k <= j :: states[k].running != p
    requires Switches(l, states[j], states[j + 1], p)
    ensures states[j + 1].machine.regs == Caller(states[i].machine)
  {
    var sp := states[i].machine.regs.esp - 20;
    SuspendSaves(l, states[i], states[i + 1].running);
    RunKeepsStack(l, states, p, i + 1, j);
    SavedCarriesOver(l, states[i + 1].machine.mem, states[j].machine.mem, p, sp);
    SwitchWrites(l, states[j], p);
    SavedCarriesOver(l, states[j].machine.mem, states[j + 1].machine.mem, p, sp);
  }

  /** A process saved at sp since the first state resumes from that frame. */
  lemma ResumesFromFrame(l: Layout, states: seq<State>, p: int, sp: int, j: nat)
    requires LayoutOk(l) && IsRun(l, states) && p in l.page && j + 1 < |states|
    requires Saved(l, states[0].machine.mem, p, sp)
    requires forall k | 0 <= k <= j :: states[k].running != p
    requires Switches(l, states[j], states[j + 1], p)
    ensures states[j + 1].machine.regs == Restored(states[0].machine.mem, sp)
    ensures forall a | OnPage(l, p, a) :: Load(states[j + 1].machine.mem, a) == Load(states[0].machine.mem, a)
  {
    RunKeepsStack(l, states, p, 0, j);
    SavedCarriesOver(l, states[0].machine.mem, states[j].machine.mem, p, sp);
    SwitchWrites(l, states[j], p);
    SavedCarriesOver(l, states[j].machine.mem, states[j + 1].machine.mem, p, sp);
  }

  /** p's stack page holds a first frame and its block leads to it. */
  ghost predicate Created(l: Layout, m: Memory, p: int, entry: int, exit: int)
    requires p in l.page && p in l.pcb
  {
    var top := l.page[p] + PAGE;
    FirstFrame(m, top, entry, exit) && Load(m, l.pcb[p] + STACK_PTR) == top - FRAME
  }

  /** Creating a process on a fresh stack page and storing its stack pointer in a fresh block
      makes it ready to be switched to, and leaves every other process as it was. */
  lemma CreatedFrame(l: Layout, m: Memory, m': Memory, p: int, entry: int, exit: int)
    requires LayoutOk(l) && p in l.page
    requires FirstFrame(m', l.page[p] + PAGE, entry, exit) && SameBut(m, m', l.page[p], PAGE)
    ensures var top := l.page[p] + PAGE; var t := m'[l.pcb[p] + STACK_PTR := top - FRAME];
      && Created(l, t, p, entry, exit) && Saved(l, t, p, top - FRAME)
      && forall q | q in l.page && q != p :: SameStack(l, m, t, q)
  {
    var top, block := l.page[p] + PAGE, l.pcb[p] + STACK_PTR;
    assert !OnPage(l, p, block);
    FrameUntouched(m', top, entry, exit, block, top - FRAME);
    forall q | q in l.page && q != p ensures SameStack(l, m, m'[block := top - FRAME], q) {
      assert !OnPage(l, q, block) && !OnPage(l, p, l.pcb[q] + STACK_PTR) && l.pcb[q] != l.pcb[p];
    }
  }

  lemma FrameUntouched(m: Memory, top: int, entry: int, exit: int, a: int, x: int)
    requires FirstFrame(m, top, entry, exit) && !(top - FRAME <= a < top)
    ensures FirstFrame(m[a := x], top, entry, exit)
  {
    forall b | top - FRAME <= b < top ensures Load(m[a := x], b) == Load(m, b) {}
  }

  /** A new process first runs at its entry with interrupts enabled and all other registers
      clear, and the word its return will take is the address of the exit routine. */
  lemma StartsAtEntry(l: Layout, states: seq<State>, p: int, entry: int, exit: int, j: nat)
    requires LayoutOk(l) && IsRun(l, states) && p in l.page && j + 1 < |states|
    requires Created(l, states[0].machine.mem, p, entry, exit)
    requires forall k | 0 <= k <= j :: states[k].running != p
    requires Switches(l, states[j], states[j + 1], p)
    ensures var s := states[j + 1].machine;
      && s.regs == Regs(0, 0, 0, 0, FIRST_FLAGS, l.page[p] + PAGE - 4, entry) && Load(s.mem, s.regs.esp) == exit
      && forall k: nat :: IsSet(FIRST_FLAGS, k) <==> k == 1 || k == 9
  {
    forall k: nat ensures IsSet(FIRST_FLAGS, k) <==> k == 1 || k == 9 { FirstFlagsAre(k); }
    var top := l.page[p] + PAGE;
    ResumesFromFrame(l, states, p, top - FRAME, j);
    assert OnPage(l, p, top - 4);
  }
}
