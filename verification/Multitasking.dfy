/** Preemption as a whole: the interrupt stub, interrupt_dispatch and schelude over tasks that share one memory. */
module Multitasking {
  import opened ByteMemory
  import opened Context
  import opened Scheduler

  const TIMER_INTERRUPT := 0x20
  const NOBODY := -1

  // Which task a byte of memory belongs to, and where the stack of each task ends.
  datatype Layout = Layout(owner: nat -> int, stackLow: seq<nat>)

  datatype System = System(cpu: Cpu, mem: Bytes, contexts: seq<Word>, current: nat)

  // An event is one step of the running task, after which the processor and memory are as given, or one
  // timer interrupt, with the memory that the C code behind the stub leaves.
  datatype Event = Work(cpu: Cpu, mem: Bytes) | Tick(mem: Bytes)

  ghost predicate Owns(l: Layout, i: nat, from: nat, to: nat)
  {
    forall x: nat :: from <= x < to ==> l.owner(x) == i
  }

  // There is room for an interrupt frame in the stack of task i below rsp.
  ghost predicate Room(l: Layout, i: nat, rsp: nat)
    requires i < |l.stackLow|
  {
    && FRAME <= Aligned(rsp)
    && l.stackLow[i] <= FrameAt(rsp)
    && Owns(l, i, FrameAt(rsp), FrameAt(rsp) + FRAME)
  }

  ghost predicate Valid(l: Layout, s: System)
  {
    && s.current < |s.contexts| == |l.stackLow|
    && Room(l, s.current, s.cpu.rsp)
    && forall i :: 0 <= i < |s.contexts| && i != s.current ==> Suspended(l, s, i)
  }

  ghost predicate Suspended(l: Layout, s: System, i: nat)
    requires i < |s.contexts| == |l.stackLow|
  {
    && s.contexts[i] + FRAME < WORD_LIMIT
    && Owns(l, i, s.contexts[i], s.contexts[i] + FRAME)
    && Room(l, i, Resumed(s.mem, s.contexts[i]).rsp)
  }

  // Memory when the stub calls interrupt_dispatch.
  function Entered(s: System): Bytes
    requires FRAME <= Aligned(s.cpu.rsp)
  {
    Pushed(s.mem, Aligned(s.cpu.rsp), FrameWords(s.cpu, TIMER_INTERRUPT, 0))
  }

  // Tasks write only what is theirs or nobody's and leave room for an interrupt frame; the C code uses
  // the stack of the interrupted task below the frame, and memory that is nobody's.
  ghost predicate Allowed(l: Layout, s: System, e: Event)
    requires Valid(l, s)
  {
    match e
    case Work(cpu, mem) =>
      && Room(l, s.current, cpu.rsp)
      && forall x: nat :: l.owner(x) != s.current && l.owner(x) != NOBODY ==> mem(x) == s.mem(x)
    case Tick(mem) =>
      forall x: nat :: l.owner(x) != NOBODY
          && !(l.owner(x) == s.current && l.stackLow[s.current] <= x < FrameAt(s.cpu.rsp))
        ==> mem(x) == Entered(s)(x)
  }

  function Step(s: System, e: Event): System
    requires s.current < |s.contexts| && FRAME <= Aligned(s.cpu.rsp)
  {
    match e
    case Work(cpu, mem) => s.(cpu := cpu, mem := mem)
    case Tick(mem) =>
      var contexts := s.contexts[s.current := FrameAt(s.cpu.rsp)];
      var next := (s.current + 1) % |s.contexts|;
      System(Resumed(mem, contexts[next]), mem, contexts, next)
  }

  // ---------------------------------------------------------------------------------------------
  // The machine that the tasks believe in: each has a processor of its own

  datatype Machine = Machine(cpus: seq<Cpu>, current: nat)

  function CpuOf(s: System, i: nat): Cpu
    requires i < |s.contexts|
  {
    if i == s.current then s.cpu else Resumed(s.mem, s.contexts[i])
  }

  function Abstract(s: System): Machine {
    Machine(seq(|s.contexts|, i requires 0 <= i < |s.contexts| => CpuOf(s, i)), s.current)
  }

  // Work changes the processor of the task whose turn it is; a tick changes whose turn it is.
  function AbstractStep(m: Machine, e: Event): Machine
    requires m.current < |m.cpus|
  {
    match e
    case Work(cpu, _) => m.(cpus := m.cpus[m.current := cpu])
    case Tick(_) => m.(current := (m.current + 1) % |m.cpus|)
  }

  lemma EnteredFrame(l: Layout, s: System)
    requires Valid(l, s)
    ensures Resumed(Entered(s), FrameAt(s.cpu.rsp)) == s.cpu
    ensures SameOutside(s.mem, Entered(s), FrameAt(s.cpu.rsp), FrameAt(s.cpu.rsp) + FRAME)
    ensures FrameAt(s.cpu.rsp) + FRAME <= s.cpu.rsp
  {
    hide Pushed, Resumed, SameOutside, FrameWords, Aligned, StatusAt, Saved;
    WordCounts(s.cpu, TIMER_INTERRUPT, 0);
    FrameIsAligned(s.cpu.rsp);
    FrameIsStatus(s.mem, Aligned(s.cpu.rsp), s.cpu, TIMER_INTERRUPT, 0);
    PushedOutside(s.mem, Aligned(s.cpu.rsp), FrameWords(s.cpu, TIMER_INTERRUPT, 0));
  }

  // What another task i owns is out of reach of the running task and of a tick that interrupts it.
  lemma OthersAreKept(l: Layout, s: System, e: Event, x: nat)
    requires Valid(l, s) && Allowed(l, s, e) && l.owner(x) != s.current && l.owner(x) != NOBODY
    ensures Step(s, e).mem(x) == s.mem(x)
  {
    hide Pushed, Resumed, Entered;
    if e.Tick? {
      EnteredFrame(l, s);
    }
  }

  lemma SuspendedStays(l: Layout, s: System, e: Event, i: nat)
    requires Valid(l, s) && Allowed(l, s, e) && i < |s.contexts| && i != s.current
    ensures Resumed(Step(s, e).mem, s.contexts[i]) == Resumed(s.mem, s.contexts[i])
  {
    hide Resumed, Step, Allowed, StatusAt, Aligned;
    assert Suspended(l, s, i);
    forall x: nat | s.contexts[i] <= x < s.contexts[i] + FRAME
      ensures Step(s, e).mem(x) == s.mem(x)
    {
      OthersAreKept(l, s, e, x);
    }
    SameStructure(s.mem, Step(s, e).mem, s.contexts[i]);
  }

  // The frame of the interrupted task survives the C code.
  lemma FrameSurvives(l: Layout, s: System, e: Event)
    requires Valid(l, s) && Allowed(l, s, e) && e.Tick?
    ensures Resumed(e.mem, FrameAt(s.cpu.rsp)) == s.cpu
  {
    hide Resumed, Pushed, StatusAt, Entered;
    EnteredFrame(l, s);
    SameStructure(Entered(s), e.mem, FrameAt(s.cpu.rsp));
  }

  lemma SuspendedAfter(l: Layout, s: System, e: Event, i: nat)
    requires Valid(l, s) && Allowed(l, s, e) && i < |s.contexts| && i != Step(s, e).current
    ensures Suspended(l, Step(s, e), i) && CpuOf(Step(s, e), i) == CpuOf(s, i)
  {
    hide Resumed, Pushed, Entered, Owns, Aligned, Allowed;
    StepCurrent(s, e);
    if i != s.current {
      assert Suspended(l, s, i);
      SuspendedStays(l, s, e, i);
    } else {
      FrameSurvives(l, s, e);
      EnteredFrame(l, s);
    }
  }

  lemma CurrentAfter(l: Layout, s: System, e: Event)
    requires Valid(l, s) && Allowed(l, s, e)
    ensures var i := Step(s, e).current; var cpu := Step(s, e).cpu;
            && i < |s.contexts| && Room(l, i, cpu.rsp)
            && cpu == if e.Work? then e.cpu else CpuOf(s, i)
  {
    hide Resumed, Pushed, Entered, Owns, Aligned;
    StepCurrent(s, e);
    if e.Tick? {
      var i := Step(s, e).current;
      if i != s.current {
        assert Suspended(l, s, i);
        SuspendedStays(l, s, e, i);
      } else {
        FrameSurvives(l, s, e);
      }
    }
  }

  lemma StepCurrent(s: System, e: Event)
    requires s.current < |s.contexts| && FRAME <= Aligned(s.cpu.rsp)
    ensures Step(s, e).current == if e.Work? then s.current else (s.current + 1) % |s.contexts|
    ensures |Step(s, e).contexts| == |s.contexts| && Step(s, e).current < |s.contexts|
  {
    hide Resumed, Aligned;
  }

  // No task notices that there are others.
  lemma StepRefines(l: Layout, s: System, e: Event)
    requires Valid(l, s) && Allowed(l, s, e)
    ensures Valid(l, Step(s, e))
    ensures Abstract(Step(s, e)) == AbstractStep(Abstract(s), e)
  {
    hide Suspended, Room, Allowed, Aligned, Step, CpuOf;
    Bounds(l, s);
    var s' := Step(s, e);
    StepCurrent(s, e);
    CurrentAfter(l, s, e);
    forall i | 0 <= i < |s.contexts| && i != s'.current
      ensures Suspended(l, s', i) && CpuOf(s', i) == CpuOf(s, i)
    {
      SuspendedAfter(l, s, e, i);
    }
    CurrentCpu(s);
    CurrentCpu(s');
    var m := AbstractStep(Abstract(s), e);
    assert forall i :: 0 <= i < |s.contexts| ==> CpuOf(s', i) == m.cpus[i];
  }

  lemma CurrentCpu(s: System)
    requires s.current < |s.contexts|
    ensures CpuOf(s, s.current) == s.cpu
  {
  }

  lemma Bounds(l: Layout, s: System)
    requires Valid(l, s)
    ensures s.current < |s.contexts| == |l.stackLow| && FRAME <= Aligned(s.cpu.rsp)
  {
  }

  // ---------------------------------------------------------------------------------------------
  // Runs

  function Run(s: System, events: seq<Event>): System
    requires RunIsDefined(s, events)
    decreases |events|
  {
    if events == [] then s else Run(Step(s, events[0]), events[1..])
  }

  predicate RunIsDefined(s: System, events: seq<Event>)
    decreases |events|
  {
    events == [] || (s.current < |s.contexts| && FRAME <= Aligned(s.cpu.rsp)
        && RunIsDefined(Step(s, events[0]), events[1..]))
  }

  // Every step of the run is allowed where it happens. That the system stays valid, so that the next step
  // makes sense, is what StepRefines proves.
  ghost predicate AllowedRun(l: Layout, s: System, events: seq<Event>)
    requires Valid(l, s)
    decreases |events|
  {
    events == [] ||
    (Allowed(l, s, events[0]) && (Valid(l, Step(s, events[0])) ==> AllowedRun(l, Step(s, events[0]), events[1..])))
  }

  // Task i does nothing of its own during the run.
  predicate Waits(i: nat, current: nat, n: nat, events: seq<Event>)
    requires current < n
    decreases |events|
  {
    events == [] ||
    if events[0].Work? then i != current && Waits(i, current, n, events[1..])
    else Waits(i, (current + 1) % n, n, events[1..])
  }

  function Ticks(events: seq<Event>): nat {
    if events == [] then 0 else (if events[0].Tick? then 1 else 0) + Ticks(events[1..])
  }

  // Bytes of task i that it may rely on: all of its own but the free part of its stack.
  predicate Relied(l: Layout, i: nat, cpu: Cpu, x: nat)
    requires i < |l.stackLow|
  {
    l.owner(x) == i && !(l.stackLow[i] <= x < Aligned(cpu.rsp))
  }

  lemma {:induction false} RunIsAllowed(l: Layout, s: System, events: seq<Event>)
    requires Valid(l, s) && AllowedRun(l, s, events)
    ensures RunIsDefined(s, events) && Valid(l, Run(s, events))
    ensures |Run(s, events).contexts| == |s.contexts|
    ensures Run(s, events).current == Turn(s.current, Ticks(events), |s.contexts|)
    decreases |events|
  {
    hide Valid, Allowed, Abstract, AbstractStep, Step, Aligned, Turn;
    Bounds(l, s);
    if events == [] {
      TurnIs(s.current, 0, |s.contexts|);
    } else {
      if events[0].Tick? {
        TurnStep(s.current, Ticks(events), |s.contexts|);
      }
      StepRefines(l, s, events[0]);
      StepCurrent(s, events[0]);
      RunIsAllowed(l, Step(s, events[0]), events[1..]);
    }
  }

  // A byte that a task relies on keeps its value while the task waits.
  lemma ReliedIsKept(l: Layout, s: System, e: Event, i: nat, x: nat)
    requires Valid(l, s) && Allowed(l, s, e) && i < |s.contexts| && (i == s.current ==> e.Tick?)
    requires Relied(l, i, CpuOf(s, i), x)
    ensures Step(s, e).mem(x) == s.mem(x)
  {
    hide Resumed, Pushed, Entered;
    if i != s.current {
      OthersAreKept(l, s, e, x);
    } else {
      EnteredFrame(l, s);
      FrameIsAligned(s.cpu.rsp);
    }
  }

  lemma StepWhileWaiting(l: Layout, s: System, e: Event, i: nat)
    requires Valid(l, s) && Allowed(l, s, e) && i < |s.contexts| && (i == s.current ==> e.Tick?)
    ensures Step(s, e).current < |Step(s, e).contexts| == |s.contexts| && CpuOf(Step(s, e), i) == CpuOf(s, i)
  {
    hide Resumed, Valid, Allowed, Step;
    Bounds(l, s);
    StepRefines(l, s, e);
    assert Abstract(Step(s, e)).cpus[i] == Abstract(s).cpus[i];
  }

  // A task that waits, from before the tick that preempts it to after the tick that gives it its turn
  // back, finds every register and every byte it relies on as they were.
  lemma {:induction false} WaitingChangesNothing(l: Layout, s: System, events: seq<Event>, i: nat)
    requires Valid(l, s) && AllowedRun(l, s, events) && i < |s.contexts| && Waits(i, s.current, |s.contexts|, events)
    ensures RunIsDefined(s, events) && |Run(s, events).contexts| == |s.contexts|
    ensures CpuOf(Run(s, events), i) == CpuOf(s, i)
    ensures forall x: nat :: Relied(l, i, CpuOf(s, i), x) ==> Run(s, events).mem(x) == s.mem(x)
    decreases |events|
  {
    hide Valid, Allowed, Resumed, CpuOf, Relied, Step, Abstract;
    Bounds(l, s);
    RunIsAllowed(l, s, events);
    if events != [] {
      var s' := Step(s, events[0]);
      StepRefines(l, s, events[0]);
      StepWhileWaiting(l, s, events[0], i);
      StepCurrent(s, events[0]);
      WaitingChangesNothing(l, s', events[1..], i);
      forall x: nat | Relied(l, i, CpuOf(s, i), x)
        ensures s'.mem(x) == s.mem(x)
      {
        ReliedIsKept(l, s, events[0], i, x);
      }
    }
  }

  // In particular the running task gets the processor back after n ticks, exactly as it was when the
  // first of them interrupted it.
  lemma PreemptedTaskResumes(l: Layout, s: System, events: seq<Event>)
    requires Valid(l, s) && AllowedRun(l, s, events) && Waits(s.current, s.current, |s.contexts|, events)
    requires Ticks(events) == |s.contexts|
    ensures RunIsDefined(s, events)
    ensures Run(s, events).current == s.current && Run(s, events).cpu == s.cpu
    ensures forall x: nat :: Relied(l, s.current, s.cpu, x) ==> Run(s, events).mem(x) == s.mem(x)
  {
    hide Valid, Allowed, Resumed, Relied, Step, Abstract;
    Bounds(l, s);
    RunIsAllowed(l, s, events);
    EachTaskOnce(s.current, |s.contexts|, s.current);
    WaitingChangesNothing(l, s, events, s.current);
  }

  // ---------------------------------------------------------------------------------------------
  // The code that makes these steps

  ghost function SystemOf(p: Processor, s: RoundRobin): System
    reads p, s, s.snapshots
  {
    System(p.cpu, p.mem, s.View().contexts, s.currentTask)
  }

  // Exceptions stop the machine, the timer switches tasks, every other vector goes back where it came from.
  method InterruptDispatch(p: Processor, s: RoundRobin, context: Word) returns (halted: bool, next: Word)
    requires s.Valid()
    modifies s`currentTask, s.snapshots
    ensures s.Valid() && s.snapshots == old(s.snapshots)
    ensures var vector := StatusAt(p.mem, context).vectorNumber % 256;
            && (halted <==> vector < 0x20)
            && s.View() == (if vector == 0x20 then Scheduled(old(s.View()), context) else old(s.View()))
            && next == if vector == 0x20 then s.View().contexts[s.View().current] else context
  {
    hide Field, Scheduled;
    var interruptNumber := Field(p.mem, context, 15) % 256;
    next := context;
    if interruptNumber < 0x20 {
      return true, next;
    }
    if interruptNumber == TIMER_INTERRUPT {
      next := s.Schelude(context);
    }
    halted := false;
  }

  // A whole timer interrupt; `scratch` is memory as the C code leaves it.
  method TimerInterrupt(p: Processor, s: RoundRobin, scratch: Bytes, ghost l: Layout)
    requires s.Valid() && Valid(l, SystemOf(p, s)) && Allowed(l, SystemOf(p, s), Tick(scratch))
    modifies p, s`currentTask, s.snapshots
    ensures s.Valid() && SystemOf(p, s) == Step(old(SystemOf(p, s)), Tick(scratch))
  {
    hide Resumed, StatusAt, Pushed, Aligned, Allowed, Room, Owns;
    ghost var before := SystemOf(p, s);
    Bounds(l, before);
    NextFits(l, before, Tick(scratch));
    p.EnterRoutine(TIMER_INTERRUPT, None);
    var _, next := InterruptDispatch(p, s, p.cpu.rdi);
    p.mem := scratch;
    p.LeaveRoutine(next);
  }

  lemma NextFits(l: Layout, s: System, e: Event)
    requires Valid(l, s) && Allowed(l, s, e) && e.Tick?
    ensures var after := Step(s, e);
            after.current < |after.contexts| && after.contexts[after.current] + FRAME < WORD_LIMIT
  {
    hide Resumed, Pushed, Aligned, Room, Owns, Allowed;
    Bounds(l, s);
    StepCurrent(s, e);
    EnteredFrame(l, s);
    var i := Step(s, e).current;
    if i != s.current {
      assert Suspended(l, s, i);
    }
  }

  // Any other interrupt that does not stop the machine: the interrupted code goes on as if nothing had
  // happened, provided that what the C code does to memory leaves the saved structure alone.
  method OtherInterrupt(p: Processor, s: RoundRobin, vector: Word, error: ErrorCode, cCode: Bytes -> Bytes)
    requires s.Valid() && FRAME <= Aligned(p.cpu.rsp) && TIMER_INTERRUPT < vector < 0x100
    requires forall m: Bytes, x: nat :: FrameAt(p.cpu.rsp) <= x < FrameAt(p.cpu.rsp) + FRAME ==> cCode(m)(x) == m(x)
    modifies p, s`currentTask, s.snapshots
    ensures s.Valid() && p.cpu == old(p.cpu) && s.View() == old(s.View())
  {
    hide Resumed, Pushed, Aligned, Scheduled, Field;
    FrameIsAligned(p.cpu.rsp);
    p.EnterRoutine(vector, error);
    var _, next := InterruptDispatch(p, s, p.cpu.rdi);
    SameStructure(p.mem, cCode(p.mem), p.cpu.rdi);
    p.mem := cCode(p.mem);
    p.LeaveRoutine(next);
  }
}
