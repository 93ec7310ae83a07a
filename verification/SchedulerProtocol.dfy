/** The threads of the scheduler simulation as a state machine: one scheduler thread, a generator, and
    one thread per process. Every lock, unlock, wait, wake-up, signal and guarded update is one step.
    Given a state and the thread that moves, the step is determined; a thread that waits for a mutex
    or for a signal has none. */
module SchedulerProtocol {
  import opened CfsArithmetic
  import opened Collections
  import opened RunQueueOrder

  datatype Thread = Scheduler | Generator | Process(id: nat)

  datatype RunState = Ready | Running

  // Where a process thread stands. The names say what it does next.
  datatype ProcessPc =
    | Unborn
    | TestLoop
    | LockQueueToAdd | Enqueue | UnlockQueueAdded
    | LockNeedNew | ClearWaiting | SignalNew | UnlockNeedNew
    | LockPcb | TestState | Asleep | Awake
    | LockQueueToRun | Consume | UnlockQueueRun
    | MakeReady | TestFinished
    | LockQueueToCount | CountDown | UnlockQueueCount
    | LockNeedDone | ClearRunning | SignalDone | UnlockNeedDone
    | UnlockPcb
    | Finished

  // Where the scheduler thread stands.
  datatype SchedulerPc =
    | Start | TestRemaining
    | LockNeed | TestFlags | SchedulerAsleep | SchedulerAwake
    | LockQueue | Pick | UnlockQueue | TestPicked
    | LockPicked | SetRunning | SignalPicked | UnlockPicked | SetHave
    | SetWaiting
    | UnlockNeed
    | Exited

  datatype GeneratorPc = Create | PollLock | PollUnlock

  datatype Proc = Proc(
    length: int, priority: Priority,
    pc: ProcessPc, state: RunState, lock: Option<Thread>,
    cpu: int, vruntime: real, switches: nat)

  datatype State = State(
    procs: seq<Proc>,
    need: Option<Thread>,    // holder of mutex_need_scheduling
    queue: Option<Thread>,   // holder of mutex_runqueue
    rq: seq<nat>,
    have: bool,              // have_running_process
    waiting: bool,           // waiting_for_new_process
    remaining: int,          // remaining_process_count
    sched: SchedulerPc,
    picked: Option<nat>,     // the scheduler's local pcb
    gen: GeneratorPc,
    born: nat)

  datatype Actor = Sched | Gen | Worker(id: nat) | SpuriousSched | SpuriousProc(id: nat)

  // ---------- Initial states ----------

  datatype Params = Params(length: int, priority: Priority)

  function Newborn(p: Params): Proc {
    Proc(p.length, p.priority, Unborn, Ready, None, 0, 0.0, 0)
  }

  function Init(ps: seq<Params>): State {
    State(seq(|ps|, i requires 0 <= i < |ps| => Newborn(ps[i])),
          None, None, [], false, true, 0, Start, None, Create, 0)
  }

  // ---------- The run queue ----------

  function Priorities(s: State, rq: seq<nat>): seq<Priority> {
    seq(|rq|, k requires 0 <= k < |rq| => if rq[k] < |s.procs| then s.procs[rq[k]].priority else 0)
  }

  function Keys(s: State): (keys: seq<real>)
    ensures |keys| == |s.rq|
  {
    seq(|s.rq|, k requires 0 <= k < |s.rq| => if s.rq[k] < |s.procs| then s.procs[s.rq[k]].vruntime else 0.0)
  }

  function SmallestPcb(s: State): Option<nat> {
    if s.rq == [] then None else Some(s.rq[SmallestIndex(Keys(s))])
  }

  // ---------- Steps of a process ----------

  function Goto(s: State, i: nat, pc: ProcessPc): State
    requires i < |s.procs|
  {
    s.(procs := s.procs[i := s.procs[i].(pc := pc)])
  }

  function AcquireQueue(s: State, i: nat, pc: ProcessPc): Option<State>
    requires i < |s.procs|
  {
    if s.queue == None then Some(Goto(s.(queue := Some(Process(i))), i, pc)) else None
  }

  function AcquireNeed(s: State, i: nat, pc: ProcessPc): Option<State>
    requires i < |s.procs|
  {
    if s.need == None then Some(Goto(s.(need := Some(Process(i))), i, pc)) else None
  }

  function AcquirePcb(s: State, i: nat): Option<State>
    requires i < |s.procs|
  {
    if s.procs[i].lock == None then
      Some(s.(procs := s.procs[i := s.procs[i].(lock := Some(Process(i)), pc := TestState)]))
    else None
  }

  function SignalScheduler(s: State): State {
    s.(sched := if s.sched == SchedulerAsleep then SchedulerAwake else s.sched)
  }

  // The slice computed after the process has left the queue, cut to what is left of its length.
  function CpuTime(s: State, i: nat): int
    requires i < |s.procs|
  {
    var p := s.procs[i];
    Min(p.length - p.cpu, Timeslice(GetWeight(p.priority), TotalWeight(Priorities(s, Remove<nat>(s.rq, i)))))
  }

  function Consumed(s: State, i: nat): Proc
    requires i < |s.procs|
  {
    var p, time := s.procs[i], CpuTime(s, i);
    p.(cpu := p.cpu + time, vruntime := p.vruntime + VirtualRuntime(p.priority, time),
       switches := p.switches + 1, pc := UnlockQueueRun)
  }

  function ProcessStep(s: State, i: nat): Option<State>
    requires i < |s.procs|
  {
    var p := s.procs[i];
    match p.pc
    case Unborn => None
    case TestLoop => Some(Goto(s, i, if p.length > p.cpu then LockQueueToAdd else Finished))
    case LockQueueToAdd => AcquireQueue(s, i, Enqueue)
    case Enqueue => Some(Goto(s.(rq := [i] + s.rq), i, UnlockQueueAdded))
    case UnlockQueueAdded => Some(Goto(s.(queue := None), i, LockNeedNew))
    case LockNeedNew => AcquireNeed(s, i, ClearWaiting)
    case ClearWaiting => Some(Goto(s.(waiting := if s.have then s.waiting else false), i, SignalNew))
    case SignalNew => Some(Goto(SignalScheduler(s), i, UnlockNeedNew))
    case UnlockNeedNew => Some(Goto(s.(need := None), i, LockPcb))
    case LockPcb => AcquirePcb(s, i)
    case TestState =>
      if p.state == Running then Some(Goto(s, i, LockQueueToRun))
      else Some(s.(procs := s.procs[i := p.(lock := None, pc := Asleep)]))
    case Asleep => None
    case Awake => AcquirePcb(s, i)
    case LockQueueToRun => AcquireQueue(s, i, Consume)
    case Consume => Some(s.(rq := Remove<nat>(s.rq, i), procs := s.procs[i := Consumed(s, i)]))
    case UnlockQueueRun => Some(Goto(s.(queue := None), i, MakeReady))
    case MakeReady => Some(s.(procs := s.procs[i := p.(state := Ready, pc := TestFinished)]))
    case TestFinished => Some(Goto(s, i, if p.length <= p.cpu then LockQueueToCount else LockNeedDone))
    case LockQueueToCount => AcquireQueue(s, i, CountDown)
    case CountDown => Some(Goto(s.(remaining := s.remaining - 1), i, UnlockQueueCount))
    case UnlockQueueCount => Some(Goto(s.(queue := None), i, LockNeedDone))
    case LockNeedDone => AcquireNeed(s, i, ClearRunning)
    case ClearRunning => Some(Goto(s.(have := false), i, SignalDone))
    case SignalDone => Some(Goto(SignalScheduler(s), i, UnlockNeedDone))
    case UnlockNeedDone => Some(Goto(s.(need := None), i, UnlockPcb))
    case UnlockPcb => Some(s.(procs := s.procs[i := p.(lock := None, pc := TestLoop)]))
    case Finished => None
  }

  // ---------- Steps of the scheduler ----------

  function SchedulerStep(s: State): Option<State> {
    match s.sched
    case Start => Some(s.(remaining := |s.procs|, sched := TestRemaining))
    case TestRemaining => Some(s.(sched := if s.remaining != 0 then LockNeed else Exited))
    case LockNeed => if s.need == None then Some(s.(need := Some(Scheduler), sched := TestFlags)) else None
    case TestFlags =>
      if s.have || s.waiting then Some(s.(need := None, sched := SchedulerAsleep)) else Some(s.(sched := LockQueue))
    case SchedulerAsleep => None
    case SchedulerAwake => if s.need == None then Some(s.(need := Some(Scheduler), sched := TestFlags)) else None
    case LockQueue => if s.queue == None then Some(s.(queue := Some(Scheduler), sched := Pick)) else None
    case Pick => Some(s.(picked := SmallestPcb(s), sched := UnlockQueue))
    case UnlockQueue => Some(s.(queue := None, sched := TestPicked))
    case TestPicked => Some(s.(sched := if s.picked != None then LockPicked else SetWaiting))
    case LockPicked =>
      if PickedExists(s) && PickedProc(s).lock == None then
        Some(SetPicked(s, PickedProc(s).(lock := Some(Scheduler)), SetRunning))
      else None
    case SetRunning =>
      if PickedExists(s) then Some(SetPicked(s, PickedProc(s).(state := Running), SignalPicked)) else None
    case SignalPicked =>
      if PickedExists(s) then
        Some(SetPicked(s, PickedProc(s).(pc := if PickedProc(s).pc == Asleep then Awake else PickedProc(s).pc),
                       UnlockPicked))
      else None
    case UnlockPicked => if PickedExists(s) then Some(SetPicked(s, PickedProc(s).(lock := None), SetHave)) else None
    case SetHave => Some(s.(have := true, sched := UnlockNeed))
    case SetWaiting => Some(s.(waiting := true, sched := UnlockNeed))
    case UnlockNeed => Some(s.(need := None, sched := TestRemaining))
    case Exited => None
  }

  predicate PickedExists(s: State) { s.picked.Some? && s.picked.value < |s.procs| }

  function PickedProc(s: State): Proc
    requires PickedExists(s)
  {
    s.procs[s.picked.value]
  }

  function SetPicked(s: State, p: Proc, pc: SchedulerPc): State
    requires PickedExists(s)
  {
    s.(procs := s.procs[s.picked.value := p], sched := pc)
  }

  // ---------- Steps of the generator, and all steps ----------

  // After creating a process the generator polls the queue length once.
  function GeneratorStep(s: State): Option<State> {
    match s.gen
    case Create =>
      if s.born < |s.procs| then Some(Goto(s.(born := s.born + 1, gen := PollLock), s.born, TestLoop)) else None
    case PollLock => if s.queue == None then Some(s.(queue := Some(Generator), gen := PollUnlock)) else None
    case PollUnlock => Some(s.(queue := None, gen := Create))
  }

  function Step(s: State, a: Actor): Option<State> {
    match a
    case Sched => SchedulerStep(s)
    case Gen => GeneratorStep(s)
    case Worker(i) => if i < |s.procs| then ProcessStep(s, i) else None
    case SpuriousSched => if s.sched == SchedulerAsleep then Some(s.(sched := SchedulerAwake)) else None
    case SpuriousProc(i) => if i < |s.procs| && s.procs[i].pc == Asleep then Some(Goto(s, i, Awake)) else None
  }

  // The state after the given threads move in turn, if they can.
  function Run(s: State, actors: seq<Actor>): Option<State> {
    if actors == [] then Some(s)
    else
      var n := |actors| - 1;
      var before := Run(s, actors[..n]);
      if before == None then None else Step(before.value, actors[n])
  }

  ghost predicate Reachable(ps: seq<Params>, s: State) {
    exists actors :: Run(Init(ps), actors) == Some(s)
  }
}
