/** Fairness is lost when the scheduler picks before the process that just ran has queued up again: two
    processes can take turns forever, whatever their virtual runtimes, and one can be left out altogether. */
module SchedulerUnfairness {
  import opened Arithmetic
  import opened CfsArithmetic
  import opened Collections
  import opened RunQueueOrder
  import opened SchedulerProtocol
  import opened SchedulerSafety
  import opened SchedulerProgress
  import opened SchedulerFairness

  // What a process has on its account.
  datatype Account = Account(length: int, priority: Priority, cpu: int, vruntime: real, switches: nat)

  function ProcOf(a: Account, pc: ProcessPc, state: RunState, lock: Option<Thread>): Proc {
    Proc(a.length, a.priority, pc, state, lock, a.cpu, a.vruntime, a.switches)
  }

  function With(s: State, i: nat, p: Proc): State
    requires i < |s.procs|
  {
    s.(procs := s.procs[i := p])
  }

  function AfterSlice(a: Account): Account {
    a.(cpu := a.cpu + SCHED_LATENCY, vruntime := a.vruntime + VirtualRuntime(a.priority, SCHED_LATENCY),
       switches := a.switches + 1)
  }

  // ---------- Several steps of one thread ----------

  function Steps(s: State, a: Actor, n: nat): Option<State> {
    if n == 0 then Some(s)
    else var before := Steps(s, a, n - 1); if before == None then None else Step(before.value, a)
  }

  lemma Next(s: State, a: Actor, n: nat, t: State) returns (t': State)
    requires Steps(s, a, n) == Some(t) && Step(t, a).Some?
    ensures t' == Step(t, a).value && Steps(s, a, n + 1) == Some(t')
  {
    t' := Step(t, a).value;
  }

  // A run goes on with n steps of one thread.
  lemma {:induction false} Follow(s0: State, done: seq<Actor>, s: State, a: Actor, n: nat, t: State)
      returns (d: seq<Actor>)
    requires Run(s0, done) == Some(s) && Steps(s, a, n) == Some(t)
    ensures Run(s0, d) == Some(t) && done <= d
  {
    hide *;
    if n == 0 {
      NoStep(s, a);
      d := done;
    } else {
      var before := LastStep(s, a, n);
      d := Follow(s0, done, s, a, n - 1, before);
      d := FollowOne(s0, d, before, a);
    }
  }

  lemma NoStep(s: State, a: Actor)
    ensures Steps(s, a, 0) == Some(s)
  {
  }

  lemma LastStep(s: State, a: Actor, n: nat) returns (before: State)
    requires n > 0 && Steps(s, a, n).Some?
    ensures Steps(s, a, n - 1) == Some(before) && Step(before, a) == Steps(s, a, n)
  {
    hide Step;
    before := Steps(s, a, n - 1).value;
  }

  lemma FollowOne(s0: State, done: seq<Actor>, s: State, a: Actor) returns (d: seq<Actor>)
    requires Run(s0, done) == Some(s) && Step(s, a).Some?
    ensures Run(s0, d) == Step(s, a) && done <= d
  {
    hide Step;
    d := done + [a];
    assert d[..|d| - 1] == done;
  }

  // A state is made of its parts.
  lemma Whole(s: State)
    ensures s == State(s.procs, s.need, s.queue, s.rq, s.have, s.waiting, s.remaining, s.sched, s.picked, s.gen, s.born)
  {
  }

  // ---------- The scheduler ----------

  lemma SchedulerLooks(s: State)
    requires s.sched == SchedulerAwake && s.need == s.queue == None && !s.have && !s.waiting
    ensures Steps(s, Sched, 3) == Some(s.(need := Some(Scheduler), queue := Some(Scheduler), sched := Pick))
  {
    hide ProcessStep, GeneratorStep, SmallestIndex, Run, VirtualRuntime, Consumed, Remove;
    Whole(s);
    var t := Next(s, Sched, 0, s);
    t := Next(s, Sched, 1, t);
    t := Next(s, Sched, 2, t);
  }

  lemma SmallestOfOne(s: State, i: nat)
    requires s.rq == [i]
    ensures SmallestPcb(s) == Some(i)
  {
  }

  lemma SchedulerPicks(s: State, i: nat)
    requires s.sched == Pick && s.rq == [i]
    ensures Steps(s, Sched, 3) == Some(s.(picked := Some(i), queue := None, sched := LockPicked))
  {
    SmallestOfOne(s, i);
    hide ProcessStep, GeneratorStep, SmallestPcb, Run, VirtualRuntime, Consumed, Remove;
    Whole(s);
    var t := Next(s, Sched, 0, s);
    t := Next(s, Sched, 1, t);
    t := Next(s, Sched, 2, t);
  }

  lemma SchedulerRuns(s: State, i: nat, a: Account)
    requires s.sched == LockPicked && s.picked == Some(i)
    requires i < |s.procs| && s.procs[i] == ProcOf(a, Asleep, Ready, None)
    ensures Steps(s, Sched, 2) == Some(With(s, i, ProcOf(a, Asleep, Running, Some(Scheduler))).(sched := SignalPicked))
  {
    hide ProcessStep, GeneratorStep, SmallestIndex, Run, VirtualRuntime, Consumed, Remove;
    Whole(s);
    var t := Next(s, Sched, 0, s);
    t := Next(s, Sched, 1, t);
    assert t.procs == s.procs[i := ProcOf(a, Asleep, Running, Some(Scheduler))];
  }

  lemma SchedulerSignals(s: State, i: nat, a: Account)
    requires s.sched == SignalPicked && s.picked == Some(i)
    requires i < |s.procs| && s.procs[i] == ProcOf(a, Asleep, Running, Some(Scheduler))
    ensures Steps(s, Sched, 2) == Some(With(s, i, ProcOf(a, Awake, Running, None)).(sched := SetHave))
  {
    hide ProcessStep, GeneratorStep, SmallestIndex, Run, VirtualRuntime, Consumed, Remove;
    Whole(s);
    var t := Next(s, Sched, 0, s);
    t := Next(s, Sched, 1, t);
    assert t.procs == s.procs[i := ProcOf(a, Awake, Running, None)];
  }

  lemma SchedulerLetsGo(s: State)
    requires s.sched == SetHave
    ensures Steps(s, Sched, 2) == Some(s.(have := true, need := None, sched := TestRemaining))
  {
    hide ProcessStep, GeneratorStep, SmallestIndex, Run, VirtualRuntime, Consumed, Remove;
    Whole(s);
    var t := Next(s, Sched, 0, s);
    t := Next(s, Sched, 1, t);
  }

  lemma SchedulerSleeps(s: State)
    requires s.sched == TestRemaining && s.remaining != 0 && s.need == None && s.have
    ensures Steps(s, Sched, 3) == Some(s.(sched := SchedulerAsleep))
  {
    hide ProcessStep, GeneratorStep, SmallestIndex, Run, VirtualRuntime, Consumed, Remove;
    Whole(s);
    var t := Next(s, Sched, 0, s);
    t := Next(s, Sched, 1, t);
    t := Next(s, Sched, 2, t);
  }

  // ---------- A process ----------

  lemma WakesUp(s: State, i: nat, a: Account)
    requires i < |s.procs| && s.procs[i] == ProcOf(a, Awake, Running, None) && s.queue == None
    ensures Steps(s, Worker(i), 3) ==
            Some(With(s, i, ProcOf(a, Consume, Running, Some(Process(i)))).(queue := Some(Process(i))))
  {
    hide SchedulerStep, GeneratorStep, Consumed, Remove, Run, VirtualRuntime;
    Whole(s);
    var t := Next(s, Worker(i), 0, s);
    t := Next(s, Worker(i), 1, t);
    t := Next(s, Worker(i), 2, t);
    assert t.procs == s.procs[i := ProcOf(a, Consume, Running, Some(Process(i)))];
  }

  // Alone on the queue it gets a slice of full length.
  lemma FullSlice(s: State, i: nat, a: Account)
    requires i < |s.procs| && s.procs[i] == ProcOf(a, Consume, Running, Some(Process(i)))
    requires s.rq == [i] && a.cpu + SCHED_LATENCY < a.length
    ensures Consumed(s, i) == ProcOf(AfterSlice(a), UnlockQueueRun, Running, Some(Process(i)))
    ensures Remove<nat>(s.rq, i) == []
  {
    hide Run, Steps, GetWeight, VirtualRuntime;
    assert Remove<nat>([i], i) == [];
    assert Priorities(s, []) == [];
  }

  lemma UsesSlice(s: State, i: nat, a: Account)
    requires i < |s.procs| && s.procs[i] == ProcOf(a, Consume, Running, Some(Process(i)))
    requires s.rq == [i] && a.cpu + SCHED_LATENCY < a.length
    ensures Steps(s, Worker(i), 1) ==
            Some(With(s, i, ProcOf(AfterSlice(a), UnlockQueueRun, Running, Some(Process(i)))).(rq := []))
  {
    FullSlice(s, i, a);
    hide SchedulerStep, GeneratorStep, Consumed, Remove, Run, AfterSlice;
    Whole(s);
    var t := Next(s, Worker(i), 0, s);
    assert t.procs == s.procs[i := ProcOf(AfterSlice(a), UnlockQueueRun, Running, Some(Process(i)))];
  }

  lemma LeavesQueue(s: State, i: nat, a: Account)
    requires i < |s.procs| && s.procs[i] == ProcOf(a, UnlockQueueRun, Running, Some(Process(i)))
    ensures Steps(s, Worker(i), 1) ==
            Some(With(s, i, ProcOf(a, MakeReady, Running, Some(Process(i)))).(queue := None))
  {
    hide SchedulerStep, GeneratorStep, Consumed, Remove, Run, VirtualRuntime;
    Whole(s);
    var t := Next(s, Worker(i), 0, s);
    assert t.procs == s.procs[i := ProcOf(a, MakeReady, Running, Some(Process(i)))];
  }

  lemma BecomesReady(s: State, i: nat, a: Account)
    requires i < |s.procs| && s.procs[i] == ProcOf(a, MakeReady, Running, Some(Process(i))) && a.cpu < a.length
    ensures Steps(s, Worker(i), 2) == Some(With(s, i, ProcOf(a, LockNeedDone, Ready, Some(Process(i)))))
  {
    hide SchedulerStep, GeneratorStep, Consumed, Remove, Run, VirtualRuntime;
    Whole(s);
    var t := Next(s, Worker(i), 0, s);
    t := Next(s, Worker(i), 1, t);
    assert t.procs == s.procs[i := ProcOf(a, LockNeedDone, Ready, Some(Process(i)))];
  }

  lemma ClearsFlag(s: State, i: nat, a: Account)
    requires i < |s.procs| && s.procs[i] == ProcOf(a, LockNeedDone, Ready, Some(Process(i))) && s.need == None
    ensures Steps(s, Worker(i), 2) ==
            Some(With(s, i, ProcOf(a, SignalDone, Ready, Some(Process(i)))).(need := Some(Process(i)), have := false))
  {
    hide SchedulerStep, GeneratorStep, Consumed, Remove, Run, VirtualRuntime;
    Whole(s);
    var t := Next(s, Worker(i), 0, s);
    t := Next(s, Worker(i), 1, t);
    assert t.procs == s.procs[i := ProcOf(a, SignalDone, Ready, Some(Process(i)))];
  }

  lemma WakesScheduler(s: State, i: nat, a: Account)
    requires i < |s.procs| && s.procs[i] == ProcOf(a, SignalDone, Ready, Some(Process(i)))
    requires s.sched == SchedulerAsleep
    ensures Steps(s, Worker(i), 2) ==
            Some(With(s, i, ProcOf(a, UnlockPcb, Ready, Some(Process(i)))).(need := None, sched := SchedulerAwake))
  {
    hide SchedulerStep, GeneratorStep, Consumed, Remove, Run, VirtualRuntime;
    Whole(s);
    var t := Next(s, Worker(i), 0, s);
    t := Next(s, Worker(i), 1, t);
    assert t.procs == s.procs[i := ProcOf(a, UnlockPcb, Ready, Some(Process(i)))];
  }

  lemma StartsOver(s: State, i: nat, a: Account)
    requires i < |s.procs| && s.procs[i] == ProcOf(a, UnlockPcb, Ready, Some(Process(i)))
    ensures Steps(s, Worker(i), 1) == Some(With(s, i, ProcOf(a, TestLoop, Ready, None)))
  {
    hide SchedulerStep, GeneratorStep, Consumed, Remove, Run, VirtualRuntime;
    Whole(s);
    var t := Next(s, Worker(i), 0, s);
    assert t.procs == s.procs[i := ProcOf(a, TestLoop, Ready, None)];
  }

  lemma LocksQueue(s: State, i: nat, a: Account)
    requires i < |s.procs| && s.procs[i] == ProcOf(a, TestLoop, Ready, None) && s.queue == None && a.cpu < a.length
    ensures Steps(s, Worker(i), 2) ==
            Some(With(s, i, ProcOf(a, Enqueue, Ready, None)).(queue := Some(Process(i))))
  {
    hide SchedulerStep, GeneratorStep, Consumed, Remove, Run, VirtualRuntime;
    Whole(s);
    var t := Next(s, Worker(i), 0, s);
    t := Next(s, Worker(i), 1, t);
    assert t.procs == s.procs[i := ProcOf(a, Enqueue, Ready, None)];
  }

  lemma AddsItself(s: State, i: nat, a: Account)
    requires i < |s.procs| && s.procs[i] == ProcOf(a, Enqueue, Ready, None)
    ensures Steps(s, Worker(i), 1) == Some(With(s, i, ProcOf(a, UnlockQueueAdded, Ready, None)).(rq := [i] + s.rq))
  {
    hide SchedulerStep, GeneratorStep, Consumed, Remove, Run, VirtualRuntime;
    Whole(s);
    var t := Next(s, Worker(i), 0, s);
    assert t.procs == s.procs[i := ProcOf(a, UnlockQueueAdded, Ready, None)];
  }

  lemma UnlocksQueue(s: State, i: nat, a: Account)
    requires i < |s.procs| && s.procs[i] == ProcOf(a, UnlockQueueAdded, Ready, None)
    ensures Steps(s, Worker(i), 1) == Some(With(s, i, ProcOf(a, LockNeedNew, Ready, None)).(queue := None))
  {
    hide SchedulerStep, GeneratorStep, Consumed, Remove, Run, VirtualRuntime;
    Whole(s);
    var t := Next(s, Worker(i), 0, s);
    assert t.procs == s.procs[i := ProcOf(a, LockNeedNew, Ready, None)];
  }

  lemma LocksNeed(s: State, i: nat, a: Account)
    requires i < |s.procs| && s.procs[i] == ProcOf(a, LockNeedNew, Ready, None) && s.need == None
    ensures Steps(s, Worker(i), 1) ==
            Some(With(s, i, ProcOf(a, ClearWaiting, Ready, None)).(need := Some(Process(i))))
  {
    hide SchedulerStep, GeneratorStep, Consumed, Remove, Run, VirtualRuntime;
    Whole(s);
    var t := Next(s, Worker(i), 0, s);
    assert t.procs == s.procs[i := ProcOf(a, ClearWaiting, Ready, None)];
  }

  lemma ClearsWaiting(s: State, i: nat, a: Account)
    requires i < |s.procs| && s.procs[i] == ProcOf(a, ClearWaiting, Ready, None)
    ensures Steps(s, Worker(i), 1) ==
            Some(With(s, i, ProcOf(a, SignalNew, Ready, None)).(waiting := if s.have then s.waiting else false))
  {
    hide SchedulerStep, GeneratorStep, Consumed, Remove, Run, VirtualRuntime;
    Whole(s);
    var t := Next(s, Worker(i), 0, s);
    assert t.procs == s.procs[i := ProcOf(a, SignalNew, Ready, None)];
  }

  lemma AnnouncesItself(s: State, i: nat, a: Account)
    requires i < |s.procs| && s.procs[i] == ProcOf(a, SignalNew, Ready, None)
    ensures Steps(s, Worker(i), 1) == Some(With(SignalScheduler(s), i, ProcOf(a, UnlockNeedNew, Ready, None)))
  {
    assert SignalScheduler(s).procs == s.procs;
    hide SchedulerStep, GeneratorStep, Consumed, Remove, Run, VirtualRuntime, SignalScheduler;
    var t := Next(s, Worker(i), 0, s);
    assert t == Goto(SignalScheduler(s), i, UnlockNeedNew);
    assert t.procs == s.procs[i := ProcOf(a, UnlockNeedNew, Ready, None)];
  }

  lemma UnlocksNeed(s: State, i: nat, a: Account)
    requires i < |s.procs| && s.procs[i] == ProcOf(a, UnlockNeedNew, Ready, None)
    ensures Steps(s, Worker(i), 1) == Some(With(s, i, ProcOf(a, LockPcb, Ready, None)).(need := None))
  {
    hide SchedulerStep, GeneratorStep, Consumed, Remove, Run, VirtualRuntime;
    Whole(s);
    var t := Next(s, Worker(i), 0, s);
    assert t.procs == s.procs[i := ProcOf(a, LockPcb, Ready, None)];
  }

  lemma FallsAsleep(s: State, i: nat, a: Account)
    requires i < |s.procs| && s.procs[i] == ProcOf(a, LockPcb, Ready, None)
    ensures Steps(s, Worker(i), 2) == Some(With(s, i, ProcOf(a, Asleep, Ready, None)))
  {
    hide SchedulerStep, GeneratorStep, Consumed, Remove, Run, VirtualRuntime;
    Whole(s);
    var t := Next(s, Worker(i), 0, s);
    t := Next(s, Worker(i), 1, t);
    assert t.procs == s.procs[i := ProcOf(a, Asleep, Ready, None)];
  }

  // ---------- From one choice to the next ----------

  // Process i is alone on the queue, and the scheduler is about to choose.
  predicate Turn(s: State, i: nat, a: Account) {
    && i < |s.procs| && s.procs[i] == ProcOf(a, Asleep, Ready, None) && s.rq == [i]
    && s.sched == SchedulerAwake && s.need == s.queue == None && !s.have && !s.waiting && s.remaining != 0
  }

  lemma Grants(s0: State, done: seq<Actor>, s: State, i: nat, a: Account) returns (d: seq<Actor>, t: State)
    requires Turn(s, i, a) && Run(s0, done) == Some(s)
    ensures Run(s0, d) == Some(t) && done <= d
    ensures t == With(s, i, ProcOf(a, Awake, Running, None)).(have := true, picked := Some(i), sched := TestRemaining)
  {
    hide Run, Steps;
    SchedulerLooks(s);
    t := s.(need := Some(Scheduler), queue := Some(Scheduler), sched := Pick);
    d := Follow(s0, done, s, Sched, 3, t);
    SchedulerPicks(t, i);
    var u := t.(picked := Some(i), queue := None, sched := LockPicked);
    d := Follow(s0, d, t, Sched, 3, u);
    SchedulerRuns(u, i, a);
    t := With(u, i, ProcOf(a, Asleep, Running, Some(Scheduler))).(sched := SignalPicked);
    d := Follow(s0, d, u, Sched, 2, t);
    SchedulerSignals(t, i, a);
    u := With(t, i, ProcOf(a, Awake, Running, None)).(sched := SetHave);
    d := Follow(s0, d, t, Sched, 2, u);
    SchedulerLetsGo(u);
    t := u.(have := true, need := None, sched := TestRemaining);
    d := Follow(s0, d, u, Sched, 2, t);
    assert t.procs == s.procs[i := ProcOf(a, Awake, Running, None)];
  }

  lemma Charges(s0: State, done: seq<Actor>, s: State, i: nat, a: Account) returns (d: seq<Actor>, t: State)
    requires i < |s.procs| && s.procs[i] == ProcOf(a, Awake, Running, None)
    requires s.queue == None && s.rq == [i] && a.cpu + SCHED_LATENCY < a.length && Run(s0, done) == Some(s)
    ensures Run(s0, d) == Some(t) && done <= d
    ensures t == With(s, i, ProcOf(AfterSlice(a), MakeReady, Running, Some(Process(i)))).(rq := [])
  {
    hide Run, Steps, AfterSlice;
    WakesUp(s, i, a);
    var u := With(s, i, ProcOf(a, Consume, Running, Some(Process(i)))).(queue := Some(Process(i)));
    d := Follow(s0, done, s, Worker(i), 3, u);
    UsesSlice(u, i, a);
    t := With(u, i, ProcOf(AfterSlice(a), UnlockQueueRun, Running, Some(Process(i)))).(rq := []);
    d := Follow(s0, d, u, Worker(i), 1, t);
    LeavesQueue(t, i, AfterSlice(a));
    u := With(t, i, ProcOf(AfterSlice(a), MakeReady, Running, Some(Process(i)))).(queue := None);
    d := Follow(s0, d, t, Worker(i), 1, u);
    t := u;
    assert t.procs == s.procs[i := ProcOf(AfterSlice(a), MakeReady, Running, Some(Process(i)))];
  }

  lemma GivesUp(s0: State, done: seq<Actor>, s: State, i: nat, a: Account) returns (d: seq<Actor>, t: State)
    requires i < |s.procs| && s.procs[i] == ProcOf(a, MakeReady, Running, Some(Process(i))) && a.cpu < a.length
    requires s.sched == TestRemaining && s.remaining != 0 && s.need == None && s.have && Run(s0, done) == Some(s)
    ensures Run(s0, d) == Some(t) && done <= d
    ensures t == With(s, i, ProcOf(a, TestLoop, Ready, None)).(have := false, sched := SchedulerAwake)
  {
    hide Run, Steps;
    SchedulerSleeps(s);
    t := s.(sched := SchedulerAsleep);
    d := Follow(s0, done, s, Sched, 3, t);
    BecomesReady(t, i, a);
    var u := With(t, i, ProcOf(a, LockNeedDone, Ready, Some(Process(i))));
    d := Follow(s0, d, t, Worker(i), 2, u);
    ClearsFlag(u, i, a);
    t := With(u, i, ProcOf(a, SignalDone, Ready, Some(Process(i)))).(need := Some(Process(i)), have := false);
    d := Follow(s0, d, u, Worker(i), 2, t);
    WakesScheduler(t, i, a);
    u := With(t, i, ProcOf(a, UnlockPcb, Ready, Some(Process(i)))).(need := None, sched := SchedulerAwake);
    d := Follow(s0, d, t, Worker(i), 2, u);
    StartsOver(u, i, a);
    t := With(u, i, ProcOf(a, TestLoop, Ready, None));
    d := Follow(s0, d, u, Worker(i), 1, t);
    assert t.procs == s.procs[i := ProcOf(a, TestLoop, Ready, None)];
  }

  lemma QueuesUp(s0: State, done: seq<Actor>, s: State, i: nat, a: Account) returns (d: seq<Actor>, t: State)
    requires i < |s.procs| && s.procs[i] == ProcOf(a, TestLoop, Ready, None) && a.cpu < a.length
    requires s.queue == s.need == None && Run(s0, done) == Some(s)
    ensures Run(s0, d) == Some(t) && done <= d
    ensures t == With(SignalScheduler(s), i, ProcOf(a, Asleep, Ready, None)).(
                   rq := [i] + s.rq, waiting := if s.have then s.waiting else false)
  {
    hide Run, Steps;
    LocksQueue(s, i, a);
    t := With(s, i, ProcOf(a, Enqueue, Ready, None)).(queue := Some(Process(i)));
    d := Follow(s0, done, s, Worker(i), 2, t);
    AddsItself(t, i, a);
    var u := With(t, i, ProcOf(a, UnlockQueueAdded, Ready, None)).(rq := [i] + t.rq);
    d := Follow(s0, d, t, Worker(i), 1, u);
    UnlocksQueue(u, i, a);
    t := With(u, i, ProcOf(a, LockNeedNew, Ready, None)).(queue := None);
    d := Follow(s0, d, u, Worker(i), 1, t);
    LocksNeed(t, i, a);
    u := With(t, i, ProcOf(a, ClearWaiting, Ready, None)).(need := Some(Process(i)));
    d := Follow(s0, d, t, Worker(i), 1, u);
    ClearsWaiting(u, i, a);
    t := With(u, i, ProcOf(a, SignalNew, Ready, None)).(waiting := if u.have then u.waiting else false);
    d := Follow(s0, d, u, Worker(i), 1, t);
    AnnouncesItself(t, i, a);
    u := With(SignalScheduler(t), i, ProcOf(a, UnlockNeedNew, Ready, None));
    d := Follow(s0, d, t, Worker(i), 1, u);
    UnlocksNeed(u, i, a);
    t := With(u, i, ProcOf(a, LockPcb, Ready, None)).(need := None);
    d := Follow(s0, d, u, Worker(i), 1, t);
    FallsAsleep(t, i, a);
    u := With(t, i, ProcOf(a, Asleep, Ready, None));
    d := Follow(s0, d, t, Worker(i), 2, u);
    t := u;
    assert t.procs == s.procs[i := ProcOf(a, Asleep, Ready, None)];
  }

  // The number of processes and of those created, and the fates of all but i and j.
  predicate SameOthers(s: State, t: State, i: nat, j: nat) {
    && |t.procs| == |s.procs| && t.born == s.born
    && forall k :: 0 <= k < |s.procs| && k != i && k != j ==> t.procs[k] == s.procs[k]
  }

  /** Process i runs a full slice and wakes the scheduler, and all that time the other one, j, is the only one to
      queue up: it is its turn, whatever the virtual runtimes. */
  lemma HalfRound(s0: State, done: seq<Actor>, s: State, i: nat, a: Account, j: nat, b: Account)
      returns (d: seq<Actor>, t: State)
    requires Turn(s, i, a) && a.cpu + SCHED_LATENCY < a.length && Run(s0, done) == Some(s)
    requires i != j && j < |s.procs| && s.procs[j] == ProcOf(b, TestLoop, Ready, None) && b.cpu < b.length
    ensures Run(s0, d) == Some(t) && done <= d && SameOthers(s, t, i, j)
    ensures Turn(t, j, b) && t.procs[i] == ProcOf(AfterSlice(a), TestLoop, Ready, None)
  {
    hide Run, VirtualRuntime;
    d, t := Grants(s0, done, s, i, a);
    d, t := Charges(s0, d, t, i, a);
    d, t := QueuesUp(s0, d, t, j, b);
    assert [j] + [] == [j];
    d, t := GivesUp(s0, d, t, i, AfterSlice(a));
  }

  /** Process i runs a full slice and queues up again before anybody else does. */
  lemma LoneRound(s0: State, done: seq<Actor>, s: State, i: nat, a: Account) returns (d: seq<Actor>, t: State)
    requires Turn(s, i, a) && a.cpu + SCHED_LATENCY < a.length && Run(s0, done) == Some(s)
    ensures Run(s0, d) == Some(t) && done <= d && SameOthers(s, t, i, i) && Turn(t, i, AfterSlice(a))
  {
    hide Run, VirtualRuntime;
    d, t := Grants(s0, done, s, i, a);
    d, t := Charges(s0, d, t, i, a);
    d, t := GivesUp(s0, d, t, i, AfterSlice(a));
    d, t := QueuesUp(s0, d, t, i, AfterSlice(a));
    assert [i] + [] == [i];
  }

  // ---------- Many rounds ----------

  function AfterSlices(a: Account, n: nat): (r: Account)
    ensures r.length == a.length && r.priority == a.priority && r.cpu == a.cpu + n * SCHED_LATENCY
  {
    if n == 0 then a else AfterSlice(AfterSlices(a, n - 1))
  }

  lemma {:induction false} TakeTurns(s0: State, done: seq<Actor>, s: State, a: Account, b: Account, n: nat)
      returns (d: seq<Actor>, t: State)
    requires |s.procs| == 2 && Turn(s, 0, a) && s.procs[1] == ProcOf(b, TestLoop, Ready, None)
    requires a.cpu + n * SCHED_LATENCY < a.length && b.cpu + n * SCHED_LATENCY < b.length && Run(s0, done) == Some(s)
    ensures Run(s0, d) == Some(t) && done <= d && |t.procs| == 2 && t.born == s.born
    ensures Turn(t, 0, AfterSlices(a, n)) && t.procs[1] == ProcOf(AfterSlices(b, n), TestLoop, Ready, None)
  {
    d, t := done, s;
    if n > 0 {
      hide Run, Turn, AfterSlice;
      d, t := TakeTurns(s0, done, s, a, b, n - 1);
      d, t := HalfRound(s0, d, t, 0, AfterSlices(a, n - 1), 1, AfterSlices(b, n - 1));
      d, t := HalfRound(s0, d, t, 1, AfterSlices(b, n - 1), 0, AfterSlices(a, n));
    }
  }

  lemma {:induction false} RunAlone(s0: State, done: seq<Actor>, s: State, i: nat, a: Account, n: nat)
      returns (d: seq<Actor>, t: State)
    requires Turn(s, i, a) && a.cpu + n * SCHED_LATENCY < a.length && Run(s0, done) == Some(s)
    ensures Run(s0, d) == Some(t) && done <= d && SameOthers(s, t, i, i) && Turn(t, i, AfterSlices(a, n))
  {
    d, t := done, s;
    if n > 0 {
      hide Run, Turn, AfterSlice;
      d, t := RunAlone(s0, done, s, i, a, n - 1);
      d, t := LoneRound(s0, d, t, i, AfterSlices(a, n - 1));
    }
  }

  // ---------- The start ----------

  function NewAccount(p: Params): Account { Account(p.length, p.priority, 0, 0.0, 0) }

  // The first k processes are created, nobody has moved yet, and the scheduler sleeps.
  function Created(ps: seq<Params>, k: nat): State {
    State(seq(|ps|, i requires 0 <= i < |ps| =>
            ProcOf(NewAccount(ps[i]), if i < k then TestLoop else Unborn, Ready, None)),
          None, None, [], false, true, |ps|, SchedulerAsleep, None, Create, k)
  }

  lemma SchedulerWaits(ps: seq<Params>)
    requires ps != []
    ensures Steps(Init(ps), Sched, 4) == Some(Created(ps, 0))
  {
    hide ProcessStep, GeneratorStep, SmallestIndex, Run, VirtualRuntime, Consumed, Remove;
    var s := Init(ps);
    Whole(s);
    var t := Next(s, Sched, 0, s);
    t := Next(s, Sched, 1, t);
    t := Next(s, Sched, 2, t);
    t := Next(s, Sched, 3, t);
    assert t.procs == Created(ps, 0).procs;
  }

  lemma OneIsCreated(ps: seq<Params>, k: nat)
    requires k < |ps|
    ensures Steps(Created(ps, k), Gen, 3) == Some(Created(ps, k + 1))
  {
    hide ProcessStep, SchedulerStep;
    var s := Created(ps, k);
    Whole(s);
    var t := Next(s, Gen, 0, s);
    t := Next(s, Gen, 1, t);
    t := Next(s, Gen, 2, t);
    assert t.procs == Created(ps, k + 1).procs;
  }

  lemma {:induction false} AllAreCreated(ps: seq<Params>, k: nat) returns (d: seq<Actor>)
    requires ps != [] && k <= |ps|
    ensures Run(Init(ps), d) == Some(Created(ps, k))
  {
    hide Steps, Init, Created;
    if k == 0 {
      SchedulerWaits(ps);
      d := Follow(Init(ps), [], Init(ps), Sched, 4, Created(ps, 0));
    } else {
      d := AllAreCreated(ps, k - 1);
      OneIsCreated(ps, k - 1);
      d := Follow(Init(ps), d, Created(ps, k - 1), Gen, 3, Created(ps, k));
    }
  }

  /** Every process is there before anybody queues up; then the first one does. start is how long this takes. */
  lemma FirstTurn(ps: seq<Params>) returns (d: seq<Actor>, s: State, start: nat)
    requires ps != [] && ps[0].length > 0
    ensures Run(Init(ps), d) == Some(s) && start <= |d| && Run(Init(ps), d[..start]) == Some(Created(ps, |ps|))
    ensures Turn(s, 0, NewAccount(ps[0])) && |s.procs| == s.born == |ps|
    ensures forall k :: 0 < k < |ps| ==> s.procs[k] == ProcOf(NewAccount(ps[k]), TestLoop, Ready, None)
  {
    var d0 := AllAreCreated(ps, |ps|);
    start := |d0|;
    hide Run;
    d, s := QueuesUp(Init(ps), d0, Created(ps, |ps|), 0, NewAccount(ps[0]));
    assert d[..start] == d0;
    assert [0] + [] == [0];
  }

  // In this run of this workload all processes are there before anybody queues up.
  predicate TogetherFrom(ps: seq<Params>, actors: seq<Actor>, start: nat) {
    start <= |actors| && Run(Init(ps), actors[..start]) == Some(Created(ps, |ps|))
  }

  lemma StillTogether(ps: seq<Params>, d: seq<Actor>, d': seq<Actor>, start: nat)
    requires TogetherFrom(ps, d, start) && d <= d'
    ensures TogetherFrom(ps, d', start)
  {
    assert d'[..start] == d[..start];
  }

  // ---------- Taking turns ----------

  lemma GapOfRuntimes(x: real, y: real, v: nat, w: nat, n: nat, a: nat, b: nat)
    requires 0 < v && 0 < w && a * v == n == b * w
    requires x * v as real == 1024.0 * (n * SCHED_LATENCY) as real
    requires y * w as real == 1024.0 * (n * SCHED_LATENCY) as real
    ensures x - y == (102400 * (a - b)) as real
  {
    assert (102400 * a) * v == 102400 * (a * v);
    assert (102400 * b) * w == 102400 * (b * w);
    Quotient(x, v, 102400 * a);
    Quotient(y, w, 102400 * b);
  }

  lemma Products(k: nat, v: nat, w: nat) returns (n: nat)
    requires v < w
    ensures (k * w) * v == n == (k * v) * w && k * w - k * v >= k
  {
    n := (k * w) * v;
    assert (k * w) * v == (k * v) * w;
    assert k * w - k * v == k * (w - v);
    MulLe(1, w - v, k);
  }

  lemma Quotient(x: real, v: nat, c: int)
    requires v > 0 && x * v as real == (c * v) as real
    ensures x == c as real
  {
    assert (x - c as real) * v as real == 0.0;
  }

  // A whole number above the bound.
  function Above(bound: real): (k: nat)
    ensures k as real > bound
  {
    if bound < 0.0 then 0 else bound.Floor + 1
  }

  lemma TurnsAreTaken(ps: seq<Params>, n: nat) returns (actors: seq<Actor>, start: nat, s: State)
    requires |ps| == 2 && ps[0].length == ps[1].length == n * SCHED_LATENCY + 1
    ensures Run(Init(ps), actors) == Some(s) && TogetherFrom(ps, actors, start) && |s.procs| == 2
    ensures forall i :: 0 <= i < 2 ==>
              s.procs[i].priority == ps[i].priority && s.procs[i].cpu == n * SCHED_LATENCY < s.procs[i].length
  {
    hide Run, Init, Created, AfterSlice;
    var d;
    d, s, start := FirstTurn(ps);
    actors, s := TakeTurns(Init(ps), d, s, NewAccount(ps[0]), NewAccount(ps[1]), n);
    StillTogether(ps, d, actors, start);
  }

  /** For any two processes of different weight and any bound there is a workload and a run, both processes there
      from the start and with time left, in which both used the same time but the lighter one is further ahead
      than the bound. */
  lemma FairnessHasNoBound(p: Priority, q: Priority, bound: real)
      returns (ps: seq<Params>, actors: seq<Actor>, start: nat)
    requires GetWeight(p) < GetWeight(q)
    ensures Run(Init(ps), actors).Some? && TogetherFrom(ps, actors, start)
    ensures var s := Run(Init(ps), actors).value;
            && |s.procs| == 2 && s.procs[0].priority == p && s.procs[1].priority == q
            && s.procs[0].cpu == s.procs[1].cpu && Unserved(s.procs[0]) && Unserved(s.procs[1])
            && s.procs[0].vruntime - s.procs[1].vruntime > bound
  {
    var v, w := GetWeight(p), GetWeight(q);
    hide GetWeight, Init, Run, Reachable, TogetherFrom;
    var k := Above(bound);
    var n := Products(k, v, w);
    var length := n * SCHED_LATENCY + 1;
    ps := [Params(length, p), Params(length, q)];
    var s;
    actors, start, s := TurnsAreTaken(ps, n);
    RunReaches(ps, actors);
    ExactVirtualRuntime(ps, s, 0);
    ExactVirtualRuntime(ps, s, 1);
    hide *;
    GapOfRuntimes(s.procs[0].vruntime, s.procs[1].vruntime, v, w, n, k * w, k * v);
  }

  lemma RunReaches(ps: seq<Params>, actors: seq<Actor>)
    requires Run(Init(ps), actors).Some?
    ensures Reachable(ps, Run(Init(ps), actors).value)
  {
  }

  // ---------- Being left out ----------

  lemma FirstRunsAlone(ps: seq<Params>, n: nat) returns (actors: seq<Actor>, start: nat, s: State)
    requires |ps| >= 2 && ps[0].length == n * SCHED_LATENCY + 1 && ps[1].length > 0
    ensures Run(Init(ps), actors) == Some(s) && TogetherFrom(ps, actors, start) && |s.procs| == |ps|
    ensures s.procs[0].priority == ps[0].priority && s.procs[0].cpu == n * SCHED_LATENCY < s.procs[0].length
    ensures s.procs[1].vruntime == 0.0 && Unserved(s.procs[1])
  {
    hide Run, Init, Created, AfterSlice;
    var d;
    d, s, start := FirstTurn(ps);
    actors, s := RunAlone(Init(ps), d, s, 0, NewAccount(ps[0]), n);
    StillTogether(ps, d, actors, start);
  }

  lemma AheadBy(x: real, w: nat, n: nat)
    requires 0 < w <= 88761 && x * w as real == 1024.0 * (n * SCHED_LATENCY) as real
    ensures x >= n as real
  {
    MulLe(w, 102400, n);
    assert x * w as real == (102400 * n) as real;
    assert (x - n as real) * w as real >= 0.0;
  }

  /** For any priorities of two or more processes and any bound: if all but the first are slow to queue up, it gets
      further ahead than the bound. */
  lemma LateOnesAreLeftOut(priorities: seq<Priority>, bound: real)
      returns (ps: seq<Params>, actors: seq<Actor>, start: nat)
    requires |priorities| >= 2
    ensures HasPriorities(ps, priorities) && Run(Init(ps), actors).Some? && TogetherFrom(ps, actors, start)
    ensures var s := Run(Init(ps), actors).value;
            && |s.procs| >= 2 && Unserved(s.procs[0]) && Unserved(s.procs[1])
            && s.procs[0].vruntime - s.procs[1].vruntime > bound
  {
    hide GetWeight, Init, Run, Reachable, TogetherFrom;
    var n := Above(bound);
    ps := seq(|priorities|, i requires 0 <= i < |priorities| => Params(n * SCHED_LATENCY + 1, priorities[i]));
    var s;
    actors, start, s := FirstRunsAlone(ps, n);
    RunReaches(ps, actors);
    ExactVirtualRuntime(ps, s, 0);
    AheadBy(s.procs[0].vruntime, GetWeight(priorities[0]), n);
  }

  // ---------- The exact condition ----------

  predicate HasPriorities(ps: seq<Params>, priorities: seq<Priority>) {
    |ps| == |priorities| && forall k :: 0 <= k < |ps| ==> ps[k].priority == priorities[k]
  }

  // At the end of the run, if all processes were there from the start, i is ahead of j by no more than b.
  ghost predicate GapWithin(ps: seq<Params>, actors: seq<Actor>, start: nat, i: nat, j: nat, b: real) {
    Run(Init(ps), actors).Some? && TogetherFrom(ps, actors, start) ==>
      var s := Run(Init(ps), actors).value;
      i < |s.procs| && j < |s.procs| && Unserved(s.procs[i]) && Unserved(s.procs[j]) ==>
        s.procs[i].vruntime - s.procs[j].vruntime <= b
  }

  ghost predicate BoundedBy(priorities: seq<Priority>, b: real) {
    forall ps, actors, start, i, j :: HasPriorities(ps, priorities) ==> GapWithin(ps, actors, start, i, j, b)
  }

  lemma OneIsTogether(ps: seq<Params>, actors: seq<Actor>, start: nat, i: nat, j: nat)
    requires |ps| <= 1
    ensures GapWithin(ps, actors, start, i, j, 0.0)
  {
    hide Step, Created;
    if Run(Init(ps), actors).Some? {
      LengthsKept(Init(ps), actors);
    }
  }

  /** Without a condition on the run, the virtual runtimes of processes that are there from the start stay within
      some bound, over all workloads of these priorities, if and only if there is at most one process. */
  lemma BoundedIff(priorities: seq<Priority>)
    ensures (exists b :: BoundedBy(priorities, b)) <==> |priorities| <= 1
  {
    hide GapWithin;
    if |priorities| <= 1 {
      forall ps, actors, start, i, j | HasPriorities(ps, priorities)
        ensures GapWithin(ps, actors, start, i, j, 0.0)
      {
        OneIsTogether(ps, actors, start, i, j);
      }
      assert BoundedBy(priorities, 0.0);
    } else {
      forall b: real ensures !BoundedBy(priorities, b) {
        var ps, actors, start := NotBoundedBy(priorities, b);
      }
    }
  }

  lemma NotBoundedBy(priorities: seq<Priority>, b: real) returns (ps: seq<Params>, actors: seq<Actor>, start: nat)
    requires |priorities| >= 2
    ensures HasPriorities(ps, priorities) && !GapWithin(ps, actors, start, 0, 1, b)
  {
    hide Run, TogetherFrom;
    ps, actors, start := LateOnesAreLeftOut(priorities, b);
  }
}
