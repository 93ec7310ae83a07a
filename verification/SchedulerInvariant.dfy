/** What holds in every state that the threads can reach. */
module SchedulerInvariant {
  import opened CfsArithmetic
  import opened Collections
  import opened RunQueueOrder
  import opened SchedulerProtocol

  // ---------- Program counters by what they imply ----------

  predicate HoldsNeed(pc: ProcessPc) {
    pc.ClearWaiting? || pc.SignalNew? || pc.UnlockNeedNew? || pc.ClearRunning? || pc.SignalDone? || pc.UnlockNeedDone?
  }

  predicate HoldsQueue(pc: ProcessPc) {
    pc.Enqueue? || pc.UnlockQueueAdded? || pc.Consume? || pc.UnlockQueueRun? || pc.CountDown? || pc.UnlockQueueCount?
  }

  predicate HoldsPcb(pc: ProcessPc) {
    pc.TestState? || MustRun(pc) || Finishing(pc) || pc.SignalDone? || pc.UnlockNeedDone? || pc.UnlockPcb?
  }

  predicate Queued(pc: ProcessPc) {
    Announcing(pc) || pc.SignalNew? || pc.UnlockNeedNew? || pc.LockPcb? || pc.TestState? || pc.Asleep? || pc.Awake?
    || pc.LockQueueToRun? || pc.Consume?
  }

  // Enqueued, but waiting_for_new_process not yet looked at.
  predicate Announcing(pc: ProcessPc) { pc.UnlockQueueAdded? || pc.LockNeedNew? || pc.ClearWaiting? }

  predicate MustRun(pc: ProcessPc) { pc.LockQueueToRun? || pc.Consume? || pc.UnlockQueueRun? || pc.MakeReady? }

  // Ready again, but have_running_process not yet cleared.
  predicate Finishing(pc: ProcessPc) {
    pc.TestFinished? || pc.LockQueueToCount? || pc.CountDown? || pc.UnlockQueueCount? || pc.LockNeedDone?
    || pc.ClearRunning?
  }

  // After the slice, before the next turn of the loop.
  predicate Ran(pc: ProcessPc) {
    pc.UnlockQueueRun? || pc.MakeReady? || Finishing(pc) || pc.SignalDone? || pc.UnlockNeedDone? || pc.UnlockPcb?
  }

  predicate Counting(pc: ProcessPc) { pc.LockQueueToCount? || pc.CountDown? || pc.UnlockQueueCount? }

  predicate SchedulerHoldsNeed(pc: SchedulerPc) { pc.TestFlags? || Choosing(pc) || pc.UnlockNeed? }

  predicate Choosing(pc: SchedulerPc) {
    pc.LockQueue? || pc.Pick? || pc.UnlockQueue? || pc.TestPicked? || pc.LockPicked? || HoldsPicked(pc) || pc.SetHave?
    || pc.SetWaiting?
  }

  predicate HoldsPicked(pc: SchedulerPc) { pc.SetRunning? || pc.SignalPicked? || pc.UnlockPicked? }

  predicate Granted(pc: SchedulerPc) { pc.SignalPicked? || pc.UnlockPicked? || pc.SetHave? }

  // The scheduler found the queue empty, and no process has asked for another look since.
  predicate NothingReady(s: State) {
    s.waiting || s.sched.SetWaiting? || ((s.sched.UnlockQueue? || s.sched.TestPicked?) && s.picked == None)
  }

  predicate Active(p: Proc) { p.state == Running || Finishing(p.pc) }

  // Process i has the processor.
  predicate Current(s: State, i: nat) { s.picked == Some(i) && (s.have || Granted(s.sched)) }

  // ---------- The invariant ----------

  ghost predicate Locks(s: State, i: nat)
    requires i < |s.procs|
  {
    var p := s.procs[i];
    && (s.need == Some(Process(i)) <==> HoldsNeed(p.pc))
    && (s.queue == Some(Process(i)) <==> HoldsQueue(p.pc))
    && p.lock == (if HoldsPcb(p.pc) then Some(Process(i))
                  else if HoldsPicked(s.sched) && s.picked == Some(i) then Some(Scheduler) else None)
    && !(HoldsPcb(p.pc) && HoldsPicked(s.sched) && s.picked == Some(i))
  }

  ghost predicate Scheduling(s: State, i: nat)
    requires i < |s.procs|
  {
    var p := s.procs[i];
    && (i in s.rq <==> Queued(p.pc))
    && (p.state == Running ==> Queued(p.pc) || p.pc.UnlockQueueRun? || p.pc.MakeReady?)
    && (MustRun(p.pc) ==> p.state == Running)
    && (p.pc.Asleep? && p.state == Running ==> s.sched.SignalPicked? && s.picked == Some(i))
    && (Active(p) <==> Current(s, i))
    && (NothingReady(s) && Queued(p.pc) ==> Announcing(p.pc))
    && (p.pc.Unborn? <==> i >= s.born)
  }

  ghost predicate Accounts(s: State, i: nat)
    requires i < |s.procs|
  {
    var p := s.procs[i];
    && 0 <= p.cpu && (p.cpu <= p.length || p.cpu == 0)
    && (Queued(p.pc) || p.pc.LockQueueToAdd? || p.pc.Enqueue? ==> p.cpu < p.length)
    && (p.pc.Unborn? ==> p.cpu == 0)
    && (Counting(p.pc) || p.pc.Finished? ==> p.length <= p.cpu)
    && (Ran(p.pc) ==> 0 < p.cpu)
    && (p.cpu > 0 ==> !s.sched.Start?)
    && p.vruntime == VirtualRuntime(p.priority, p.cpu)
    && SwitchesFit(p.length, p.cpu, p.switches)
  }

  // Every slice but the last is at least the minimum granularity.
  predicate SwitchesFit(length: int, cpu: int, switches: nat) {
    if cpu < length then MIN_GRANULARITY * switches <= cpu
    else MIN_GRANULARITY * (switches - 1) < length || switches == 0
  }

  // Counted by notify_process_termination.
  predicate Notified(p: Proc) {
    && 0 < p.length <= p.cpu
    && (p.pc.UnlockQueueCount? || p.pc.LockNeedDone? || p.pc.ClearRunning? || p.pc.SignalDone? || p.pc.UnlockNeedDone?
        || p.pc.UnlockPcb? || p.pc.TestLoop? || p.pc.Finished?)
  }

  function Unfinished(s: State): set<nat> {
    set i | 0 <= i < |s.procs| && !Notified(s.procs[i])
  }

  ghost predicate Global(s: State) {
    && s.born <= |s.procs|
    && (forall k :: 0 <= k < |s.rq| ==> s.rq[k] < |s.procs|)
    && (forall j, k :: 0 <= j < k < |s.rq| ==> s.rq[j] != s.rq[k])
    && (s.need == Some(Scheduler) <==> SchedulerHoldsNeed(s.sched))
    && (s.queue == Some(Scheduler) <==> s.sched.Pick? || s.sched.UnlockQueue?)
    && (s.queue == Some(Generator) <==> s.gen.PollUnlock?)
    && s.need != Some(Generator)
    && (s.need.Some? && s.need.value.Process? ==> s.need.value.id < |s.procs|)
    && (s.queue.Some? && s.queue.value.Process? ==> s.queue.value.id < |s.procs|)
    && (s.picked.Some? ==> s.picked.value < |s.procs|)
    && (s.have ==> !s.waiting && s.picked.Some?)
    && (Choosing(s.sched) ==> !s.have && !s.waiting)
    && (s.sched.LockPicked? || HoldsPicked(s.sched) || s.sched.SetHave? ==> s.picked.Some?)
    && ((s.sched.LockPicked? || s.sched.SetRunning?
         || ((s.sched.UnlockQueue? || s.sched.TestPicked?) && s.picked.Some?)) ==> s.picked.value in s.rq)
    && (s.sched.UnlockNeed? ==> s.have || s.waiting)
    && (s.sched.SchedulerAsleep? && !s.have && !s.waiting ==> WakeUpComing(s))
    && (s.sched.Start? ==> s.picked == None)
  }

  // A process holds mutex_need_scheduling and is about to signal.
  predicate WakeUpComing(s: State) {
    && s.need.Some? && s.need.value.Process? && s.need.value.id < |s.procs|
    && (s.procs[s.need.value.id].pc.SignalNew? || s.procs[s.need.value.id].pc.SignalDone?)
  }

  ghost predicate Counted(s: State) {
    && (!s.sched.Start? ==> s.remaining == |Unfinished(s)|)
    && (s.waiting && (s.sched.LockNeed? || s.sched.TestFlags? || s.sched.SchedulerAsleep? || s.sched.SchedulerAwake?)
        ==> s.remaining > 0)
    && (s.sched.Exited? ==> s.remaining == 0)
  }

  ghost predicate Local(s: State, i: nat)
    requires i < |s.procs|
  {
    Locks(s, i) && Scheduling(s, i) && Accounts(s, i)
  }

  ghost predicate Inv(s: State) {
    Global(s) && Counted(s) && forall i :: 0 <= i < |s.procs| ==> Local(s, i)
  }

  lemma InitInv(ps: seq<Params>)
    ensures Inv(Init(ps))
  {
  }

  // ---------- Steps of a process keep it ----------

  // A mutex keeps its holder, or process i takes or releases it.
  predicate OnlyOwn(before: Option<Thread>, after: Option<Thread>, i: nat) {
    || after == before
    || (before == None && after == Some(Process(i)))
    || (before == Some(Process(i)) && after == None)
  }

  // Process i moves, and nobody else notices more than a signal, a cleared flag or a free mutex.
  ghost predicate Moves(s: State, s': State, i: nat)
    requires i < |s.procs|
  {
    && |s'.procs| == |s.procs| && s'.procs == s.procs[i := s'.procs[i]]
    && s'.born == s.born && s'.gen == s.gen && s'.picked == s.picked
    && OnlyOwn(s.need, s'.need, i) && OnlyOwn(s.queue, s'.queue, i)
    && s'.sched == (if s.sched.SchedulerAsleep? && s'.sched.SchedulerAwake? then SchedulerAwake else s.sched)
    && (forall j :: j != i ==> (j in s'.rq <==> j in s.rq))
    && (s'.waiting ==> s.waiting)
    && (s'.have == s.have || (Current(s, i) && !s'.have))
  }

  lemma OthersKeep(s: State, s': State, i: nat, j: nat)
    requires Inv(s) && i < |s.procs| && Moves(s, s', i)
    requires j < |s.procs| && j != i
    ensures Local(s', j)
  {
    assert Local(s, j);
  }

  lemma UnfinishedKeeps(s: State, s': State, i: nat)
    requires i < |s.procs| && |s'.procs| == |s.procs| && s'.procs == s.procs[i := s'.procs[i]]
    requires Notified(s'.procs[i]) == Notified(s.procs[i])
    ensures Unfinished(s') == Unfinished(s)
  {
  }

  ghost predicate QueueOk(s: State, s': State, i: nat) {
    || s'.rq == s.rq
    || (&& (forall k :: 0 <= k < |s'.rq| ==> s'.rq[k] < |s'.procs|)
        && (forall j, k :: 0 <= j < k < |s'.rq| ==> s'.rq[j] != s'.rq[k])
        && (i in s.rq ==> i in s'.rq || Current(s, i)))
  }

  // Flags are only written by the holder of mutex_need_scheduling, and a signal follows.
  ghost predicate FlagsOk(s: State, s': State, i: nat)
    requires i < |s.procs| == |s'.procs|
  {
    && ((s'.have == s.have && s'.waiting == s.waiting) || s.need == s'.need == Some(Process(i)))
    && (s'.sched.SchedulerAsleep? && !s'.have && !s'.waiting && s'.need == Some(Process(i)) ==> WakeUpComing(s'))
    && (s.need == Some(Process(i)) && s'.need == None ==> !s.procs[i].pc.SignalNew? && !s.procs[i].pc.SignalDone?)
  }

  lemma GlobalKeeps(s: State, s': State, i: nat)
    requires Inv(s) && i < |s.procs| && Moves(s, s', i) && QueueOk(s, s', i) && FlagsOk(s, s', i)
    ensures Global(s')
  {
  }

  lemma MoveKeeps(s: State, s': State, i: nat)
    requires Inv(s) && i < |s.procs| && Moves(s, s', i) && QueueOk(s, s', i) && FlagsOk(s, s', i)
    requires Local(s', i)
    requires Notified(s'.procs[i]) == Notified(s.procs[i]) && s'.remaining == s.remaining
    ensures Inv(s')
  {
    hide Local, Global, Notified, QueueOk, FlagsOk;
    GlobalKeeps(s, s', i);
    UnfinishedKeeps(s, s', i);
    forall j | 0 <= j < |s'.procs| ensures Local(s', j) {
      if j != i {
        OthersKeep(s, s', i, j);
      }
    }
  }

  lemma TestKeeps(s: State, i: nat)
    requires Inv(s) && i < |s.procs|
    requires s.procs[i].pc.TestLoop? || s.procs[i].pc.TestFinished?
    ensures Inv(ProcessStep(s, i).value)
  {
    hide Global, Counted, VirtualRuntime, SwitchesFit, Consumed;
    assert Local(s, i);
    match s.procs[i].pc {
      case TestLoop => MoveKeeps(s, ProcessStep(s, i).value, i);
      case TestFinished => MoveKeeps(s, ProcessStep(s, i).value, i);
    }
  }

  lemma QueueLockKeeps(s: State, i: nat)
    requires Inv(s) && i < |s.procs| && ProcessStep(s, i).Some?
    requires s.procs[i].pc.LockQueueToAdd? || s.procs[i].pc.LockQueueToCount?
    ensures Inv(ProcessStep(s, i).value)
  {
    hide Global, Counted, VirtualRuntime, SwitchesFit, Consumed;
    assert Local(s, i);
    match s.procs[i].pc {
      case LockQueueToAdd => MoveKeeps(s, ProcessStep(s, i).value, i);
      case LockQueueToCount => MoveKeeps(s, ProcessStep(s, i).value, i);
    }
  }

  lemma QueueLockKeepsToRun(s: State, i: nat)
    requires Inv(s) && i < |s.procs| && ProcessStep(s, i).Some?
    requires s.procs[i].pc.LockQueueToRun?
    ensures Inv(ProcessStep(s, i).value)
  {
    hide Global, Counted, VirtualRuntime, SwitchesFit, Consumed;
    assert Local(s, i);
    MoveKeeps(s, ProcessStep(s, i).value, i);
  }

  lemma QueueUnlockKeeps(s: State, i: nat)
    requires Inv(s) && i < |s.procs|
    requires s.procs[i].pc.UnlockQueueAdded? || s.procs[i].pc.UnlockQueueCount?
    ensures Inv(ProcessStep(s, i).value)
  {
    hide Global, Counted, VirtualRuntime, SwitchesFit, Consumed;
    assert Local(s, i);
    match s.procs[i].pc {
      case UnlockQueueAdded => MoveKeeps(s, ProcessStep(s, i).value, i);
      case UnlockQueueCount => MoveKeeps(s, ProcessStep(s, i).value, i);
    }
  }

  lemma QueueUnlockKeepsAfterRun(s: State, i: nat)
    requires Inv(s) && i < |s.procs|
    requires s.procs[i].pc.UnlockQueueRun?
    ensures Inv(ProcessStep(s, i).value)
  {
    hide Global, Counted, VirtualRuntime, SwitchesFit, Consumed;
    assert Local(s, i);
    MoveKeeps(s, ProcessStep(s, i).value, i);
  }

  lemma NeedLockKeeps(s: State, i: nat)
    requires Inv(s) && i < |s.procs| && ProcessStep(s, i).Some?
    requires s.procs[i].pc.LockNeedNew? || s.procs[i].pc.LockNeedDone?
    ensures Inv(ProcessStep(s, i).value)
  {
    hide Counted, VirtualRuntime, SwitchesFit, Consumed;
    assert Local(s, i);
    match s.procs[i].pc {
      case LockNeedNew => MoveKeeps(s, ProcessStep(s, i).value, i);
      case LockNeedDone => MoveKeeps(s, ProcessStep(s, i).value, i);
    }
  }

  lemma NeedUnlockKeeps(s: State, i: nat)
    requires Inv(s) && i < |s.procs|
    requires s.procs[i].pc.UnlockNeedNew? || s.procs[i].pc.UnlockNeedDone?
    ensures Inv(ProcessStep(s, i).value)
  {
    hide Global, Counted, VirtualRuntime, SwitchesFit, Consumed;
    assert Local(s, i);
    match s.procs[i].pc {
      case UnlockNeedNew => MoveKeeps(s, ProcessStep(s, i).value, i);
      case UnlockNeedDone => MoveKeeps(s, ProcessStep(s, i).value, i);
    }
  }

  lemma PcbLockKeeps(s: State, i: nat)
    requires Inv(s) && i < |s.procs| && ProcessStep(s, i).Some?
    requires s.procs[i].pc.LockPcb? || s.procs[i].pc.Awake?
    ensures Inv(ProcessStep(s, i).value)
  {
    hide Global, Counted, VirtualRuntime, SwitchesFit, Consumed;
    assert Local(s, i);
    match s.procs[i].pc {
      case LockPcb => MoveKeeps(s, ProcessStep(s, i).value, i);
      case Awake => MoveKeeps(s, ProcessStep(s, i).value, i);
    }
  }

  lemma PcbUnlockKeeps(s: State, i: nat)
    requires Inv(s) && i < |s.procs|
    requires s.procs[i].pc.UnlockPcb?
    ensures Inv(ProcessStep(s, i).value)
  {
    hide Global, Counted, VirtualRuntime, SwitchesFit, Consumed;
    assert Local(s, i);
    MoveKeeps(s, ProcessStep(s, i).value, i);
  }

  lemma PcbUnlockKeepsToSleep(s: State, i: nat)
    requires Inv(s) && i < |s.procs|
    requires s.procs[i].pc.TestState?
    ensures Inv(ProcessStep(s, i).value)
  {
    hide Global, Counted, VirtualRuntime, SwitchesFit, Consumed;
    assert Local(s, i);
    MoveKeeps(s, ProcessStep(s, i).value, i);
  }

  lemma SignalNewKeeps(s: State, i: nat)
    requires Inv(s) && i < |s.procs| && s.procs[i].pc.SignalNew?
    ensures Inv(ProcessStep(s, i).value)
  {
    hide Global, Counted, VirtualRuntime, SwitchesFit, Consumed;
    assert Local(s, i);
    MoveKeeps(s, ProcessStep(s, i).value, i);
  }

  lemma SignalDoneKeeps(s: State, i: nat)
    requires Inv(s) && i < |s.procs| && s.procs[i].pc.SignalDone?
    ensures Inv(ProcessStep(s, i).value)
  {
    hide Global, Counted, VirtualRuntime, SwitchesFit, Consumed;
    assert Local(s, i);
    MoveKeeps(s, ProcessStep(s, i).value, i);
  }

  lemma ClearWaitingKeeps(s: State, i: nat)
    requires Inv(s) && i < |s.procs| && s.procs[i].pc.ClearWaiting?
    ensures Inv(ProcessStep(s, i).value)
  {
    hide Counted, VirtualRuntime, SwitchesFit, Consumed;
    assert Local(s, i);
    MoveKeeps(s, ProcessStep(s, i).value, i);
  }

  lemma ClearRunningKeeps(s: State, i: nat)
    requires Inv(s) && i < |s.procs| && s.procs[i].pc.ClearRunning?
    ensures Inv(ProcessStep(s, i).value)
  {
    hide Counted, VirtualRuntime, SwitchesFit, Consumed;
    assert Local(s, i);
    MoveKeeps(s, ProcessStep(s, i).value, i);
  }

  lemma EnqueueKeeps(s: State, i: nat)
    requires Inv(s) && i < |s.procs| && s.procs[i].pc.Enqueue?
    ensures Inv(ProcessStep(s, i).value)
  {
    hide Counted, VirtualRuntime, SwitchesFit, Consumed;
    assert Local(s, i);
    MoveKeeps(s, ProcessStep(s, i).value, i);
  }

  lemma MakeReadyKeeps(s: State, i: nat)
    requires Inv(s) && i < |s.procs| && s.procs[i].pc.MakeReady?
    ensures Inv(ProcessStep(s, i).value)
  {
    hide Global, Counted, VirtualRuntime, SwitchesFit, Consumed;
    assert Local(s, i);
    MoveKeeps(s, ProcessStep(s, i).value, i);
  }

  // ---------- Consuming a slice ----------

  lemma VirtualRuntimeAdds(priority: Priority, a: int, b: int)
    ensures VirtualRuntime(priority, a) + VirtualRuntime(priority, b) == VirtualRuntime(priority, a + b)
  {
    hide Rate;
    var r := Rate(priority);
    assert r * a as real + r * b as real == r * (a as real + b as real);
  }

  lemma ConsumedAccounts(s: State, i: nat)
    requires i < |s.procs| && Accounts(s, i) && s.procs[i].pc.Consume? && !s.sched.Start?
    ensures var p, p' := s.procs[i], Consumed(s, i);
            && p.cpu < p'.cpu <= p'.length
            && p'.vruntime == VirtualRuntime(p'.priority, p'.cpu)
            && SwitchesFit(p'.length, p'.cpu, p'.switches)
  {
    hide VirtualRuntime;
    VirtualRuntimeAdds(s.procs[i].priority, s.procs[i].cpu, CpuTime(s, i));
  }

  lemma ConsumeKeeps(s: State, i: nat)
    requires Inv(s) && i < |s.procs| && s.procs[i].pc.Consume?
    ensures Inv(ProcessStep(s, i).value)
  {
    ConsumeMoves(s, i);
    ConsumeLocal(s, i);
    hide *;
    MoveKeeps(s, ProcessStep(s, i).value, i);
  }

  lemma ConsumeMoves(s: State, i: nat)
    requires Inv(s) && i < |s.procs| && s.procs[i].pc.Consume?
    ensures ProcessStep(s, i).Some?
    ensures var s' := ProcessStep(s, i).value;
            && Moves(s, s', i) && QueueOk(s, s', i) && FlagsOk(s, s', i)
            && Notified(s'.procs[i]) == Notified(s.procs[i]) && s'.remaining == s.remaining
  {
    assert Local(s, i);
    assert Current(s, i);
    RemoveProperties(s.rq, i);
    RemoveInRange(s.rq, i, |s.procs|);
    hide Counted, Accounts, Locks, CpuTime, VirtualRuntime, Remove;
  }

  lemma ConsumeLocal(s: State, i: nat)
    requires Inv(s) && i < |s.procs| && s.procs[i].pc.Consume?
    ensures |ProcessStep(s, i).value.procs| == |s.procs| && Local(ProcessStep(s, i).value, i)
  {
    assert Local(s, i);
    RemoveProperties(s.rq, i);
    ConsumedAccounts(s, i);
    hide Counted, VirtualRuntime, SwitchesFit, CpuTime, Remove;
  }

  lemma RemoveInRange(rq: seq<nat>, i: nat, n: nat)
    requires forall k :: 0 <= k < |rq| ==> rq[k] < n
    requires forall j, k :: 0 <= j < k < |rq| ==> rq[j] != rq[k]
    ensures forall k :: 0 <= k < |Remove<nat>(rq, i)| ==> Remove<nat>(rq, i)[k] < n
  {
    RemoveProperties(rq, i);
    forall k | 0 <= k < |Remove<nat>(rq, i)| ensures Remove<nat>(rq, i)[k] < n {
      assert Remove<nat>(rq, i)[k] in rq;
    }
  }

  // ---------- Counting a finished process down ----------

  lemma CountDownKeeps(s: State, i: nat)
    requires Inv(s) && i < |s.procs| && s.procs[i].pc.CountDown?
    ensures Inv(ProcessStep(s, i).value)
  {
    var s' := ProcessStep(s, i).value;
    assert Local(s, i);
    assert Current(s, i);
    assert i in Unfinished(s);
    assert Unfinished(s') == Unfinished(s) - {i};
    hide VirtualRuntime, SwitchesFit, Unfinished;
    GlobalKeeps(s, s', i);
    forall j | 0 <= j < |s'.procs| ensures Local(s', j) {
      if j != i {
        OthersKeep(s, s', i, j);
      }
    }
  }

  lemma ProcessKeeps(s: State, i: nat)
    requires Inv(s) && i < |s.procs| && ProcessStep(s, i).Some?
    ensures Inv(ProcessStep(s, i).value)
  {
    hide Inv;
    match s.procs[i].pc
    case TestLoop => TestKeeps(s, i);
    case LockQueueToAdd => QueueLockKeeps(s, i);
    case Enqueue => EnqueueKeeps(s, i);
    case UnlockQueueAdded => QueueUnlockKeeps(s, i);
    case LockNeedNew => NeedLockKeeps(s, i);
    case ClearWaiting => ClearWaitingKeeps(s, i);
    case SignalNew => SignalNewKeeps(s, i);
    case UnlockNeedNew => NeedUnlockKeeps(s, i);
    case LockPcb => PcbLockKeeps(s, i);
    case TestState => PcbUnlockKeepsToSleep(s, i);
    case Awake => PcbLockKeeps(s, i);
    case LockQueueToRun => QueueLockKeepsToRun(s, i);
    case Consume => ConsumeKeeps(s, i);
    case UnlockQueueRun => QueueUnlockKeepsAfterRun(s, i);
    case MakeReady => MakeReadyKeeps(s, i);
    case TestFinished => TestKeeps(s, i);
    case LockQueueToCount => QueueLockKeeps(s, i);
    case CountDown => CountDownKeeps(s, i);
    case UnlockQueueCount => QueueUnlockKeeps(s, i);
    case LockNeedDone => NeedLockKeeps(s, i);
    case ClearRunning => ClearRunningKeeps(s, i);
    case SignalDone => SignalDoneKeeps(s, i);
    case UnlockNeedDone => NeedUnlockKeeps(s, i);
    case UnlockPcb => PcbUnlockKeeps(s, i);
  }

  // ---------- Steps of the scheduler keep it ----------

  lemma SameProcs(s: State, s': State)
    requires s'.procs == s.procs
    ensures Unfinished(s') == Unfinished(s)
  {
  }

  lemma SameAccounts(s: State, s': State, i: nat)
    requires i < |s.procs| && s'.procs == s.procs && (s'.sched.Start? ==> s.sched.Start?) && Accounts(s, i)
    ensures Accounts(s', i)
  {
  }

  lemma StartKeeps(s: State)
    requires Inv(s) && s.sched.Start?
    ensures Inv(SchedulerStep(s).value)
  {
    hide Accounts, Unfinished;
    var s' := SchedulerStep(s).value;
    NobodyFinished(s);
    SameProcs(s, s');
    forall j | 0 <= j < |s'.procs| ensures Local(s', j) {
      assert Local(s, j);
      SameAccounts(s, s', j);
    }
  }

  lemma SchedulerTestsKeep(s: State)
    requires Inv(s) && SchedulerStep(s).Some?
    requires s.sched.TestRemaining? || s.sched.LockNeed? || s.sched.SchedulerAwake? || s.sched.TestFlags?
    ensures Inv(SchedulerStep(s).value)
  {
    hide Accounts, Unfinished;
    var s' := SchedulerStep(s).value;
    SameProcs(s, s');
    forall j | 0 <= j < |s'.procs| ensures Local(s', j) {
      assert Local(s, j);
      SameAccounts(s, s', j);
    }
  }

  lemma NobodyFinished(s: State)
    requires Inv(s) && s.sched.Start?
    ensures |Unfinished(s)| == |s.procs|
  {
    hide Global, Counted, Locks, Scheduling;
    forall i | 0 <= i < |s.procs| ensures i in Unfinished(s) { assert Local(s, i); }
    assert Unfinished(s) == Below(|s.procs|);
  }

  lemma SchedulerPicksKeep(s: State)
    requires Inv(s) && SchedulerStep(s).Some?
    requires s.sched.LockQueue? || s.sched.Pick? || s.sched.UnlockQueue? || s.sched.TestPicked?
    ensures Inv(SchedulerStep(s).value)
  {
    hide Accounts, Unfinished, SmallestIndex, Keys;
    var s' := SchedulerStep(s).value;
    SameProcs(s, s');
    forall j | 0 <= j < |s'.procs| ensures Local(s', j) {
      assert Local(s, j);
      SameAccounts(s, s', j);
    }
  }

  lemma SchedulerSetsKeep(s: State)
    requires Inv(s) && SchedulerStep(s).Some?
    requires s.sched.SetHave? || s.sched.SetWaiting? || s.sched.UnlockNeed?
    ensures Inv(SchedulerStep(s).value)
  {
    hide Accounts, Unfinished;
    var s' := SchedulerStep(s).value;
    SameProcs(s, s');
    forall j | 0 <= j < |s'.procs| ensures Local(s', j) {
      assert Local(s, j);
      SameAccounts(s, s', j);
    }
  }

  lemma SchedulerGrantsKeep(s: State)
    requires Inv(s) && SchedulerStep(s).Some?
    requires s.sched.LockPicked? || s.sched.SetRunning? || s.sched.SignalPicked? || s.sched.UnlockPicked?
    ensures Inv(SchedulerStep(s).value)
  {
    hide VirtualRuntime, SwitchesFit, Unfinished, Local;
    var s' := SchedulerStep(s).value;
    UnfinishedKeeps(s, s', s.picked.value);
    forall j | 0 <= j < |s'.procs| ensures Local(s', j) { GrantKeepsLocal(s, j); }
  }

  lemma GrantKeepsLocal(s: State, j: nat)
    requires Inv(s) && SchedulerStep(s).Some? && j < |s.procs|
    requires s.sched.LockPicked? || s.sched.SetRunning? || s.sched.SignalPicked? || s.sched.UnlockPicked?
    ensures |SchedulerStep(s).value.procs| == |s.procs| && Local(SchedulerStep(s).value, j)
  {
    hide VirtualRuntime, SwitchesFit, Unfinished, Counted;
    assert Local(s, s.picked.value) && Local(s, j);
  }

  lemma SchedulerKeeps(s: State)
    requires Inv(s) && SchedulerStep(s).Some?
    ensures Inv(SchedulerStep(s).value)
  {
    hide Inv;
    match s.sched
    case Start => StartKeeps(s);
    case TestRemaining => SchedulerTestsKeep(s);
    case LockNeed => SchedulerTestsKeep(s);
    case SchedulerAwake => SchedulerTestsKeep(s);
    case TestFlags => SchedulerTestsKeep(s);
    case LockQueue => SchedulerPicksKeep(s);
    case Pick => SchedulerPicksKeep(s);
    case UnlockQueue => SchedulerPicksKeep(s);
    case TestPicked => SchedulerPicksKeep(s);
    case LockPicked => SchedulerGrantsKeep(s);
    case SetRunning => SchedulerGrantsKeep(s);
    case SignalPicked => SchedulerGrantsKeep(s);
    case UnlockPicked => SchedulerGrantsKeep(s);
    case SetHave => SchedulerSetsKeep(s);
    case SetWaiting => SchedulerSetsKeep(s);
    case UnlockNeed => SchedulerSetsKeep(s);
  }

  // ---------- The other steps, and all of them ----------

  lemma CreateKeeps(s: State)
    requires Inv(s) && s.gen.Create? && s.born < |s.procs|
    ensures Inv(GeneratorStep(s).value)
  {
    hide Local, Global, Counted;
    var s' := GeneratorStep(s).value;
    CreateKeepsGlobal(s);
    forall j | 0 <= j < |s'.procs| ensures Local(s', j) { CreateKeepsLocal(s, j); }
  }

  lemma CreateKeepsGlobal(s: State)
    requires Inv(s) && s.gen.Create? && s.born < |s.procs|
    ensures Global(GeneratorStep(s).value) && Counted(GeneratorStep(s).value)
  {
    assert Local(s, s.born);
    hide Accounts, Unfinished, Local;
    UnfinishedKeeps(s, GeneratorStep(s).value, s.born);
  }

  lemma CreateKeepsLocal(s: State, j: nat)
    requires Inv(s) && s.gen.Create? && s.born < |s.procs| && j < |s.procs|
    ensures |GeneratorStep(s).value.procs| == |s.procs| && Local(GeneratorStep(s).value, j)
  {
    hide VirtualRuntime, SwitchesFit, Unfinished, Counted;
    assert Local(s, s.born) && Local(s, j);
  }

  lemma PollKeeps(s: State)
    requires Inv(s) && GeneratorStep(s).Some? && !s.gen.Create?
    ensures Inv(GeneratorStep(s).value)
  {
    hide VirtualRuntime, SwitchesFit, Unfinished, Accounts;
    var s' := GeneratorStep(s).value;
    SameProcs(s, s');
    forall j | 0 <= j < |s'.procs| ensures Local(s', j) {
      assert Local(s, j);
      SameAccounts(s, s', j);
    }
  }

  lemma SpuriousSchedulerKeeps(s: State)
    requires Inv(s) && s.sched.SchedulerAsleep?
    ensures Inv(s.(sched := SchedulerAwake))
  {
    hide VirtualRuntime, SwitchesFit, Unfinished, Accounts;
    var s' := s.(sched := SchedulerAwake);
    SameProcs(s, s');
    forall j | 0 <= j < |s'.procs| ensures Local(s', j) {
      assert Local(s, j);
      SameAccounts(s, s', j);
    }
  }

  lemma SpuriousProcessKeeps(s: State, i: nat)
    requires Inv(s) && i < |s.procs| && s.procs[i].pc.Asleep?
    ensures Inv(Goto(s, i, Awake))
  {
    hide Global, Counted, VirtualRuntime, SwitchesFit;
    assert Local(s, i);
    MoveKeeps(s, Goto(s, i, Awake), i);
  }

  /** Every step of every thread keeps the invariant. */
  lemma StepKeeps(s: State, a: Actor)
    requires Inv(s) && Step(s, a).Some?
    ensures Inv(Step(s, a).value)
  {
    hide Inv;
    match a
    case Sched => SchedulerKeeps(s);
    case Gen => if s.gen.Create? { CreateKeeps(s); } else { PollKeeps(s); }
    case Worker(i) => ProcessKeeps(s, i);
    case SpuriousSched => SpuriousSchedulerKeeps(s);
    case SpuriousProc(i) => SpuriousProcessKeeps(s, i);
  }

  lemma {:induction false} RunKeeps(s: State, actors: seq<Actor>)
    requires Inv(s) && Run(s, actors).Some?
    ensures Inv(Run(s, actors).value)
  {
    if actors != [] {
      var n := |actors| - 1;
      RunKeeps(s, actors[..n]);
      StepKeeps(Run(s, actors[..n]).value, actors[n]);
    }
  }

  /** So it holds in every reachable state. */
  lemma ReachableInv(ps: seq<Params>, s: State)
    requires Reachable(ps, s)
    ensures Inv(s)
  {
    var actors :| Run(Init(ps), actors) == Some(s);
    InitInv(ps);
    RunKeeps(Init(ps), actors);
  }
}
