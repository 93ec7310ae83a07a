/** What the invariant means: mutual exclusion, no lost wake-up, and no deadlock in spite of the two
    threads taking their locks in opposite orders. */
module SchedulerSafety {
  import opened CfsArithmetic
  import opened Collections
  import opened SchedulerProtocol
  import opened SchedulerInvariant

  /** At most one process is running; whoever runs was granted the processor; a recorded running process
      and the wait for a new one exclude each other. */
  lemma MutualExclusion(ps: seq<Params>, s: State)
    requires Reachable(ps, s)
    ensures forall i, j :: 0 <= i < j < |s.procs| ==> !(s.procs[i].state == Running && s.procs[j].state == Running)
    ensures forall i :: 0 <= i < |s.procs| && s.procs[i].state == Running ==> s.have || Granted(s.sched)
    ensures s.have ==> !s.waiting
  {
    ReachableInv(ps, s);
    forall i | 0 <= i < |s.procs| && s.procs[i].state == Running ensures Current(s, i) { assert Local(s, i); }
  }

  /** No wake-up is lost. A scheduler asleep without a reason has a signal coming; a process that was
      set running while asleep has one coming; and while the scheduler waits for a new process, a process
      on the run queue has yet to announce itself. */
  lemma NoLostWakeup(ps: seq<Params>, s: State, i: nat)
    requires Reachable(ps, s) && i < |s.procs|
    ensures s.sched.SchedulerAsleep? ==> s.have || s.waiting || WakeUpComing(s)
    ensures s.procs[i].pc.Asleep? && s.procs[i].state == Running ==> s.sched.SignalPicked? && s.picked == Some(i)
    ensures i in s.rq && s.waiting ==> Announcing(s.procs[i].pc)
  {
    ReachableInv(ps, s);
    assert Local(s, i);
  }

  /** The lock orders are inverted: the scheduler takes a process's mutex while it holds
      mutex_need_scheduling, a process takes them the other way round. But when the scheduler wants the
      mutex, that process is ready, on the run queue, and not waiting for anything the scheduler holds. */
  lemma InvertedLocksAreSafe(ps: seq<Params>, s: State)
    requires Reachable(ps, s) && s.sched.LockPicked?
    ensures PickedExists(s) && s.picked.value in s.rq && PickedProc(s).state == Ready
    ensures PickedProc(s).lock == None || PickedProc(s).pc == TestState
  {
    ReachableInv(ps, s);
    assert Local(s, s.picked.value);
  }

  // ---------- No deadlock ----------

  // No thread can move, spurious wake-ups aside.
  ghost predicate Quiescent(s: State) {
    SchedulerStep(s) == None && GeneratorStep(s) == None &&
    forall i :: 0 <= i < |s.procs| ==> ProcessStep(s, i) == None
  }

  predicate AllPositive(s: State) { forall i :: 0 <= i < |s.procs| ==> s.procs[i].length > 0 }

  lemma QueueHolderMoves(s: State, i: nat)
    requires Inv(s) && i < |s.procs| && s.queue == Some(Process(i))
    ensures ProcessStep(s, i).Some?
  {
    assert Local(s, i);
  }

  lemma NeedHolderMoves(s: State, i: nat)
    requires Inv(s) && i < |s.procs| && s.need == Some(Process(i))
    ensures ProcessStep(s, i).Some?
  {
    assert Local(s, i);
  }

  // Nobody keeps the mutex of the picked process but that process itself, testing its state.
  lemma PickedMoves(s: State)
    requires Inv(s) && s.sched.LockPicked?
    ensures PickedExists(s)
    ensures SchedulerStep(s).Some? || ProcessStep(s, s.picked.value).Some?
  {
    assert Local(s, s.picked.value);
  }

  lemma QueueFree(s: State)
    requires Inv(s) && Quiescent(s)
    ensures s.queue == None
  {
    if s.queue.Some? && s.queue.value.Process? {
      QueueHolderMoves(s, s.queue.value.id);
    }
  }

  lemma NeedFree(s: State)
    requires Inv(s) && Quiescent(s)
    ensures s.need == None
  {
    QueueFree(s);
    if s.need.Some? && s.need.value.Process? {
      NeedHolderMoves(s, s.need.value.id);
    } else if s.sched.LockPicked? {
      PickedMoves(s);
    }
  }

  lemma AsleepOrFinished(s: State, i: nat)
    requires Inv(s) && Quiescent(s) && i < |s.procs|
    ensures s.procs[i].pc.Asleep? || s.procs[i].pc.Finished?
    ensures s.procs[i].state == Ready
  {
    QueueFree(s);
    NeedFree(s);
    assert ProcessStep(s, i) == None;
    assert Local(s, i);
  }

  lemma HaveMeansActive(s: State)
    requires Inv(s) && s.have
    ensures PickedExists(s) && Active(PickedProc(s))
  {
    assert Local(s, s.picked.value);
  }

  lemma NobodyRuns(s: State)
    requires Inv(s) && Quiescent(s)
    ensures !s.have
  {
    if s.have {
      AsleepOrFinished(s, s.picked.value);
      HaveMeansActive(s);
    }
  }

  // A process asleep is unfinished and announced.
  lemma AsleepMeansMore(s: State, i: nat)
    requires Inv(s) && i < |s.procs| && s.procs[i].pc.Asleep?
    ensures !s.sched.Exited? && !s.waiting
  {
    assert Local(s, i);
    assert i in Unfinished(s);
  }

  lemma NobodyAsleep(s: State, i: nat)
    requires Inv(s) && Quiescent(s) && i < |s.procs|
    ensures s.procs[i].pc.Finished?
  {
    NeedFree(s);
    NobodyRuns(s);
    AsleepOrFinished(s, i);
    if s.procs[i].pc.Asleep? {
      AsleepMeansMore(s, i);
    }
  }

  /** The threads only ever stop when every process has finished. With positive lengths the scheduler
      has then left its loop; a process of length zero or less makes it sleep forever instead. */
  lemma NoDeadlock(ps: seq<Params>, s: State)
    requires Reachable(ps, s) && Quiescent(s)
    ensures forall i :: 0 <= i < |s.procs| ==> s.procs[i].pc.Finished?
    ensures AllPositive(s) <==> s.sched.Exited?
    ensures !AllPositive(s) <==> s.sched.SchedulerAsleep?
  {
    ReachableInv(ps, s);
    NeedFree(s);
    forall i | 0 <= i < |s.procs| ensures s.procs[i].pc.Finished? { NobodyAsleep(s, i); }
    SchedulerAtRest(s);
  }

  lemma SchedulerAtRest(s: State)
    requires Inv(s) && Quiescent(s)
    requires forall i :: 0 <= i < |s.procs| ==> s.procs[i].pc.Finished?
    ensures s.sched == if AllPositive(s) then Exited else SchedulerAsleep
  {
    NeedFree(s);
    QueueFree(s);
    NobodyRuns(s);
    RemainingAtRest(s);
  }

  lemma RemainingAtRest(s: State)
    requires Inv(s) && !s.sched.Start?
    requires forall i :: 0 <= i < |s.procs| ==> s.procs[i].pc.Finished?
    ensures s.remaining == 0 <==> AllPositive(s)
  {
    if AllPositive(s) {
      forall i | 0 <= i < |s.procs| ensures Notified(s.procs[i]) { assert Local(s, i); }
      assert Unfinished(s) == {};
    } else {
      var i :| 0 <= i < |s.procs| && s.procs[i].length <= 0;
      assert i in Unfinished(s);
    }
  }

  /** A process never uses more than its length, and a finished one has used exactly that, in slices of
      at least the minimum granularity but for the last. */
  lemma ExactAccounts(ps: seq<Params>, s: State, i: nat)
    requires Reachable(ps, s) && i < |s.procs| && s.procs[i].length > 0
    ensures 0 <= s.procs[i].cpu <= s.procs[i].length
    ensures s.procs[i].pc.Finished? ==>
              s.procs[i].cpu == s.procs[i].length && 10 * (s.procs[i].switches - 1) < s.procs[i].length
  {
    ReachableInv(ps, s);
    hide VirtualRuntime;
    assert Local(s, i);
  }

  /** Virtual runtime is real runtime scaled by weight, at all times. */
  lemma ExactVirtualRuntime(ps: seq<Params>, s: State, i: nat)
    requires Reachable(ps, s) && i < |s.procs|
    ensures s.procs[i].vruntime * GetWeight(s.procs[i].priority) as real == 1024.0 * s.procs[i].cpu as real
  {
    hide VirtualRuntime, GetWeight;
    VirtualRuntimeIsScaled(s.procs[i].priority, s.procs[i].cpu);
    assert s.procs[i].vruntime == VirtualRuntime(s.procs[i].priority, s.procs[i].cpu) by {
      ReachableInv(ps, s);
      assert Local(s, i);
    }
  }
}
