/** Every run without spurious wake-ups comes to an end, whatever order the threads move in: each step
    lowers a measure made of remaining processor time and program counters. No fairness is assumed. */
module SchedulerProgress {
  import opened CfsArithmetic
  import opened SchedulerProtocol
  import opened SchedulerInvariant
  import opened SchedulerSafety

  // Steps left before the process next consumes a slice, or finishes.
  function ProcessRank(p: Proc): nat {
    match p.pc
    case UnlockQueueRun => 27
    case MakeReady => 26
    case TestFinished => 25
    case LockQueueToCount => 24
    case CountDown => 23
    case UnlockQueueCount => 22
    case LockNeedDone => 21
    case ClearRunning => 20
    case SignalDone => 19
    case UnlockNeedDone => 18
    case UnlockPcb => 17
    case Unborn => 17
    case TestLoop => 16
    case LockQueueToAdd => 15
    case Enqueue => 14
    case UnlockQueueAdded => 13
    case LockNeedNew => 12
    case ClearWaiting => 11
    case SignalNew => 10
    case UnlockNeedNew => 9
    case LockPcb => 8
    case Awake => if p.state == Ready then 7 else 4
    case TestState => if p.state == Ready then 6 else 3
    case Asleep => 5
    case LockQueueToRun => 2
    case Consume => 1
    case Finished => 0
  }

  function ProcessMeasure(p: Proc): nat {
    30 * (if p.cpu < p.length then p.length - p.cpu else 0) + ProcessRank(p)
  }

  // Steps left before the scheduler next sleeps or leaves; more of them when it is free to choose.
  function SchedulerRank(s: State): nat {
    var blocked := s.have || s.waiting;
    match s.sched
    case Start => 19
    case TestRemaining => if blocked then 4 else 18
    case LockNeed => if blocked then 3 else 17
    case SchedulerAwake => if blocked then 3 else 17
    case TestFlags => if blocked then 2 else 16
    case LockQueue => 15
    case Pick => 14
    case UnlockQueue => 13
    case TestPicked => 12
    case LockPicked => 11
    case SetRunning => 10
    case SignalPicked => 9
    case UnlockPicked => 8
    case SetHave => 7
    case SetWaiting => 7
    case UnlockNeed => 5
    case SchedulerAsleep => 1
    case Exited => 0
  }

  function GeneratorRank(s: State): int {
    3 * (|s.procs| - s.born) + match s.gen case Create => 0 case PollLock => 2 case PollUnlock => 1
  }

  function Total(procs: seq<Proc>): nat {
    if procs == [] then 0 else ProcessMeasure(procs[0]) + Total(procs[1..])
  }

  function Measure(s: State): int {
    20 * Total(s.procs) + SchedulerRank(s) + GeneratorRank(s)
  }

  lemma {:induction false} TotalUpdate(procs: seq<Proc>, i: nat, p: Proc)
    requires i < |procs|
    ensures Total(procs[i := p]) == Total(procs) - ProcessMeasure(procs[i]) + ProcessMeasure(p)
  {
    if i == 0 {
      assert procs[i := p][1..] == procs[1..];
    } else {
      TotalUpdate(procs[1..], i - 1, p);
      assert procs[i := p][1..] == procs[1..][i - 1 := p];
    }
  }

  // A step of process i changes no other process record, and of the scheduler at most that it wakes up.
  ghost predicate StepShaped(s: State, s': State, i: nat)
    requires i < |s.procs|
  {
    && |s'.procs| == |s.procs| && s'.procs == s.procs[i := s'.procs[i]]
    && s'.born == s.born && s'.gen == s.gen
    && (s'.sched == s.sched || (s.sched.SchedulerAsleep? && s'.sched.SchedulerAwake?))
    && s'.procs[i].length == s.procs[i].length
  }

  lemma StepShape(s: State, i: nat)
    requires i < |s.procs| && ProcessStep(s, i).Some?
    ensures StepShaped(s, ProcessStep(s, i).value, i)
  {
    hide Consumed;
    match s.procs[i].pc {
      case TestLoop =>
      case LockQueueToAdd =>
      case Enqueue =>
      case UnlockQueueAdded =>
      case LockNeedNew =>
      case ClearWaiting =>
      case SignalNew =>
      case UnlockNeedNew =>
      case LockPcb =>
      case TestState =>
      case Awake =>
      case LockQueueToRun =>
      case Consume => ConsumedShape(s, i);
      case UnlockQueueRun =>
      case MakeReady =>
      case TestFinished =>
      case LockQueueToCount =>
      case CountDown =>
      case UnlockQueueCount =>
      case LockNeedDone =>
      case ClearRunning =>
      case SignalDone =>
      case UnlockNeedDone =>
      case UnlockPcb =>
    }
  }

  lemma ConsumedShape(s: State, i: nat)
    requires i < |s.procs|
    ensures var p, p' := s.procs[i], Consumed(s, i);
            p'.length == p.length && p'.pc == UnlockQueueRun && p'.state == p.state && p'.priority == p.priority
  {
  }

  lemma ConsumeLowers(s: State, i: nat)
    requires Inv(s) && i < |s.procs| && s.procs[i].pc.Consume?
    ensures ProcessMeasure(Consumed(s, i)) < ProcessMeasure(s.procs[i])
  {
    hide VirtualRuntime, Global, Counted;
    assert Local(s, i);
    ConsumedShape(s, i);
  }

  lemma PcLowers(s: State, s': State, i: nat)
    requires i < |s.procs| == |s'.procs| && ProcessStep(s, i).Some? && ProcessStep(s, i).value == s'
    requires !s.procs[i].pc.Consume?
    ensures ProcessMeasure(s'.procs[i]) < ProcessMeasure(s.procs[i])
  {
    hide Consumed;
    match s.procs[i].pc {
      case TestLoop =>
      case LockQueueToAdd =>
      case Enqueue =>
      case UnlockQueueAdded =>
      case LockNeedNew =>
      case ClearWaiting =>
      case SignalNew =>
      case UnlockNeedNew =>
      case LockPcb =>
      case TestState =>
      case Awake =>
      case LockQueueToRun =>
      case UnlockQueueRun =>
      case MakeReady =>
      case TestFinished =>
      case LockQueueToCount =>
      case CountDown =>
      case UnlockQueueCount =>
      case LockNeedDone =>
      case ClearRunning =>
      case SignalDone =>
      case UnlockNeedDone =>
      case UnlockPcb =>
    }
  }

  lemma SchedulerRankBound(s: State, s': State)
    requires s'.sched == s.sched || (s.sched.SchedulerAsleep? && s'.sched.SchedulerAwake?)
    ensures SchedulerRank(s') <= SchedulerRank(s) + 16
  {
  }

  lemma ProcessLowers(s: State, i: nat)
    requires Inv(s) && i < |s.procs| && ProcessStep(s, i).Some?
    ensures Measure(ProcessStep(s, i).value) < Measure(s)
  {
    var s' := ProcessStep(s, i).value;
    ProcessMeasureLowers(s, i);
    hide *;
    StepShape(s, i);
    LoweredTotal(s, s', i);
  }

  lemma ProcessMeasureLowers(s: State, i: nat)
    requires Inv(s) && i < |s.procs| && ProcessStep(s, i).Some?
    ensures |ProcessStep(s, i).value.procs| == |s.procs|
    ensures ProcessMeasure(ProcessStep(s, i).value.procs[i]) < ProcessMeasure(s.procs[i])
  {
    hide ProcessMeasure, Inv;
    StepShape(s, i);
    if s.procs[i].pc.Consume? {
      ConsumeLowers(s, i);
    } else {
      PcLowers(s, ProcessStep(s, i).value, i);
    }
  }

  lemma LoweredTotal(s: State, s': State, i: nat)
    requires i < |s.procs| && StepShaped(s, s', i)
    requires ProcessMeasure(s'.procs[i]) < ProcessMeasure(s.procs[i])
    ensures Measure(s') < Measure(s)
  {
    hide ProcessMeasure, Total, SchedulerRank;
    SchedulerRankBound(s, s');
    TotalUpdate(s.procs, i, s'.procs[i]);
  }

  lemma SchedulerMovesLowers(s: State)
    requires Inv(s) && SchedulerStep(s).Some?
    requires !s.sched.LockPicked? && !HoldsPicked(s.sched)
    ensures Measure(SchedulerStep(s).value) < Measure(s)
  {
    FlagsAtUnlock(s);
    hide Inv, Total, SmallestPcb;
    match s.sched {
      case Start =>
      case TestRemaining =>
      case LockNeed =>
      case TestFlags =>
      case SchedulerAwake =>
      case LockQueue =>
      case Pick =>
      case UnlockQueue =>
      case TestPicked =>
      case SetHave =>
      case SetWaiting =>
      case UnlockNeed =>
    }
  }

  lemma FlagsAtUnlock(s: State)
    requires Inv(s)
    ensures s.sched.UnlockNeed? ==> s.have || s.waiting
  {
  }

  lemma SchedulerGrantsLowers(s: State)
    requires Inv(s) && SchedulerStep(s).Some?
    requires s.sched.LockPicked? || HoldsPicked(s.sched)
    ensures Measure(SchedulerStep(s).value) < Measure(s)
  {
    hide Counted, Accounts, Total;
    var s', i := SchedulerStep(s).value, s.picked.value;
    assert Local(s, i);
    TotalUpdate(s.procs, i, s'.procs[i]);
    assert ProcessMeasure(s'.procs[i]) <= ProcessMeasure(s.procs[i]);
  }

  lemma GeneratorLowers(s: State)
    requires Inv(s) && GeneratorStep(s).Some?
    ensures Measure(GeneratorStep(s).value) < Measure(s)
  {
    if s.gen.Create? {
      assert Local(s, s.born);
      TotalUpdate(s.procs, s.born, s.procs[s.born].(pc := TestLoop));
    }
  }

  predicate Spurious(a: Actor) { a.SpuriousSched? || a.SpuriousProc? }

  /** Every step but a spurious wake-up lowers the measure. */
  lemma StepLowers(s: State, a: Actor)
    requires Inv(s) && Step(s, a).Some? && !Spurious(a)
    ensures 0 <= Measure(Step(s, a).value) < Measure(s)
  {
    hide Inv, Measure;
    StepKeeps(s, a);
    MeasureIsNatural(Step(s, a).value);
    match a
    case Sched =>
      if s.sched.LockPicked? || HoldsPicked(s.sched) { SchedulerGrantsLowers(s); } else { SchedulerMovesLowers(s); }
    case Gen => GeneratorLowers(s);
    case Worker(i) => ProcessLowers(s, i);
  }

  lemma MeasureIsNatural(s: State)
    requires Inv(s)
    ensures Measure(s) >= 0
  {
  }

  lemma {:induction false} RunsAreBounded(s: State, actors: seq<Actor>)
    requires Inv(s) && Run(s, actors).Some?
    requires forall k :: 0 <= k < |actors| ==> !Spurious(actors[k])
    ensures |actors| + Measure(Run(s, actors).value) <= Measure(s)
  {
    hide Inv, Measure;
    if actors != [] {
      var n := |actors| - 1;
      RunsAreBounded(s, actors[..n]);
      RunKeeps(s, actors[..n]);
      StepLowers(Run(s, actors[..n]).value, actors[n]);
    }
  }

  // ---------- Termination ----------

  lemma StepKeepsLengths(s: State, a: Actor)
    requires Step(s, a).Some?
    ensures var s' := Step(s, a).value;
            |s'.procs| == |s.procs| && forall i :: 0 <= i < |s.procs| ==> s'.procs[i].length == s.procs[i].length
  {
    if a.Worker? {
      hide ProcessStep;
      StepShape(s, a.id);
    }
  }

  lemma {:induction false} LengthsKept(s: State, actors: seq<Actor>)
    requires Run(s, actors).Some?
    ensures |Run(s, actors).value.procs| == |s.procs|
    ensures forall i :: 0 <= i < |s.procs| ==> Run(s, actors).value.procs[i].length == s.procs[i].length
  {
    if actors != [] {
      hide Step;
      var n := |actors| - 1;
      LengthsKept(s, actors[..n]);
      StepKeepsLengths(Run(s, actors[..n]).value, actors[n]);
    }
  }

  /** With positive lengths, every run without spurious wake-ups has a bounded number of steps, and one
      that cannot go on has finished every process with exactly its length used and has left the
      scheduler's loop. */
  lemma EveryRunFinishes(ps: seq<Params>, actors: seq<Actor>)
    requires forall i :: 0 <= i < |ps| ==> ps[i].length > 0
    requires forall k :: 0 <= k < |actors| ==> !Spurious(actors[k])
    requires Run(Init(ps), actors).Some?
    ensures |actors| <= Measure(Init(ps))
    ensures var s := Run(Init(ps), actors).value;
            Quiescent(s) ==>
              && s.sched.Exited?
              && |s.procs| == |ps|
              && forall i :: 0 <= i < |ps| ==> s.procs[i].pc.Finished? && s.procs[i].cpu == ps[i].length
  {
    var s := Run(Init(ps), actors).value;
    InitInv(ps);
    RunsAreBounded(Init(ps), actors);
    RunKeeps(Init(ps), actors);
    MeasureIsNatural(s);
    if Quiescent(s) {
      hide Measure, Quiescent, Inv;
      LengthsKept(Init(ps), actors);
      NoDeadlock(ps, s);
      forall i | 0 <= i < |ps| ensures s.procs[i].pc.Finished? && s.procs[i].cpu == ps[i].length {
        ExactAccounts(ps, s, i);
      }
    }
  }

  /** A process of length zero or less keeps the scheduler from ever leaving its loop. */
  lemma NonPositiveLengthHangs(ps: seq<Params>, actors: seq<Actor>, i: nat)
    requires i < |ps| && ps[i].length <= 0
    requires Run(Init(ps), actors).Some?
    ensures !Run(Init(ps), actors).value.sched.Exited?
  {
    var s := Run(Init(ps), actors).value;
    InitInv(ps);
    RunKeeps(Init(ps), actors);
    LengthsKept(Init(ps), actors);
    assert i in Unfinished(s);
  }
}
