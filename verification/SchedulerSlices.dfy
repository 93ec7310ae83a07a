/** What one slice is: how long, measured against whose weights, and how many of them a process took. */
module SchedulerSlices {
  import opened Arithmetic
  import opened CfsArithmetic
  import opened Collections
  import opened SchedulerProtocol
  import opened SchedulerInvariant
  import opened SchedulerProgress
  import opened SchedulerUnfairness

  // ---------- The weight of the others ----------

  // The weight of the first n processes that are listed in q.
  function WeightIn(s: State, q: seq<nat>, n: nat): nat
    requires n <= |s.procs|
  {
    if n == 0 then 0
    else WeightIn(s, q, n - 1) + if n - 1 in q then GetWeight(s.procs[n - 1].priority) else 0
  }

  // The weight of the processes on the run queue, but for process i.
  function OthersWeight(s: State, i: nat, n: nat): nat
    requires n <= |s.procs|
  {
    if n == 0 then 0
    else OthersWeight(s, i, n - 1) + if n - 1 in s.rq && n - 1 != i then GetWeight(s.procs[n - 1].priority) else 0
  }

  lemma {:induction false} WithoutSelf(s: State, i: nat, q: seq<nat>, n: nat)
    requires n <= |s.procs| && forall k :: k in q <==> k in s.rq && k != i
    ensures WeightIn(s, q, n) == OthersWeight(s, i, n)
  {
    if n > 0 {
      hide GetWeight;
      WithoutSelf(s, i, q, n - 1);
    }
  }

  lemma {:induction false} NoneListed(s: State, n: nat)
    requires n <= |s.procs|
    ensures WeightIn(s, [], n) == 0
  {
    if n > 0 {
      NoneListed(s, n - 1);
    }
  }

  lemma {:induction false} OneMoreListed(s: State, q: seq<nat>, x: nat, n: nat)
    requires n <= |s.procs| && x !in q && x < |s.procs|
    ensures WeightIn(s, q + [x], n) == WeightIn(s, q, n) + if x < n then GetWeight(s.procs[x].priority) else 0
  {
    if n > 0 {
      hide GetWeight;
      OneMoreListed(s, q, x, n - 1);
      assert n - 1 in q + [x] <==> n - 1 in q || n - 1 == x;
    }
  }

  /** The loop over the queue adds up the weight of every listed process once. */
  lemma {:induction false} QueueWeight(s: State, q: seq<nat>)
    requires NoDup(q) && forall k :: 0 <= k < |q| ==> q[k] < |s.procs|
    ensures TotalWeight(Priorities(s, q)) == WeightIn(s, q, |s.procs|)
  {
    hide WeightIn, GetWeight;
    if q == [] {
      NoneListed(s, |s.procs|);
    } else {
      var n := |q| - 1;
      QueueWeight(s, q[..n]);
      OneMorePriority(s, q);
      hide TotalWeight;
      OneMoreListed(s, q[..n], q[n], |s.procs|);
      assert q == q[..n] + [q[n]];
    }
  }

  lemma OneMorePriority(s: State, q: seq<nat>)
    requires q != [] && q[|q| - 1] < |s.procs|
    ensures TotalWeight(Priorities(s, q))
         == TotalWeight(Priorities(s, q[..|q| - 1])) + GetWeight(s.procs[q[|q| - 1]].priority)
  {
    assert Priorities(s, q)[..|q| - 1] == Priorities(s, q[..|q| - 1]);
  }

  // ---------- The length of a slice ----------

  /** x is the slice of weight w beside others that weigh total: 100 if there are none, and otherwise 100 w / total,
      rounded to the nearest, halves up, but at least 10. */
  predicate SliceBeside(x: int, w: nat, total: nat) {
    if total == 0 then x == 100
    else if x == 10 then 200 * w < 21 * total
    else x > 10 && 200 * w - total < 2 * (x * total) <= 200 * w + total
  }

  lemma TimesliceBeside(w: nat, total: nat)
    ensures SliceBeside(Timeslice(w, total), w, total)
  {
    if total > 0 {
      var r := Rounded(w * SCHED_LATENCY, total);
      RoundedBounds(w * SCHED_LATENCY, total);
      hide Rounded;
      assert r * (2 * total) == 2 * (r * total);
      if r <= 10 {
        MulLe(r, 10, total);
      }
    }
  }

  /** A process uses the slice of its weight beside the other processes on the run queue, itself left out, or what is
      left of its length. */
  lemma SliceOfConsume(ps: seq<Params>, s: State, i: nat) returns (x: nat)
    requires Reachable(ps, s) && i < |s.procs| && s.procs[i].pc.Consume?
    ensures var p, s' := s.procs[i], ProcessStep(s, i).value;
            && SliceBeside(x, GetWeight(p.priority), OthersWeight(s, i, |s.procs|))
            && |s'.procs| == |s.procs|
            && s'.procs[i].cpu - p.cpu == (if p.length - p.cpu > x then x else p.length - p.cpu)
  {
    ReachableInv(ps, s);
    var q, w := Remove<nat>(s.rq, i), GetWeight(s.procs[i].priority);
    QueueOfOthers(s, i);
    x := Timeslice(w, TotalWeight(Priorities(s, q)));
    TimesliceBeside(w, OthersWeight(s, i, |s.procs|));
    hide Inv, GetWeight, Timeslice, VirtualRuntime, TotalWeight, OthersWeight, Remove;
  }

  lemma QueueOfOthers(s: State, i: nat)
    requires Inv(s) && i < |s.procs|
    ensures TotalWeight(Priorities(s, Remove<nat>(s.rq, i))) == OthersWeight(s, i, |s.procs|)
  {
    hide TotalWeight, WeightIn, OthersWeight, GetWeight;
    RemoveProperties(s.rq, i);
    RemoveInRange(s.rq, i, |s.procs|);
    QueueWeight(s, Remove<nat>(s.rq, i));
    WithoutSelf(s, i, Remove<nat>(s.rq, i), |s.procs|);
  }

  // ---------- The largest gain ----------

  /** Two processes with priorities 12 and 19 can get into a state in which the next step of the first gains exactly the
      largest there is: 467 time units at weight 70. */
  lemma LargestGainInARun() returns (ps: seq<Params>, actors: seq<Actor>, s: State)
    ensures |ps| == 2 && ps[0].priority == 12 && ps[1].priority == 19 && Run(Init(ps), actors) == Some(s)
    ensures |s.procs| == 2 && s.procs[0].pc.Consume? && ProcessStep(s, 0).Some?
    ensures var s' := ProcessStep(s, 0).value;
            && |s'.procs| == 2 && s'.procs[0].cpu == s.procs[0].cpu + 467
            && s'.procs[0].vruntime - s.procs[0].vruntime == 1024.0 * 467.0 / 70.0
  {
    ps := [Params(1000, 12), Params(1000, 19)];
    var a, b := NewAccount(ps[0]), NewAccount(ps[1]);
    actors, s := BothQueued(ps);
    ConsumeBeside(s, a, b);
  }

  lemma BothQueued(ps: seq<Params>) returns (d: seq<Actor>, t: State)
    requires |ps| == 2 && ps[0].length > 0 && ps[1].length > 0
    ensures Run(Init(ps), d) == Some(t) && t.rq == [1, 0] && |t.procs| == 2
    ensures t.procs[0] == ProcOf(NewAccount(ps[0]), Consume, Running, Some(Process(0)))
    ensures t.procs[1] == ProcOf(NewAccount(ps[1]), Asleep, Ready, None)
  {
    hide Run, Init, Created, Steps;
    var start;
    d, t, start := FirstTurn(ps);
    d, t := Grants(Init(ps), d, t, 0, NewAccount(ps[0]));
    d, t := QueuesUp(Init(ps), d, t, 1, NewAccount(ps[1]));
    assert [1] + [0] == [1, 0];
    WakesUp(t, 0, NewAccount(ps[0]));
    var u := With(t, 0, ProcOf(NewAccount(ps[0]), Consume, Running, Some(Process(0)))).(queue := Some(Process(0)));
    d := Follow(Init(ps), d, t, Worker(0), 3, u);
    t := u;
  }

  lemma ConsumeBeside(s: State, a: Account, b: Account)
    requires a == Account(1000, 12, 0, 0.0, 0) && b == Account(1000, 19, 0, 0.0, 0)
    requires s.rq == [1, 0] && |s.procs| == 2
    requires s.procs[0] == ProcOf(a, Consume, Running, Some(Process(0)))
    requires s.procs[1] == ProcOf(b, Asleep, Ready, None)
    ensures ProcessStep(s, 0).Some?
    ensures var s' := ProcessStep(s, 0).value;
            && |s'.procs| == 2 && s'.procs[0].cpu == s.procs[0].cpu + 467
            && s'.procs[0].vruntime - s.procs[0].vruntime == 1024.0 * 467.0 / 70.0
  {
    assert Remove<nat>([1, 0], 0) == [1] by { RemoveSecond(); }
    assert Priorities(s, [1]) == [19];
    SliceBesideLightest();
    hide Timeslice, TotalWeight, GetWeight, VirtualRuntime, Remove, SchedulerStep, GeneratorStep;
  }

  lemma RemoveSecond()
    ensures Remove<nat>([1, 0], 0) == [1]
  {
    assert [1, 0][1..] == [0] && Remove<nat>([0], 0) == [];
    assert [1] + [] == [1];
  }

  lemma SliceBesideLightest()
    ensures Timeslice(GetWeight(12), TotalWeight([19])) == 467
    ensures VirtualRuntime(12, 467) == 1024.0 * 467.0 / 70.0
  {
    assert TotalWeight([19]) == TotalWeight([19][..0]) + GetWeight(19);
    assert GetWeight(12) == 70 && GetWeight(19) == 15 && GetWeight(0) == 1024;
    assert Rounded(7000, 15) == 467;
  }

  // ---------- The number of slices ----------

  // How often process i used a slice in a run.
  function SlicesUsed(s: State, actors: seq<Actor>, i: nat): nat
    requires Run(s, actors).Some?
  {
    if actors == [] then 0
    else
      var n := |actors| - 1;
      var before := Run(s, actors[..n]).value;
      SlicesUsed(s, actors[..n], i)
      + if actors[n] == Worker(i) && i < |before.procs| && before.procs[i].pc.Consume? then 1 else 0
  }

  lemma StepCountsSlices(s: State, a: Actor, i: nat)
    requires Step(s, a).Some? && i < |s.procs|
    ensures |Step(s, a).value.procs| == |s.procs|
    ensures Step(s, a).value.procs[i].switches
         == s.procs[i].switches + if a == Worker(i) && s.procs[i].pc.Consume? then 1 else 0
  {
    match a
    case Worker(j) =>
      hide ProcessStep;
      StepShape(s, j);
      if i == j {
        OwnStepCounts(s, ProcessStep(s, i).value, i);
      }
    case Sched =>
    case Gen =>
    case SpuriousSched =>
    case SpuriousProc(j) =>
  }

  lemma OwnStepCounts(s: State, s': State, i: nat)
    requires i < |s.procs| == |s'.procs| && ProcessStep(s, i).Some? && ProcessStep(s, i).value == s'
    ensures s'.procs[i].switches == s.procs[i].switches + if s.procs[i].pc.Consume? then 1 else 0
  {
    SliceCounts(s, i);
    hide Consumed;
    match s.procs[i].pc {
      case TestLoop =>
      case LockQueueToAdd =>
      case Enqueue =>
      case UnlockQueueAdded =>
      case LockNeedNew =>
      case ClearWaiting =>
      case SignalNew =>
      case UnlockNeedNew =>
      case LockPcb =>
      case TestState =>
      case Awake =>
      case LockQueueToRun =>
      case Consume =>
      case UnlockQueueRun =>
      case MakeReady =>
      case TestFinished =>
      case LockQueueToCount =>
      case CountDown =>
      case UnlockQueueCount =>
      case LockNeedDone =>
      case ClearRunning =>
      case SignalDone =>
      case UnlockNeedDone =>
      case UnlockPcb =>
    }
  }

  lemma SliceCounts(s: State, i: nat)
    requires i < |s.procs|
    ensures Consumed(s, i).switches == s.procs[i].switches + 1
  {
    hide CpuTime, VirtualRuntime;
  }

  /** The context switches a process counts are the slices it used. */
  lemma {:induction false} SwitchesAreSlices(ps: seq<Params>, actors: seq<Actor>, i: nat)
    requires Run(Init(ps), actors).Some? && i < |ps|
    ensures |Run(Init(ps), actors).value.procs| == |ps|
    ensures Run(Init(ps), actors).value.procs[i].switches == SlicesUsed(Init(ps), actors, i)
  {
    if actors != [] {
      hide Step;
      var n := |actors| - 1;
      SwitchesAreSlices(ps, actors[..n], i);
      StepCountsSlices(Run(Init(ps), actors[..n]).value, actors[n], i);
    }
  }
}
