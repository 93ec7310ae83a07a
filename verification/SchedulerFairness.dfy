/** Weighted fairness: when the scheduler always chooses among all unfinished processes, their virtual
    runtimes stay together, within the largest step that one slice makes. */
module SchedulerFairness {
  import opened Arithmetic
  import opened CfsArithmetic
  import opened Collections
  import opened RunQueueOrder
  import opened SchedulerProtocol
  import opened SchedulerInvariant

  predicate Unserved(p: Proc) { p.cpu < p.length }

  // Every process that has time left is on the run queue, or there is nobody to pick.
  predicate AllPresent(s: State) {
    s.rq == [] || forall i :: 0 <= i < |s.procs| && Unserved(s.procs[i]) ==> i in s.rq
  }

  /** Whenever the scheduler picks a process, all unfinished ones are on the run queue: they have arrived,
      and the one that ran last has queued up again. */
  ghost predicate PicksSeeAll(s: State, actors: seq<Actor>) {
    forall k :: 0 <= k < |actors| && Run(s, actors[..k]).Some? && PicksNow(Run(s, actors[..k]).value, actors[k]) ==>
      AllPresent(Run(s, actors[..k]).value)
  }

  predicate PicksNow(s: State, a: Actor) { a.Sched? && s.sched.Pick? }

  predicate ConsumesNow(s: State, a: Actor) { a.Worker? && a.id < |s.procs| && s.procs[a.id].pc.Consume? }

  // The virtual runtime that process i is about to gain.
  function Gain(s: State, i: nat): real
    requires i < |s.procs|
  {
    VirtualRuntime(s.procs[i].priority, CpuTime(s, i))
  }

  // No slice of the run gains more than b.
  ghost predicate GainsWithin(s: State, actors: seq<Actor>, b: real) {
    forall k :: 0 <= k < |actors| && Run(s, actors[..k]).Some? && ConsumesNow(Run(s, actors[..k]).value, actors[k]) ==>
      Gain(Run(s, actors[..k]).value, actors[k].id) <= b
  }

  // Chosen, and not yet charged for its slice.
  predicate Elected(s: State, i: nat)
    requires i < |s.procs|
  {
    s.picked == Some(i) &&
    (s.sched.UnlockQueue? || s.sched.TestPicked? || s.sched.LockPicked? || s.sched.SetRunning?
     || (s.procs[i].state == Running && Queued(s.procs[i].pc)))
  }

  ghost predicate Together(s: State, b: real) {
    forall i, j :: 0 <= i < |s.procs| && 0 <= j < |s.procs| && Unserved(s.procs[i]) && Unserved(s.procs[j]) ==>
      s.procs[i].vruntime - s.procs[j].vruntime <= b
  }

  ghost predicate ElectedIsLeast(s: State) {
    forall i, j :: 0 <= i < |s.procs| && 0 <= j < |s.procs| && Elected(s, i) && Unserved(s.procs[j]) ==>
      s.procs[i].vruntime <= s.procs[j].vruntime
  }

  // ---------- Steps ----------

  lemma ConsumeStaysTogether(s: State, i: nat, b: real)
    requires Inv(s) && i < |s.procs| && s.procs[i].pc.Consume? && b >= 0.0
    requires Together(s, b) && ElectedIsLeast(s) && Gain(s, i) <= b
    ensures var s' := ProcessStep(s, i).value; Together(s', b) && ElectedIsLeast(s')
  {
    hide VirtualRuntime, CpuTime, SwitchesFit, Counted;
    assert Local(s, i);
    assert Elected(s, i);
    ConsumedAccounts(s, i);
    GainIsPositive(s, i);
  }

  lemma GainIsPositive(s: State, i: nat)
    requires i < |s.procs| && s.procs[i].cpu < s.procs[i].length
    ensures Gain(s, i) >= 0.0
  {
    hide Rate;
    assert CpuTime(s, i) >= 0;
  }

  // A step that charges nobody, elects nobody new and lets nobody be unserved again.
  ghost predicate Harmless(s: State, s': State) {
    && |s'.procs| == |s.procs|
    && (forall i :: 0 <= i < |s.procs| ==>
          && s'.procs[i].vruntime == s.procs[i].vruntime
          && (Unserved(s'.procs[i]) ==> Unserved(s.procs[i]))
          && (Elected(s', i) ==> Elected(s, i)))
  }

  lemma HarmlessStaysTogether(s: State, s': State, b: real)
    requires Harmless(s, s') && Together(s, b) && ElectedIsLeast(s)
    ensures Together(s', b) && ElectedIsLeast(s')
  {
  }

  lemma ProcessIsHarmless(s: State, i: nat)
    requires Inv(s) && i < |s.procs| && ProcessStep(s, i).Some? && !s.procs[i].pc.Consume?
    ensures Harmless(s, ProcessStep(s, i).value)
  {
    hide Global, Counted, VirtualRuntime, SwitchesFit, Consumed, Accounts, Locks;
    assert Local(s, i);
    match s.procs[i].pc {
      case TestLoop =>
      case LockQueueToAdd =>
      case Enqueue =>
      case UnlockQueueAdded =>
      case LockNeedNew =>
      case ClearWaiting =>
      case SignalNew =>
      case UnlockNeedNew =>
      case LockPcb =>
      case TestState =>
      case Awake =>
      case LockQueueToRun =>
      case UnlockQueueRun =>
      case MakeReady =>
      case TestFinished =>
      case LockQueueToCount =>
      case CountDown =>
      case UnlockQueueCount =>
      case LockNeedDone =>
      case ClearRunning =>
      case SignalDone =>
      case UnlockNeedDone =>
      case UnlockPcb =>
    }
  }

  lemma PickIsLeast(s: State, b: real)
    requires Inv(s) && s.sched.Pick? && AllPresent(s) && Together(s, b)
    ensures var s' := SchedulerStep(s).value; Together(s', b) && ElectedIsLeast(s')
  {
    hide Inv, AllPresent, Keys, SmallestIndex;
    NobodyRunsAtPick(s);
    if s.rq != [] {
      PickedIsLeast(s);
    }
  }

  lemma NobodyRunsAtPick(s: State)
    requires Inv(s) && s.sched.Pick?
    ensures forall i :: 0 <= i < |s.procs| ==> s.procs[i].state == Ready
  {
    forall i | 0 <= i < |s.procs| ensures s.procs[i].state == Ready { assert Local(s, i); }
  }

  lemma PickedIsLeast(s: State)
    requires Inv(s) && AllPresent(s) && s.rq != []
    ensures var p := s.rq[SmallestIndex(Keys(s))];
            p < |s.procs| &&
            forall j :: 0 <= j < |s.procs| && Unserved(s.procs[j]) ==> s.procs[p].vruntime <= s.procs[j].vruntime
  {
    var m := SmallestIndex(Keys(s));
    forall j | 0 <= j < |s.procs| && Unserved(s.procs[j]) ensures s.procs[s.rq[m]].vruntime <= s.procs[j].vruntime {
      var k :| 0 <= k < |s.rq| && s.rq[k] == j;
      assert Keys(s)[m] <= Keys(s)[k];
    }
  }

  lemma SchedulerIsHarmless(s: State)
    requires Inv(s) && SchedulerStep(s).Some? && !s.sched.Pick?
    ensures Harmless(s, SchedulerStep(s).value)
  {
    hide Counted, VirtualRuntime, SwitchesFit, Accounts, Locks;
  }

  lemma StepStaysTogether(s: State, a: Actor, b: real)
    requires Inv(s) && Step(s, a).Some? && b >= 0.0 && Together(s, b) && ElectedIsLeast(s)
    requires PicksNow(s, a) ==> AllPresent(s)
    requires ConsumesNow(s, a) ==> Gain(s, a.id) <= b
    ensures Together(Step(s, a).value, b) && ElectedIsLeast(Step(s, a).value)
  {
    var s' := Step(s, a).value;
    if PicksNow(s, a) {
      PickIsLeast(s, b);
    } else if ConsumesNow(s, a) {
      ConsumeStaysTogether(s, a.id, b);
    } else {
      assert Harmless(s, s') by { OtherStepsAreHarmless(s, a); }
      HarmlessStaysTogether(s, s', b);
    }
  }

  lemma OtherStepsAreHarmless(s: State, a: Actor)
    requires Inv(s) && Step(s, a).Some? && !PicksNow(s, a) && !ConsumesNow(s, a)
    ensures Harmless(s, Step(s, a).value)
  {
    match a
    case Sched => SchedulerIsHarmless(s);
    case Worker(i) => ProcessIsHarmless(s, i);
    case Gen =>
      if s.gen.Create? { assert Local(s, s.born); }
    case SpuriousSched =>
    case SpuriousProc(i) =>
      assert Local(s, i);
  }

  lemma {:induction false} RunStaysTogether(s: State, actors: seq<Actor>, b: real)
    requires Inv(s) && Run(s, actors).Some? && b >= 0.0 && Together(s, b) && ElectedIsLeast(s)
    requires PicksSeeAll(s, actors) && GainsWithin(s, actors, b)
    ensures Together(Run(s, actors).value, b) && ElectedIsLeast(Run(s, actors).value)
  {
    if actors != [] {
      var n := |actors| - 1;
      assert forall k :: 0 <= k <= n ==> actors[..n][..k] == actors[..k];
      RunStaysTogether(s, actors[..n], b);
      RunKeeps(s, actors[..n]);
      StepStaysTogether(Run(s, actors[..n]).value, actors[n], b);
    }
  }

  /** In every such run the virtual runtimes of any two unfinished processes differ by at most the largest
      gain of a single slice. */
  lemma WeightedFairness(ps: seq<Params>, actors: seq<Actor>, b: real, i: nat, j: nat)
    requires Run(Init(ps), actors).Some? && b >= 0.0
    requires PicksSeeAll(Init(ps), actors) && GainsWithin(Init(ps), actors, b)
    requires var s := Run(Init(ps), actors).value;
             i < |s.procs| && j < |s.procs| && Unserved(s.procs[i]) && Unserved(s.procs[j])
    ensures var s := Run(Init(ps), actors).value; s.procs[i].vruntime - s.procs[j].vruntime <= b
  {
    InitInv(ps);
    assert Together(Init(ps), b) && ElectedIsLeast(Init(ps));
    RunStaysTogether(Init(ps), actors, b);
  }

  // ---------- A bound for every run ----------

  // The largest gain there is: a slice of 467 at weight 70.
  const LARGEST_GAIN: real := 1024.0 * 467.0 / 70.0

  /** It is made beside a single process of weight 15. */
  lemma LargestGainIsMade()
    ensures VirtualRuntime(12, Timeslice(GetWeight(12), TotalWeight([19]))) == LARGEST_GAIN
  {
    assert TotalWeight([19]) == TotalWeight([19][..0]) + GetWeight(19);
    assert GetWeight(12) == 70 && GetWeight(19) == 15 && GetWeight(0) == 1024;
    assert Rounded(7000, 15) == 467;
  }

  lemma GainIsBounded(s: State, i: nat)
    requires Inv(s) && i < |s.procs| && s.procs[i].pc.Consume?
    ensures Gain(s, i) <= LARGEST_GAIN
  {
    hide Inv, GetWeight, CpuTime, VirtualRuntime;
    CpuTimeIsBounded(s, i);
    RuntimeIsBounded(s.procs[i].priority, CpuTime(s, i));
  }

  lemma RuntimeIsBounded(priority: Priority, time: int)
    requires 70 * time <= 467 * GetWeight(priority)
    ensures VirtualRuntime(priority, time) <= LARGEST_GAIN
  {
    assert GetWeight(0) == 1024;
    hide GetWeight;
    ScaledBound(GetWeight(priority), time);
  }

  lemma CpuTimeIsBounded(s: State, i: nat)
    requires Inv(s) && i < |s.procs| && s.procs[i].pc.Consume?
    ensures 70 * CpuTime(s, i) <= 467 * GetWeight(s.procs[i].priority)
  {
    var queue := Priorities(s, Remove<nat>(s.rq, i));
    TotalWeightBound(queue);
    assert TotalWeight(queue) == 0 || TotalWeight(queue) >= 15;
    hide Inv, Timeslice, GetWeight, TotalWeight, Remove;
    SliceIsBounded(s.procs[i].priority, TotalWeight(queue));
  }

  lemma SliceIsBounded(priority: Priority, t: nat)
    requires t == 0 || t >= 15
    ensures 70 * Timeslice(GetWeight(priority), t) <= 467 * GetWeight(priority)
  {
    var w := GetWeight(priority);
    TableBound(priority);
    hide GetWeight, Rounded;
    if t > 0 {
      var slice := Rounded(w * SCHED_LATENCY, t);
      RoundedFalls(w * SCHED_LATENCY, t);
      assert slice <= (2 * (w * SCHED_LATENCY) + 15) / 30;
    }
  }

  // Beside weight 15 or more a rounded slice is at most what it is beside 15.
  lemma RoundedFalls(a: nat, t: nat)
    requires t >= 15
    ensures 30 * Rounded(a, t) <= 2 * a + 15
  {
    var r := Rounded(a, t);
    RoundedBounds(a, t);
    hide Rounded;
    if r > 0 {
      assert r * (2 * t) - t == (2 * r - 1) * t;
      MulLe(15, t, 2 * r - 1);
    }
  }

  // Checked weight by weight.
  lemma TableBound(priority: Priority)
    ensures GetWeight(priority) >= 15
    ensures 70 * ((2 * (GetWeight(priority) * SCHED_LATENCY) + 15) / 30) <= 467 * GetWeight(priority)
  {
  }

  lemma ScaledBound(w: nat, time: int)
    requires w >= 15 && 70 * time <= 467 * w
    ensures 1024.0 / w as real * time as real <= LARGEST_GAIN
  {
    var x, y := w as real, time as real;
    assert 70.0 * y <= 467.0 * x;
    assert 1024.0 / x * y == (1024.0 * y) / x;
    assert 1024.0 * y <= LARGEST_GAIN * x;
    DivideBound(1024.0 * y, LARGEST_GAIN, x);
  }

  lemma DivideBound(a: real, b: real, x: real)
    requires x > 0.0 && a <= b * x
    ensures a / x <= b
  {
    var q := a / x;
    assert q * x == a;
    assert (b - q) * x >= 0.0;
  }

  /** Whatever the workload: as long as the scheduler chooses among all unfinished processes, their
      virtual runtimes never differ by more than the largest gain. */
  lemma WeightedFairnessAlways(ps: seq<Params>, actors: seq<Actor>, i: nat, j: nat)
    requires Run(Init(ps), actors).Some? && PicksSeeAll(Init(ps), actors)
    requires var s := Run(Init(ps), actors).value;
             i < |s.procs| && j < |s.procs| && Unserved(s.procs[i]) && Unserved(s.procs[j])
    ensures var s := Run(Init(ps), actors).value; s.procs[i].vruntime - s.procs[j].vruntime <= LARGEST_GAIN
  {
    hide Inv, Gain;
    InitInv(ps);
    forall k | 0 <= k < |actors| && Run(Init(ps), actors[..k]).Some?
               && ConsumesNow(Run(Init(ps), actors[..k]).value, actors[k])
      ensures Gain(Run(Init(ps), actors[..k]).value, actors[k].id) <= LARGEST_GAIN
    {
      RunKeeps(Init(ps), actors[..k]);
      GainIsBounded(Run(Init(ps), actors[..k]).value, actors[k].id);
    }
    WeightedFairness(ps, actors, LARGEST_GAIN, i, j);
  }
}
