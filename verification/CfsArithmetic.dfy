/** Weights, time slices and virtual runtimes of the scheduler. Doubles are exact reals here, and
    rounding is to the nearest integer, halves up, which is what the C library's round does for
    positive numbers. */
module CfsArithmetic {
  import opened Arithmetic

  const SCHED_LATENCY: nat := 100
  const MIN_GRANULARITY: nat := 10

  type Priority = p: int | -20 <= p < 20

  const PRIO_TO_WEIGHT: seq<nat> := [
    88761, 71755, 56483, 46273, 36291,
    29154, 23254, 18705, 14949, 11916,
    9548, 7620, 6100, 4904, 3906,
    3121, 2501, 1991, 1586, 1277,
    1024, 820, 655, 526, 423,
    335, 272, 215, 172, 137,
    110, 87, 70, 56, 45,
    36, 29, 23, 18, 15]

  function GetWeight(priority: Priority): (w: nat)
    ensures 15 <= w <= 88761
  {
    PRIO_TO_WEIGHT[priority + 20]
  }

  /** Each priority weighs between a fifth and 7/25 more than the next one. */
  lemma WeightsFall(p: Priority)
    requires p < 19
    ensures 6 * GetWeight(p + 1) <= 5 * GetWeight(p) && 25 * GetWeight(p) <= 32 * GetWeight(p + 1)
  {
  }

  lemma {:induction false} BetterIsHeavier(p: Priority, q: Priority)
    requires p < q
    ensures GetWeight(p) > GetWeight(q)
    decreases q - p
  {
    WeightsFall(p);
    if p + 1 < q {
      BetterIsHeavier(p + 1, q);
    }
  }

  // Nearest integer to a / b, halves up.
  function Rounded(a: nat, b: nat): nat
    requires b > 0
  {
    (2 * a + b) / (2 * b)
  }

  // Rounding is off by at most one half.
  lemma RoundedBounds(a: nat, b: nat)
    requires b > 0
    ensures 2 * a - b < Rounded(a, b) * (2 * b) <= 2 * a + b
  {
    var x := 2 * a + b;
    assert x == Rounded(a, b) * (2 * b) + x % (2 * b);
  }

  function Timeslice(weight: nat, totalWeight: nat): (slice: nat)
    ensures slice >= 10
  {
    var slice := if totalWeight == 0 then SCHED_LATENCY else Rounded(weight * SCHED_LATENCY, totalWeight);
    if slice < MIN_GRANULARITY then MIN_GRANULARITY else slice
  }

  // Virtual runtime per unit of real runtime.
  function Rate(priority: Priority): (r: real)
    ensures r > 0.0
  {
    GetWeight(0) as real / GetWeight(priority) as real
  }

  function VirtualRuntime(priority: Priority, cpuTime: int): real {
    Rate(priority) * cpuTime as real
  }

  /** Virtual runtime times weight is real runtime times the weight of priority 0, which is 1024. */
  lemma VirtualRuntimeIsScaled(priority: Priority, cpuTime: int)
    ensures VirtualRuntime(priority, cpuTime) * GetWeight(priority) as real == 1024.0 * cpuTime as real
  {
    var w := GetWeight(priority) as real;
    assert GetWeight(0) as real == 1024.0;
    assert (1024.0 / w * cpuTime as real) * w == 1024.0 * cpuTime as real;
  }

  /** The better of two priorities gets a slice at least as long against the same queue, and its virtual runtime grows
      more slowly. */
  lemma BetterIsServedMore(p: Priority, q: Priority, totalWeight: nat, time: nat)
    requires p < q && time > 0
    ensures Timeslice(GetWeight(p), totalWeight) >= Timeslice(GetWeight(q), totalWeight)
    ensures VirtualRuntime(p, time) < VirtualRuntime(q, time)
  {
    BetterIsHeavier(p, q);
    TimesliceIsMonotone(GetWeight(q), GetWeight(p), totalWeight);
    BetterIsSlower(p, q, time);
    hide *;
  }

  lemma BetterIsSlower(p: Priority, q: Priority, time: nat)
    requires GetWeight(p) > GetWeight(q) && time > 0
    ensures VirtualRuntime(p, time) < VirtualRuntime(q, time)
  {
    hide GetWeight, VirtualRuntime;
    VirtualRuntimeIsScaled(p, time);
    VirtualRuntimeIsScaled(q, time);
    HeavierIsSlower(VirtualRuntime(p, time), GetWeight(p), VirtualRuntime(q, time), GetWeight(q),
                    1024.0 * time as real);
  }

  lemma HeavierIsSlower(x: real, v: nat, y: real, w: nat, c: real)
    requires v > w > 0 && c > 0.0 && x * v as real == c == y * w as real
    ensures x < y
  {
    var d := (v - w) as real;
    PositiveFactor(x, v as real);
    assert x * v as real == x * w as real + x * d;
    assert x * d > 0.0;
    assert (y - x) * w as real == x * d;
    PositiveFactor(y - x, w as real);
  }

  lemma PositiveFactor(x: real, y: real)
    requires y > 0.0 && x * y > 0.0
    ensures x > 0.0
  {
  }

  // ---------- Queues of priorities ----------

  // The sum that the loop over the run queue builds up.
  function TotalWeight(queue: seq<Priority>): nat {
    if queue == [] then 0 else TotalWeight(queue[..|queue| - 1]) + GetWeight(queue[|queue| - 1])
  }

  // The first n of all priorities, best first.
  function BestFirst(n: nat): seq<Priority>
    requires n <= 40
  {
    seq(n, k requires 0 <= k < n => k - 20)
  }

  lemma OneMoreWeight(n: nat)
    requires n < 40
    ensures TotalWeight(BestFirst(n + 1)) == TotalWeight(BestFirst(n)) + GetWeight(n - 20)
  {
    assert BestFirst(n + 1)[..n] == BestFirst(n);
  }

  function FiveWeights(n: nat): nat
    requires n <= 35
  {
    GetWeight(n - 20) + GetWeight(n - 19) + GetWeight(n - 18) + GetWeight(n - 17) + GetWeight(n - 16)
  }

  lemma FiveMoreWeights(n: nat)
    requires n <= 35
    ensures TotalWeight(BestFirst(n + 5)) == TotalWeight(BestFirst(n)) + FiveWeights(n)
  {
    hide TotalWeight, GetWeight, BestFirst;
    OneMoreWeight(n);
    OneMoreWeight(n + 1);
    OneMoreWeight(n + 2);
    OneMoreWeight(n + 3);
    OneMoreWeight(n + 4);
  }

  lemma FirstFiveWeights()
    ensures FiveWeights(0) == 299563
  {
    assert GetWeight(-20) == 88761 && GetWeight(-19) == 71755 && GetWeight(-18) == 56483;
    assert GetWeight(-17) == 46273 && GetWeight(-16) == 36291;
    hide GetWeight;
  }

  lemma HeavyWeights()
    ensures FiveWeights(5) == 97978 && FiveWeights(10) == 32078 && FiveWeights(15) == 10476
  {
  }

  lemma LightWeights()
    ensures FiveWeights(20) == 3448 && FiveWeights(25) == 1131
  {
  }

  lemma LightestWeights()
    ensures FiveWeights(30) == 368 && FiveWeights(35) == 121
  {
  }

  /** Together the forty priorities weigh 445163. */
  lemma AllWeights()
    ensures TotalWeight(BestFirst(40)) == 445163
  {
    NoWeight();
    FirstFiveWeights();
    HeavyWeights();
    LightWeights();
    LightestWeights();
    hide *;
    FiveMoreWeights(0);
    FiveMoreWeights(5);
    FiveMoreWeights(10);
    FiveMoreWeights(15);
    FiveMoreWeights(20);
    FiveMoreWeights(25);
    FiveMoreWeights(30);
    FiveMoreWeights(35);
  }

  lemma NoWeight()
    ensures TotalWeight(BestFirst(0)) == 0
  {
  }

  lemma {:induction false} TotalWeightBound(queue: seq<Priority>)
    ensures TotalWeight(queue) >= 15 * |queue|
  {
    if queue != [] {
      TotalWeightBound(queue[..|queue| - 1]);
    }
  }

  /** The heavier process gets the slice that is at least as long. */
  lemma TimesliceIsMonotone(w: nat, w': nat, totalWeight: nat)
    requires w <= w'
    ensures Timeslice(w, totalWeight) <= Timeslice(w', totalWeight)
  {
    if totalWeight > 0 {
      var a, b := Rounded(w * SCHED_LATENCY, totalWeight), Rounded(w' * SCHED_LATENCY, totalWeight);
      RoundedBounds(w * SCHED_LATENCY, totalWeight);
      RoundedBounds(w' * SCHED_LATENCY, totalWeight);
      if a > b {
        MulLe(b + 1, a, 2 * totalWeight);
      }
    }
  }

  // The slices of the first k members of a queue, measured against the weight of the whole queue.
  function SliceSum(queue: seq<Priority>, k: nat): nat
    requires k <= |queue|
  {
    if k == 0 then 0 else SliceSum(queue, k - 1) + Timeslice(GetWeight(queue[k - 1]), TotalWeight(queue))
  }

  lemma SliceBounds(w: nat, total: nat)
    requires total > 0
    ensures 2 * (Timeslice(w, total) * total) >= 2 * SCHED_LATENCY * w - total
    ensures Timeslice(w, total) * total <= SCHED_LATENCY * w + MIN_GRANULARITY * total
  {
    var slice := Timeslice(w, total);
    var rounded := Rounded(w * SCHED_LATENCY, total);
    RoundedBounds(w * SCHED_LATENCY, total);
    MulLe(rounded, slice, 2 * total);
    if slice == rounded {
      assert rounded * (2 * total) == 2 * (slice * total);
    }
  }

  lemma {:induction false} SliceSumBounds(queue: seq<Priority>, k: nat)
    requires k <= |queue| && queue != []
    ensures var total := TotalWeight(queue);
            && 2 * (SliceSum(queue, k) * total) >= 2 * SCHED_LATENCY * TotalWeight(queue[..k]) - k * total
            && SliceSum(queue, k) * total <= SCHED_LATENCY * TotalWeight(queue[..k]) + MIN_GRANULARITY * (k * total)
  {
    var total := TotalWeight(queue);
    TotalWeightBound(queue);
    if k > 0 {
      var w := GetWeight(queue[k - 1]);
      SliceSumBounds(queue, k - 1);
      assert queue[..k][..k - 1] == queue[..k - 1];
      assert SliceSum(queue, k) == SliceSum(queue, k - 1) + Timeslice(w, total);
      assert TotalWeight(queue[..k]) == TotalWeight(queue[..k - 1]) + w;
      hide *;
      SliceStep(SliceSum(queue, k - 1), TotalWeight(queue[..k - 1]), k - 1, w, total);
    } else {
      assert SliceSum(queue, 0) == 0 == TotalWeight(queue[..0]);
    }
  }

  lemma SliceStep(sum: nat, weight: nat, k: nat, w: nat, total: nat)
    requires total > 0
    requires 2 * (sum * total) >= 2 * SCHED_LATENCY * weight - k * total
    requires sum * total <= SCHED_LATENCY * weight + MIN_GRANULARITY * (k * total)
    ensures 2 * ((sum + Timeslice(w, total)) * total) >= 2 * SCHED_LATENCY * (weight + w) - (k + 1) * total
    ensures (sum + Timeslice(w, total)) * total <= SCHED_LATENCY * (weight + w) + MIN_GRANULARITY * ((k + 1) * total)
  {
    SliceBounds(w, total);
    hide Timeslice;
    Distribute(sum, Timeslice(w, total), total);
    Distribute(k, 1, total);
  }

  /** One round of slices over a queue of n processes takes the scheduling latency, give or take half a
      unit of rounding per process below and the minimum granularity per process above. */
  lemma RoundTakesTheLatency(queue: seq<Priority>)
    requires queue != []
    ensures 200 - |queue| <= 2 * SliceSum(queue, |queue|)
    ensures SliceSum(queue, |queue|) <= 100 + 10 * |queue|
  {
    var n, total, sum := |queue|, TotalWeight(queue), SliceSum(queue, |queue|);
    TotalWeightBound(queue);
    SliceSumBounds(queue, n);
    assert queue[..n] == queue;
    RoundStep(sum, n, total);
  }

  lemma RoundStep(sum: nat, n: nat, total: nat)
    requires total > 0
    requires 2 * (sum * total) >= 2 * SCHED_LATENCY * total - n * total
    requires sum * total <= SCHED_LATENCY * total + MIN_GRANULARITY * (n * total)
    ensures 2 * SCHED_LATENCY - n <= 2 * sum
    ensures sum <= SCHED_LATENCY + MIN_GRANULARITY * n
  {
    Distribute(2 * sum, n, total);
    MulLeCancel(2 * SCHED_LATENCY, 2 * sum + n, total);
    Distribute(SCHED_LATENCY, MIN_GRANULARITY * n, total);
    MulLeCancel(sum, SCHED_LATENCY + MIN_GRANULARITY * n, total);
  }
}
