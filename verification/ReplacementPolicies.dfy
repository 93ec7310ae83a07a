/** LRU and FIFO replacement over a trace of pages, and what the two policies guarantee.
    A queue lists the resident pages, the next victim first. The policies differ in one place only:
    LRU moves a page to the back when it is hit. */
module ReplacementPolicies {
  import opened Addresses
  import opened Collections

  datatype Policy = Lru | Fifo

  function Pages(s: seq<Page>): set<Page> { set p | p in s }

  ghost predicate Queue(m: nat, q: seq<Page>) { NoDup(q) && |q| <= m }

  // One access to page p with m frames.
  function Step(pol: Policy, m: nat, q: seq<Page>, p: Page): seq<Page>
    requires m > 0
  {
    if p in q then
      (if pol == Lru then Remove(q, p) + [p] else q)
    else if |q| < m then q + [p] else q[1..] + [p]
  }

  function RunFrom(pol: Policy, m: nat, q: seq<Page>, trace: seq<Page>): seq<Page>
    requires m > 0
  {
    if trace == [] then q
    else Step(pol, m, RunFrom(pol, m, q, trace[..|trace| - 1]), trace[|trace| - 1])
  }

  // The faulting pages of a run, in order.
  function Loads(pol: Policy, m: nat, q: seq<Page>, trace: seq<Page>): seq<Page>
    requires m > 0
  {
    if trace == [] then []
    else
      var before := trace[..|trace| - 1];
      var p := trace[|trace| - 1];
      Loads(pol, m, q, before) + (if p in RunFrom(pol, m, q, before) then [] else [p])
  }

  function Run(pol: Policy, m: nat, trace: seq<Page>): seq<Page>
    requires m > 0
  {
    RunFrom(pol, m, [], trace)
  }

  function Faults(pol: Policy, m: nat, trace: seq<Page>): nat
    requires m > 0
  {
    |Loads(pol, m, [], trace)|
  }

  // ---------- Lists without repetition ----------

  lemma {:induction false} NoDupCount(s: seq<Page>)
    requires NoDup(s)
    ensures |Pages(s)| == |s|
  {
    if s != [] {
      var n := |s| - 1;
      NoDupCount(s[..n]);
      assert s == s[..n] + [s[n]];
      assert Pages(s) == Pages(s[..n]) + {s[n]};
    }
  }

  lemma NoDupWithin(s: seq<Page>, d: set<Page>)
    requires NoDup(s) && Pages(s) <= d
    ensures |s| <= |d|
    ensures |s| == |d| ==> Pages(s) == d
  {
    NoDupCount(s);
    SubsetCount(Pages(s), d);
  }

  // ---------- Invariants of a run ----------

  lemma StepQueue(pol: Policy, m: nat, q: seq<Page>, p: Page)
    requires m > 0 && Queue(m, q)
    ensures Queue(m, Step(pol, m, q, p))
    ensures p in Step(pol, m, q, p)
    ensures Pages(Step(pol, m, q, p)) <= Pages(q) + {p}
    ensures |q| <= |Step(pol, m, q, p)|
  {
    RemoveProperties(q, p);
  }

  lemma {:induction false} RunKeepsQueue(pol: Policy, m: nat, q: seq<Page>, trace: seq<Page>)
    requires m > 0 && Queue(m, q)
    ensures Queue(m, RunFrom(pol, m, q, trace))
    ensures Pages(RunFrom(pol, m, q, trace)) <= Pages(q) + Pages(trace)
    ensures |q| <= |RunFrom(pol, m, q, trace)|
  {
    if trace != [] {
      var n := |trace| - 1;
      RunKeepsQueue(pol, m, q, trace[..n]);
      StepQueue(pol, m, RunFrom(pol, m, q, trace[..n]), trace[n]);
      assert trace == trace[..n] + [trace[n]];
    }
  }

  lemma {:induction false} RunSplit(pol: Policy, m: nat, q: seq<Page>, a: seq<Page>, b: seq<Page>)
    requires m > 0
    ensures RunFrom(pol, m, q, a + b) == RunFrom(pol, m, RunFrom(pol, m, q, a), b)
    ensures Loads(pol, m, q, a + b) == Loads(pol, m, q, a) + Loads(pol, m, RunFrom(pol, m, q, a), b)
  {
    if b == [] {
      assert a + b == a;
    } else {
      var n := |b| - 1;
      assert (a + b)[..|a + b| - 1] == a + b[..n];
      RunSplit(pol, m, q, a, b[..n]);
    }
  }

  // ---------- A stretch of the trace ----------

  // back holds pages of d only, as many as fit in m frames.
  ghost predicate Recent(m: nat, back: seq<Page>, d: set<Page>) {
    && |back| == Min(|d|, m)
    && Pages(back) <= d
    && (|d| <= m ==> Pages(back) == d)
  }

  /** LRU, over any stretch b: the back of the queue is made of pages of the stretch, as many as fit. */
  lemma {:induction false} LruStretch(m: nat, q: seq<Page>, b: seq<Page>)
      returns (front: seq<Page>, back: seq<Page>)
    requires m > 0 && Queue(m, q)
    ensures RunFrom(Lru, m, q, b) == front + back
    ensures Queue(m, front + back)
    ensures Recent(m, back, Pages(b))
  {
    if b == [] {
      front, back := q, [];
      assert front + back == q;
    } else {
      var n := |b| - 1;
      front, back := LruStretch(m, q, b[..n]);
      StepQueue(Lru, m, front + back, b[n]);
      front, back := LruStretchStep(m, front, back, Pages(b[..n]), b[n]);
      assert b == b[..n] + [b[n]];
      assert Pages(b) == Pages(b[..n]) + {b[n]};
    }
  }

  lemma LruStretchStep(m: nat, front: seq<Page>, back: seq<Page>, d: set<Page>, p: Page)
      returns (front': seq<Page>, back': seq<Page>)
    requires m > 0 && Queue(m, front + back) && Recent(m, back, d)
    ensures Step(Lru, m, front + back, p) == front' + back'
    ensures Recent(m, back', d + {p})
  {
    if p in front + back {
      front', back' := LruHit(m, front, back, d, p);
    } else {
      front', back' := LruMiss(m, front, back, d, p);
    }
  }

  lemma LruHit(m: nat, front: seq<Page>, back: seq<Page>, d: set<Page>, p: Page)
      returns (front': seq<Page>, back': seq<Page>)
    requires m > 0 && Queue(m, front + back) && Recent(m, back, d) && p in front + back
    ensures Remove(front + back, p) + [p] == front' + back'
    ensures Recent(m, back', d + {p})
  {
    NoDupParts(front, back);
    RemoveAppend(front, back, p);
    if p in back {
      RecentAgain(m, back, d, p);
      front', back' := front, Remove(back, p) + [p];
    } else {
      RecentExtend(m, back, d, p);
      front', back' := Remove(front, p), back + [p];
    }
    assert Remove(front + back, p) + [p] == front' + back';
  }

  lemma LruMiss(m: nat, front: seq<Page>, back: seq<Page>, d: set<Page>, p: Page)
      returns (front': seq<Page>, back': seq<Page>)
    requires m > 0 && Queue(m, front + back) && Recent(m, back, d) && p !in front + back
    ensures Step(Lru, m, front + back, p) == front' + back'
    ensures Recent(m, back', d + {p})
  {
    var q := front + back;
    assert p !in back;
    if |back| < m {
      RecentExtend(m, back, d, p);
      front', back' := if |q| < m then front else front[1..], back + [p];
    } else {
      NoDupParts(front, back);
      RecentFull(m, back, d, p);
      front', back' := [], back[1..] + [p];
      assert q == back;
    }
    assert Step(Lru, m, q, p) == front' + back';
  }

  lemma RecentAgain(m: nat, back: seq<Page>, d: set<Page>, p: Page)
    requires NoDup(back) && Recent(m, back, d) && p in back
    ensures Recent(m, Remove(back, p) + [p], d + {p})
  {
    RemoveProperties(back, p);
    assert p in Pages(back);
    assert d + {p} == d;
    var back' := Remove(back, p) + [p];
    assert Pages(back') == Pages(back);
  }

  lemma RecentExtend(m: nat, back: seq<Page>, d: set<Page>, p: Page)
    requires Recent(m, back, d) && p !in back && |back| < m
    ensures Recent(m, back + [p], d + {p})
  {
    assert p !in Pages(back);
    assert |d + {p}| == |d| + 1;
    assert Pages(back + [p]) == Pages(back) + {p};
  }

  lemma RecentFull(m: nat, back: seq<Page>, d: set<Page>, p: Page)
    requires m > 0 && NoDup(back) && Recent(m, back, d) && p !in back && |back| == m
    ensures Recent(m, back[1..] + [p], d + {p})
  {
    var back' := back[1..] + [p];
    assert Pages(back') <= Pages(back) + {p};
    SubsetCount(d, d + {p});
    NoDupWithin(back', d + {p});
  }

  lemma NoDupParts(front: seq<Page>, back: seq<Page>)
    requires NoDup(front + back)
    ensures NoDup(front) && NoDup(back)
    ensures forall x :: x in front ==> x !in back
  {
    var q := front + back;
    forall i, j | 0 <= i < j < |front| ensures front[i] != front[j] { assert q[i] != q[j]; }
    forall i, j | 0 <= i < j < |back| ensures back[i] != back[j] {
      assert q[|front| + i] != q[|front| + j];
    }
    forall i, j | 0 <= i < |front| && 0 <= j < |back| ensures front[i] != back[j] {
      assert q[i] != q[|front| + j];
    }
  }

  /** FIFO, over any stretch: the queue is the last m pages of everything loaded so far. */
  lemma {:induction false} FifoStretch(m: nat, q: seq<Page>, b: seq<Page>)
    requires m > 0 && |q| <= m
    ensures var s := q + Loads(Fifo, m, q, b); RunFrom(Fifo, m, q, b) == s[|s| - Min(|s|, m)..]
  {
    if b == [] {
      assert q + Loads(Fifo, m, q, b) == q;
    } else {
      var n := |b| - 1;
      FifoStretch(m, q, b[..n]);
      var s := q + Loads(Fifo, m, q, b[..n]);
      if b[n] in RunFrom(Fifo, m, q, b[..n]) {
        assert q + Loads(Fifo, m, q, b) == s;
      } else {
        assert q + Loads(Fifo, m, q, b) == s + [b[n]];
      }
    }
  }

  ghost predicate Disjoint(s: seq<Page>, t: seq<Page>) { forall p :: p in s ==> p !in t }

  lemma {:induction false} FreshLoads(m: nat, q: seq<Page>, s: seq<Page>)
    requires m > 0 && Queue(m, q) && NoDup(s) && Disjoint(s, q)
    ensures Loads(Fifo, m, q, s) == s
  {
    if s != [] {
      var n := |s| - 1;
      FreshLoads(m, q, s[..n]);
      RunKeepsQueue(Fifo, m, q, s[..n]);
      assert s[n] !in Pages(q) + Pages(s[..n]);
      assert s[n] !in Pages(RunFrom(Fifo, m, q, s[..n]));
    }
  }

  // ---------- Conservativeness ----------

  /** In a stretch of at most m distinct pages no page faults twice, whatever was resident before. */
  lemma {:induction false} Conservative(pol: Policy, m: nat, q: seq<Page>, b: seq<Page>)
    requires m > 0 && Queue(m, q) && |Pages(b)| <= m
    ensures NoDup(Loads(pol, m, q, b))
    ensures Pages(Loads(pol, m, q, b)) <= Pages(b)
    ensures |Loads(pol, m, q, b)| <= |Pages(b)|
  {
    if b != [] {
      var n := |b| - 1;
      var p, before := b[n], Loads(pol, m, q, b[..n]);
      assert b == b[..n] + [p];
      assert Pages(b) == Pages(b[..n]) + {p};
      SubsetCount(Pages(b[..n]), Pages(b));
      Conservative(pol, m, q, b[..n]);
      if p !in RunFrom(pol, m, q, b[..n]) {
        StillResident(pol, m, q, b[..n], p);
        NoDupWithin(before + [p], Pages(b));
      } else {
        assert Loads(pol, m, q, b) == before;
      }
    }
  }

  // A page that is not resident at the end of a stretch was not loaded in it.
  lemma StillResident(pol: Policy, m: nat, q: seq<Page>, b: seq<Page>, p: Page)
    requires m > 0 && Queue(m, q) && |Pages(b)| <= m
    requires Pages(Loads(pol, m, q, b)) <= Pages(b) && |Loads(pol, m, q, b)| <= m
    requires p !in RunFrom(pol, m, q, b)
    ensures p !in Loads(pol, m, q, b)
  {
    match pol
    case Lru =>
      var front, back := LruStretch(m, q, b);
      assert p !in Pages(back);
      assert p !in Pages(Loads(pol, m, q, b));
    case Fifo =>
      FifoStretch(m, q, b);
      var s := q + Loads(Fifo, m, q, b);
      assert s[|q|..] == Loads(Fifo, m, q, b);
      assert forall k :: |q| <= k < |s| ==> s[k] in s[|s| - Min(|s|, m)..];
      assert forall k :: 0 <= k < |Loads(Fifo, m, q, b)| ==> Loads(Fifo, m, q, b)[k] == s[|q| + k];
  }

  // ---------- What LRU keeps resident ----------

  // The position of the last use of p.
  function LastUse(trace: seq<Page>, p: Page): (k: nat)
    requires p in trace
    ensures k < |trace| && trace[k] == p && p !in trace[k + 1..]
  {
    if trace[|trace| - 1] == p then |trace| - 1
    else
      assert trace == trace[..|trace| - 1] + [trace[|trace| - 1]];
      var k := LastUse(trace[..|trace| - 1], p);
      assert trace[k + 1..] == trace[..|trace| - 1][k + 1..] + [trace[|trace| - 1]];
      k
  }

  // How many other pages were used since the last use of p.
  function StackDistance(trace: seq<Page>, p: Page): nat
    requires p in trace
  {
    |Pages(trace[LastUse(trace, p) + 1..])|
  }

  /** LRU holds exactly the pages whose stack distance is below the number of frames. */
  lemma LruResident(m: nat, trace: seq<Page>, p: Page)
    requires m > 0
    ensures p in Run(Lru, m, trace) <==> p in trace && StackDistance(trace, p) < m
  {
    if p !in trace {
      RunKeepsQueue(Lru, m, [], trace);
      assert p !in Pages(trace) + Pages([]);
      assert p !in Pages(Run(Lru, m, trace));
    } else if StackDistance(trace, p) < m {
      LruKept(m, trace, p);
    } else {
      LruDropped(m, trace, p);
    }
  }

  lemma LruKept(m: nat, trace: seq<Page>, p: Page)
    requires m > 0 && p in trace && StackDistance(trace, p) < m
    ensures p in Run(Lru, m, trace)
  {
    var k := LastUse(trace, p);
    var since := trace[k + 1..];
    assert trace == trace[..k] + ([p] + since);
    assert Pages([p] + since) == Pages(since) + {p};
    StretchKept(m, trace[..k], [p] + since, p);
  }

  // A page of a stretch that fits is resident at its end.
  lemma StretchKept(m: nat, before: seq<Page>, stretch: seq<Page>, p: Page)
    requires m > 0 && p in stretch && |Pages(stretch)| <= m
    ensures p in Run(Lru, m, before + stretch)
  {
    RunKeepsQueue(Lru, m, [], before);
    RunSplit(Lru, m, [], before, stretch);
    var front, back := LruStretch(m, Run(Lru, m, before), stretch);
    assert p in Pages(back);
  }

  lemma LruDropped(m: nat, trace: seq<Page>, p: Page)
    requires m > 0 && p in trace && StackDistance(trace, p) >= m
    ensures p !in Run(Lru, m, trace)
  {
    var k := LastUse(trace, p);
    var before, since := trace[..k + 1], trace[k + 1..];
    assert trace == before + since;
    RunKeepsQueue(Lru, m, [], before);
    RunSplit(Lru, m, [], before, since);
    var front, back := LruStretch(m, Run(Lru, m, before), since);
    assert p !in Pages(since);
    assert p !in Pages(back);
  }

  /** More frames never lose a page: LRU residency only grows with the number of frames. */
  lemma LruInclusion(m: nat, m': nat, trace: seq<Page>)
    requires 0 < m <= m'
    ensures Pages(Run(Lru, m, trace)) <= Pages(Run(Lru, m', trace))
  {
    forall p | p in Pages(Run(Lru, m, trace)) ensures p in Pages(Run(Lru, m', trace)) {
      LruResident(m, trace, p);
      LruResident(m', trace, p);
    }
  }

  /** So LRU faults never increase when frames are added. */
  lemma {:induction false} LruFaultsMonotone(m: nat, m': nat, trace: seq<Page>)
    requires 0 < m <= m'
    ensures Faults(Lru, m', trace) <= Faults(Lru, m, trace)
  {
    if trace != [] {
      var n := |trace| - 1;
      LruFaultsMonotone(m, m', trace[..n]);
      LruInclusion(m, m', trace[..n]);
      assert trace[n] in Run(Lru, m, trace[..n]) ==> trace[n] in Pages(Run(Lru, m, trace[..n]));
    }
  }
}
