/** What a run of the demand-paging simulator does, as functions of the trace: which pages are resident,
    in which frames, with which time stamps, and what is reported for every access. */
module PagingModel {
  import opened Addresses
  import opened Collections
  import opened ReplacementPolicies
  import opened Arithmetic

  // The victim scans start from this minimum and only look at smaller stamps.
  const SCAN_INFINITY: nat := 999999

  type FrameCount = m: int | 0 < m <= 1000 witness 1

  datatype Config = Config(policy: Policy, frames: FrameCount)

  /** The resident pages, next victim first, with the frame of each and the time stamp that the victim
      scan of the chosen policy compares: page-in time for FIFO, time of last use for LRU. */
  datatype Memory = Memory(order: seq<Page>, frame: map<Page, nat>, stamp: map<Page, nat>)

  const EMPTY := Memory([], map[], map[])

  /** The coupling of the tables after t accesses: resident pages own distinct frames, which fill a
      prefix of the frame table, and queue order is stamp order. */
  ghost predicate Coupled(m: nat, mem: Memory, t: nat) {
    && Queue(m, mem.order)
    && Placed(mem.order, mem.frame)
    && Stamped(mem.order, mem.stamp, t)
  }

  ghost predicate Placed(order: seq<Page>, frame: map<Page, nat>) {
    && frame.Keys == Pages(order)
    && (forall p :: p in frame ==> frame[p] < |order|)
    && (forall p, q :: p in frame && q in frame && p != q ==> frame[p] != frame[q])
  }

  ghost predicate Stamped(order: seq<Page>, stamp: map<Page, nat>, t: nat) {
    && stamp.Keys == Pages(order)
    && (forall p :: p in stamp ==> 0 < stamp[p] <= t)
    && (forall i, j :: 0 <= i < j < |order| ==> stamp[order[i]] < stamp[order[j]])
  }

  predicate Full(c: Config, mem: Memory) { |mem.order| >= c.frames }

  // The access of page p at time t.
  function Access(c: Config, mem: Memory, p: Page, t: nat): Memory
    requires Coupled(c.frames, mem, t)
  {
    var order := Step(c.policy, c.frames, mem.order, p);
    if p in mem.order then
      Memory(order, mem.frame, if c.policy == Lru then mem.stamp[p := t] else mem.stamp)
    else if !Full(c, mem) then
      Memory(order, mem.frame[p := |mem.order|], mem.stamp[p := t])
    else
      var victim := mem.order[0];
      assert victim in Pages(mem.order);
      Memory(order, (mem.frame - {victim})[p := mem.frame[victim]], (mem.stamp - {victim})[p := t])
  }

  function MemoryAfter(c: Config, trace: seq<Reference>): (mem: Memory)
    ensures Coupled(c.frames, mem, |trace|)
  {
    if trace == [] then EMPTY
    else
      var n := |trace| - 1;
      var mem := MemoryAfter(c, trace[..n]);
      if trace[n].inRange then
        AccessCoupled(c, mem, trace[n].page, |trace|);
        Access(c, mem, trace[n].page, |trace|)
      else mem
  }

  // ---------- The coupling is kept ----------

  lemma AccessCoupled(c: Config, mem: Memory, p: Page, t: nat)
    requires t > 0 && Coupled(c.frames, mem, t - 1)
    ensures Coupled(c.frames, mem, t)
    ensures Coupled(c.frames, Access(c, mem, p, t), t)
  {
    if p in mem.order {
      if c.policy == Lru {
        RenewCoupled(c, mem, p, t);
      }
    } else if Full(c, mem) {
      ReplaceCoupled(c, mem, p, t);
    } else {
      LoadCoupled(c, mem, p, t);
    }
  }

  lemma LoadCoupled(c: Config, mem: Memory, p: Page, t: nat)
    requires t > 0 && Coupled(c.frames, mem, t - 1) && p !in mem.order && !Full(c, mem)
    ensures Coupled(c.frames, Access(c, mem, p, t), t)
  {
    StepQueue(c.policy, c.frames, mem.order, p);
    StampedAppend(mem.order, mem.stamp, p, t);
    PlacedAppend(mem.order, mem.frame, p);
  }

  lemma PlacedAppend(order: seq<Page>, frame: map<Page, nat>, p: Page)
    requires Placed(order, frame) && p !in order
    ensures Placed(order + [p], frame[p := |order|])
  {
    assert p !in Pages(order);
    assert Pages(order + [p]) == Pages(order) + {p};
  }

  lemma StampedAppend(order: seq<Page>, stamp: map<Page, nat>, p: Page, t: nat)
    requires t > 0 && Stamped(order, stamp, t - 1) && p !in order
    ensures Stamped(order + [p], stamp[p := t], t)
  {
    var order' := order + [p];
    assert Pages(order') == Pages(order) + {p};
    forall i, j | 0 <= i < j < |order'| ensures stamp[p := t][order'[i]] < stamp[p := t][order'[j]] {
      assert order[i] in Pages(order);
      if j < |order| {
        assert order[j] in Pages(order);
      }
    }
  }

  lemma RenewCoupled(c: Config, mem: Memory, p: Page, t: nat)
    requires t > 0 && Coupled(c.frames, mem, t - 1) && p in mem.order && c.policy == Lru
    ensures Coupled(c.frames, Access(c, mem, p, t), t)
  {
    hide Placed, Stamped;
    RemoveProperties(mem.order, p);
    StepQueue(c.policy, c.frames, mem.order, p);
    PlacedRenew(mem.order, mem.frame, p);
    StampedRenew(mem.order, mem.stamp, p, t);
  }

  lemma PlacedRenew(order: seq<Page>, frame: map<Page, nat>, p: Page)
    requires NoDup(order) && Placed(order, frame) && p in order
    ensures Placed(Remove(order, p) + [p], frame)
  {
    RemoveProperties(order, p);
    assert Pages(Remove(order, p) + [p]) == Pages(order);
  }

  lemma StampedRenew(order: seq<Page>, stamp: map<Page, nat>, p: Page, t: nat)
    requires t > 0 && NoDup(order) && Stamped(order, stamp, t - 1) && p in order
    ensures Stamped(Remove(order, p) + [p], stamp[p := t], t)
  {
    hide Stamped;
    StampedRemove(order, stamp, p, t - 1);
    RemoveProperties(order, p);
    StampedAppend(Remove(order, p), stamp - {p}, p, t);
    assert (stamp - {p})[p := t] == stamp[p := t];
  }

  lemma StampedRemove(order: seq<Page>, stamp: map<Page, nat>, p: Page, t: nat)
    requires NoDup(order) && Stamped(order, stamp, t) && p in order
    ensures Stamped(Remove(order, p), stamp - {p}, t)
  {
    RemoveProperties(order, p);
    assert forall x :: x in order ==> x in Pages(order);
    RemoveSorted(order, p, stamp);
    StampedWithout(Remove(order, p), order, stamp, p, t);
  }

  lemma StampedWithout(rest: seq<Page>, order: seq<Page>, stamp: map<Page, nat>, p: Page, t: nat)
    requires Stamped(order, stamp, t) && ByStamp(rest, stamp) && forall x :: x in rest <==> x in order && x != p
    ensures Stamped(rest, stamp - {p}, t)
  {
    assert Pages(rest) == Pages(order) - {p};
  }

  ghost predicate ByStamp(s: seq<Page>, stamp: map<Page, nat>) {
    && (forall p :: p in s ==> p in stamp)
    && forall i, j :: 0 <= i < j < |s| ==> stamp[s[i]] < stamp[s[j]]
  }

  lemma {:induction false} RemoveSorted(s: seq<Page>, p: Page, stamp: map<Page, nat>)
    requires NoDup(s) && ByStamp(s, stamp)
    ensures ByStamp(Remove(s, p), stamp)
  {
    if s != [] {
      hide ByStamp;
      FirstIsLeast(s, stamp);
      if s[0] != p {
        RemoveSorted(s[1..], p, stamp);
        RemoveProperties(s[1..], p);
        PrependSorted(s[0], Remove(s[1..], p), stamp);
      }
    }
  }

  lemma PrependSorted(x: Page, s: seq<Page>, stamp: map<Page, nat>)
    requires ByStamp(s, stamp) && x in stamp && forall y :: y in s ==> stamp[x] < stamp[y]
    ensures ByStamp([x] + s, stamp)
  {
  }

  lemma FirstIsLeast(s: seq<Page>, stamp: map<Page, nat>)
    requires ByStamp(s, stamp) && s != []
    ensures ByStamp(s[1..], stamp) && s[0] in stamp
    ensures forall x :: x in s[1..] ==> x in stamp && stamp[s[0]] < stamp[x]
  {
  }

  lemma ReplaceCoupled(c: Config, mem: Memory, p: Page, t: nat)
    requires t > 0 && Coupled(c.frames, mem, t - 1) && p !in mem.order && Full(c, mem)
    ensures Coupled(c.frames, Access(c, mem, p, t), t)
  {
    var victim, rest := mem.order[0], mem.order[1..];
    StepQueue(c.policy, c.frames, mem.order, p);
    FirstOut(mem.order);
    StampedAppend(rest, mem.stamp - {victim}, p, t);
    PlacedReplace(mem.order, mem.frame, p);
  }

  lemma FirstOut(order: seq<Page>)
    requires NoDup(order) && order != []
    ensures Pages(order[1..]) == Pages(order) - {order[0]} && order[0] in Pages(order)
  {
    assert order == [order[0]] + order[1..];
    assert order[0] !in order[1..];
  }

  lemma PlacedReplace(order: seq<Page>, frame: map<Page, nat>, p: Page)
    requires NoDup(order) && order != [] && Placed(order, frame) && p !in order
    ensures order[0] in frame
    ensures Placed(order[1..] + [p], (frame - {order[0]})[p := frame[order[0]]])
  {
    FirstOut(order);
    assert p !in Pages(order);
    assert Pages(order[1..] + [p]) == Pages(order[1..]) + {p};
  }

  lemma CoupledAfter(c: Config, trace: seq<Reference>, i: nat)
    requires i <= |trace|
    ensures Queue(c.frames, MemoryAfter(c, trace[..i]).order) && Coupled(c.frames, MemoryAfter(c, trace[..i]), i)
  {
  }

  // ---------- What is reported ----------

  datatype PagingResult = PagingResult(
    virtualAddress: bv32,
    physicalAddress: Option<int>,  // not written for an address outside every region
    replacedFrameIndex: int,       // -1 without a page fault
    causedPageFault: bool,
    unusedMemoryAccessException: bool)

  // The report of one access that takes mem to mem'.
  function Report(r: Reference, mem: Memory, mem': Memory): PagingResult
    requires r.inRange ==> r.page in mem'.frame
  {
    if !r.inRange then PagingResult(r.address, None, -1, false, true)
    else
      var fault, frame := r.page !in mem.order, mem'.frame[r.page];
      PagingResult(r.address, Some(GetPhysicalAddress(frame, r.offset)), if fault then frame else -1, fault, false)
  }

  function ResultAt(c: Config, trace: seq<Reference>, i: nat): PagingResult
    requires i < |trace|
  {
    AccessedIsResident(c, trace, i);
    Report(trace[i], MemoryAfter(c, trace[..i]), MemoryAfter(c, trace[..i + 1]))
  }

  lemma AccessedIsResident(c: Config, trace: seq<Reference>, i: nat)
    requires i < |trace|
    ensures trace[i].inRange ==> trace[i].page in MemoryAfter(c, trace[..i + 1]).frame
  {
    if trace[i].inRange {
      assert trace[..i + 1][..i] == trace[..i];
      StepQueue(c.policy, c.frames, MemoryAfter(c, trace[..i]).order, trace[i].page);
      assert trace[i].page in Pages(MemoryAfter(c, trace[..i + 1]).order);
    }
  }

  // ---------- The simulator runs the simple policies ----------

  // The pages accessed, out-of-region accesses left out.
  function PagesAccessed(trace: seq<Reference>): seq<Page> {
    if trace == [] then []
    else
      var n := |trace| - 1;
      PagesAccessed(trace[..n]) + if trace[n].inRange then [trace[n].page] else []
  }

  lemma {:induction false} AllAccessed(refs: seq<Reference>)
    requires forall i :: 0 <= i < |refs| ==> refs[i].inRange
    ensures |PagesAccessed(refs)| == |refs|
    ensures forall i :: 0 <= i < |refs| ==> PagesAccessed(refs)[i] == refs[i].page
  {
    if refs != [] {
      AllAccessed(refs[..|refs| - 1]);
    }
  }

  // A run that accesses the pages (0, k) for the given k, in an address space of one region.
  function LowRun(ks: seq<Index>): (refs: seq<Reference>)
    ensures |refs| == |ks|
  {
    References([LOW_REGION], seq(|ks|, i requires 0 <= i < |ks| => AddressOf(ks[i])))
  }

  lemma LowRunAt(ks: seq<Index>, i: nat)
    requires i < |ks|
    ensures LowRun(ks)[i].inRange && LowRun(ks)[i].page == Page(0, ks[i])
  {
    hide PageOf, InRange, AddressOf, Offset;
    PageOfAddress(ks[i]);
  }

  // The pages accessed between two of its accesses.
  lemma LowRunPages(ks: seq<Index>, a: nat, b: nat)
    requires a <= b <= |ks|
    ensures var pages := PagesAccessed(LowRun(ks)[a..b]);
            |pages| == b - a && forall i :: 0 <= i < b - a ==> pages[i] == Page(0, ks[a + i])
  {
    hide LowRun;
    forall i | 0 <= i < b - a
      ensures LowRun(ks)[a..b][i].inRange && LowRun(ks)[a..b][i].page == Page(0, ks[a + i])
    {
      LowRunAt(ks, a + i);
    }
    AllAccessed(LowRun(ks)[a..b]);
  }

  function FaultsReported(c: Config, trace: seq<Reference>, upto: nat): nat
    requires upto <= |trace|
  {
    if upto == 0 then 0
    else FaultsReported(c, trace, upto - 1) + if ResultAt(c, trace, upto - 1).causedPageFault then 1 else 0
  }

  lemma {:induction false} PagesAccessedSplit(trace: seq<Reference>, i: nat, j: nat)
    requires i <= j <= |trace|
    ensures PagesAccessed(trace[..j]) == PagesAccessed(trace[..i]) + PagesAccessed(trace[i..j])
    decreases j
  {
    if i == j {
      assert trace[i..j] == [];
    } else {
      PagesAccessedSplit(trace, i, j - 1);
      assert trace[..j][..j - 1] == trace[..j - 1];
      assert trace[i..j][..j - i - 1] == trace[i..j - 1];
    }
  }

  // One more access.
  lemma Unfold(c: Config, trace: seq<Reference>, n: nat)
    requires 0 < n <= |trace|
    ensures Coupled(c.frames, MemoryAfter(c, trace[..n - 1]), n)
    ensures MemoryAfter(c, trace[..n]) ==
            if trace[n - 1].inRange then Access(c, MemoryAfter(c, trace[..n - 1]), trace[n - 1].page, n)
            else MemoryAfter(c, trace[..n - 1])
    ensures PagesAccessed(trace[..n]) ==
            if trace[n - 1].inRange then PagesAccessed(trace[..n - 1]) + [trace[n - 1].page]
            else PagesAccessed(trace[..n - 1])
  {
    assert trace[..n][..n - 1] == trace[..n - 1];
  }

  lemma OneMore(pol: Policy, m: nat, t: seq<Page>, p: Page)
    requires m > 0
    ensures Run(pol, m, t + [p]) == Step(pol, m, Run(pol, m, t), p)
    ensures Loads(pol, m, [], t + [p]) == Loads(pol, m, [], t) + if p in Run(pol, m, t) then [] else [p]
  {
    assert (t + [p])[..|t + [p]| - 1] == t;
  }

  lemma FaultAt(c: Config, trace: seq<Reference>, i: nat)
    requires i < |trace|
    ensures ResultAt(c, trace, i).causedPageFault <==>
            trace[i].inRange && trace[i].page !in MemoryAfter(c, trace[..i]).order
  {
    hide MemoryAfter;
    AccessedIsResident(c, trace, i);
  }

  lemma AccessOrder(c: Config, mem: Memory, p: Page, t: nat)
    requires Coupled(c.frames, mem, t)
    ensures Access(c, mem, p, t).order == Step(c.policy, c.frames, mem.order, p)
  {
    hide Coupled;
  }

  /** Queue and fault count are those of the simple policy on the pages accessed. */
  lemma {:induction false} RunsThePolicy(c: Config, trace: seq<Reference>, n: nat)
    requires n <= |trace|
    ensures MemoryAfter(c, trace[..n]).order == Run(c.policy, c.frames, PagesAccessed(trace[..n]))
    ensures FaultsReported(c, trace, n) == Faults(c.policy, c.frames, PagesAccessed(trace[..n]))
  {
    hide *;
    if n == 0 {
      NothingRun(c, trace);
    } else {
      RunsThePolicy(c, trace, n - 1);
      RunsOneMore(c, trace, n);
    }
  }

  lemma NothingRun(c: Config, trace: seq<Reference>)
    ensures MemoryAfter(c, trace[..0]).order == Run(c.policy, c.frames, PagesAccessed(trace[..0]))
    ensures FaultsReported(c, trace, 0) == Faults(c.policy, c.frames, PagesAccessed(trace[..0]))
  {
    assert trace[..0] == [];
  }

  lemma RunsOneMore(c: Config, trace: seq<Reference>, n: nat)
    requires 0 < n <= |trace|
    requires MemoryAfter(c, trace[..n - 1]).order == Run(c.policy, c.frames, PagesAccessed(trace[..n - 1]))
    requires FaultsReported(c, trace, n - 1) == Faults(c.policy, c.frames, PagesAccessed(trace[..n - 1]))
    ensures MemoryAfter(c, trace[..n]).order == Run(c.policy, c.frames, PagesAccessed(trace[..n]))
    ensures FaultsReported(c, trace, n) == Faults(c.policy, c.frames, PagesAccessed(trace[..n]))
  {
    hide MemoryAfter, PagesAccessed, ResultAt, Coupled, Access, Run, Loads, Step;
    Unfold(c, trace, n);
    FaultAt(c, trace, n - 1);
    if trace[n - 1].inRange {
      AccessOrder(c, MemoryAfter(c, trace[..n - 1]), trace[n - 1].page, n);
    }
    OneMore(c.policy, c.frames, PagesAccessed(trace[..n - 1]), trace[n - 1].page);
  }

  /** Resident pages and faults: faults minus evictions is the number of resident pages, because that
      number is the number of faults until the frames are full. */
  lemma {:induction false} ResidentCount(pol: Policy, m: nat, trace: seq<Page>)
    requires m > 0
    ensures |Run(pol, m, trace)| == Min(Faults(pol, m, trace), m)
  {
    if trace != [] {
      var n := |trace| - 1;
      ResidentCount(pol, m, trace[..n]);
      RunKeepsQueue(pol, m, [], trace[..n]);
      RemoveProperties(Run(pol, m, trace[..n]), trace[n]);
    }
  }

  // ---------- Translation ----------

  function Translate(mem: Memory, va: bv32): int
    requires PageOf(va) in mem.frame
  {
    GetPhysicalAddress(mem.frame[PageOf(va)], Offset(va))
  }

  /** Whenever the tables are coupled, resident addresses with equal translations are equal. */
  lemma TranslationIsInjective(m: nat, mem: Memory, t: nat, a: bv32, b: bv32)
    requires Coupled(m, mem, t) && PageOf(a) in mem.frame && PageOf(b) in mem.frame
    requires Translate(mem, a) == Translate(mem, b)
    ensures a == b
  {
    hide PageOf, Offset;
    PhysicalIsInjective(mem.frame[PageOf(a)], Offset(a), mem.frame[PageOf(b)], Offset(b));
    SamePlace(a, b);
  }

  /** Physical addresses lie in the frames given to the program and keep the virtual offset. */
  lemma TranslationInBounds(m: nat, mem: Memory, t: nat, a: bv32)
    requires Coupled(m, mem, t) && PageOf(a) in mem.frame
    ensures 0 <= Translate(mem, a) < PAGE_SIZE * m
    ensures Translate(mem, a) % PAGE_SIZE == Offset(a)
  {
    InFrame(mem.frame[PageOf(a)], Offset(a), m);
  }

  lemma InFrame(f: nat, x: nat, m: nat)
    requires f < m && x < PAGE_SIZE
    ensures var pa := GetPhysicalAddress(f, x); 0 <= pa < PAGE_SIZE * m && pa % PAGE_SIZE == x
  {
  }

  // ---------- Frames ----------

  /** The resident pages own exactly the first frames, as many as there are resident pages. */
  lemma FramesAreAPrefix(c: Config, trace: seq<Reference>)
    ensures var mem := MemoryAfter(c, trace); mem.frame.Values == Below(|mem.order|)
  {
    var mem := MemoryAfter(c, trace);
    NoDupCount(mem.order);
    ImageSize(mem.frame);
    SubsetCount(mem.frame.Values, Below(|mem.order|));
  }

  lemma {:induction false} ImageSize(frame: map<Page, nat>)
    requires forall p, q :: p in frame && q in frame && p != q ==> frame[p] != frame[q]
    ensures |frame.Values| == |frame.Keys|
    decreases |frame.Keys|
  {
    if frame.Keys == {} {
      assert frame.Values == {};
    } else {
      var p :| p in frame.Keys;
      var rest := frame - {p};
      assert rest.Keys == frame.Keys - {p};
      ImageSize(rest);
      assert frame == rest[p := frame[p]];
      assert forall q :: q in rest ==> rest[q] == frame[q];
      assert frame[p] !in rest.Values;
      assert forall v :: v in frame.Values <==> v == frame[p] || v in rest.Values;
      assert frame.Values == rest.Values + {frame[p]};
    }
  }

  function Cyclic(j: nat, m: nat): nat
    requires m > 0
  {
    if j < m then j else Cyclic(j - m, m)
  }

  lemma {:induction false} CyclicIsRemainder(j: nat, m: nat)
    requires m > 0
    ensures Cyclic(j, m) == j % m
  {
    if j < m {
      DivUnique(j, m, 0, j);
    } else {
      CyclicIsRemainder(j - m, m);
      ModPlus(j - m, m);
    }
  }

  // After f faults the frames of the queue follow each other cyclically.
  ghost predicate RoundRobin(m: nat, mem: Memory, f: nat)
    requires m > 0
  {
    && |mem.order| == Min(f, m)
    && forall i :: 0 <= i < |mem.order| ==>
         mem.order[i] in mem.frame && mem.frame[mem.order[i]] == Cyclic(f - |mem.order| + i, m)
  }

  lemma RoundRobinLoad(c: Config, mem: Memory, p: Page, t: nat, f: nat)
    requires Coupled(c.frames, mem, t) && RoundRobin(c.frames, mem, f) && p !in mem.order
    requires !Full(c, mem)
    ensures RoundRobin(c.frames, Access(c, mem, p, t), f + 1)
  {
    assert p !in Pages(mem.order);
  }

  lemma RoundRobinReplace(c: Config, mem: Memory, p: Page, t: nat, f: nat)
    requires Coupled(c.frames, mem, t) && RoundRobin(c.frames, mem, f) && p !in mem.order
    requires Full(c, mem)
    ensures RoundRobin(c.frames, Access(c, mem, p, t), f + 1)
  {
    var m, victim, mem' := c.frames, mem.order[0], Access(c, mem, p, t);
    assert mem'.frame == (mem.frame - {victim})[p := mem.frame[victim]];
    forall i | 0 <= i < m
      ensures mem'.order[i] in mem'.frame && mem'.frame[mem'.order[i]] == Cyclic(f + 1 - m + i, m)
    {
      if i < m - 1 {
        assert mem'.order[i] == mem.order[i + 1];
        assert mem'.order[i] != victim;
      }
    }
  }

  lemma RoundRobinAccess(c: Config, mem: Memory, p: Page, t: nat, f: nat)
    requires c.policy == Fifo && Coupled(c.frames, mem, t) && RoundRobin(c.frames, mem, f)
    ensures RoundRobin(c.frames, Access(c, mem, p, t), if p in mem.order then f else f + 1)
  {
    if p in mem.order {
      assert Access(c, mem, p, t) == mem;
    } else if Full(c, mem) {
      RoundRobinReplace(c, mem, p, t, f);
    } else {
      RoundRobinLoad(c, mem, p, t, f);
    }
  }

  lemma {:induction false} FramesRoundRobin(c: Config, trace: seq<Reference>, n: nat)
    requires c.policy == Fifo && n <= |trace|
    ensures RoundRobin(c.frames, MemoryAfter(c, trace[..n]), FaultsReported(c, trace, n))
  {
    if n > 0 {
      hide RoundRobin;
      FramesRoundRobin(c, trace, n - 1);
      Unfold(c, trace, n);
      if trace[n - 1].inRange {
        RoundRobinAccess(c, MemoryAfter(c, trace[..n - 1]), trace[n - 1].page, n, FaultsReported(c, trace, n - 1));
      }
    }
  }

  lemma LastFrame(m: nat, mem: Memory, f: nat)
    requires m > 0 && RoundRobin(m, mem, f + 1)
    ensures mem.order != []
    ensures var p := mem.order[|mem.order| - 1]; p in mem.frame && mem.frame[p] == f % m
  {
    CyclicIsRemainder(f, m);
  }

  /** Under FIFO the j-th faulting page, counting from 0, is put in frame j mod m. */
  lemma FifoFrames(c: Config, trace: seq<Reference>, i: nat)
    requires c.policy == Fifo && i < |trace| && ResultAt(c, trace, i).causedPageFault
    ensures ResultAt(c, trace, i).replacedFrameIndex == FaultsReported(c, trace, i) % c.frames
  {
    hide RoundRobin, Coupled;
    FramesRoundRobin(c, trace, i + 1);
    Unfold(c, trace, i + 1);
    LastFrame(c.frames, MemoryAfter(c, trace[..i + 1]), FaultsReported(c, trace, i));
  }
}
