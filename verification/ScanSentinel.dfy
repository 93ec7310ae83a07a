/** The victim scans only see stamps below a fixed minimum, and both are made whichever policy was asked
    for: their results are printed before one of them is used. Which runs need a victim when a scan sees
    no page? Exactly those with a fault at which every resident page was used after a certain moment. */
module ScanSentinel {
  import opened Addresses
  import opened Collections
  import opened ReplacementPolicies
  import opened PagingModel

  // The first access whose time stamp the scans cannot see; access i happens at time i + 1.
  const CUT: nat := SCAN_INFINITY - 1

  // When the pages accessed so far were last used.
  function LastUses(trace: seq<Reference>): (used: map<Page, nat>)
    ensures forall q :: q in used ==> used[q] <= |trace|
  {
    if trace == [] then map[]
    else
      var n := |trace| - 1;
      if trace[n].inRange then LastUses(trace[..n])[trace[n].page := |trace|] else LastUses(trace[..n])
  }

  // The LRU scan sees no resident page, and only then may the FIFO scan see none either.
  predicate AllHidden(mem: Memory, used: map<Page, nat>) {
    forall q :: q in mem.order ==> q in used && used[q] >= SCAN_INFINITY
  }

  predicate NoVictim(c: Config, mem: Memory, used: map<Page, nat>, p: Page) {
    p !in mem.order && Full(c, mem) && AllHidden(mem, used)
  }

  /** Access i needs a victim, and a scan returns a pointer that was never set. */
  predicate Stuck(c: Config, trace: seq<Reference>, i: nat)
    requires i < |trace|
  {
    trace[i].inRange && NoVictim(c, MemoryAfter(c, trace[..i]), LastUses(trace[..i]), trace[i].page)
  }

  ghost predicate RunsToTheEnd(c: Config, trace: seq<Reference>) {
    forall i :: 0 <= i < |trace| ==> !Stuck(c, trace, i)
  }

  // ---------- Pages used late ----------

  function LatePages(trace: seq<Reference>, i: nat): seq<Page>
    requires CUT <= i <= |trace|
  {
    PagesAccessed(trace[CUT..i])
  }

  lemma LatePagesStep(trace: seq<Reference>, i: nat)
    requires CUT <= i < |trace|
    ensures LatePages(trace, i + 1) ==
            if trace[i].inRange then LatePages(trace, i) + [trace[i].page] else LatePages(trace, i)
  {
    assert trace[CUT..i + 1][..i - CUT] == trace[CUT..i];
  }

  lemma LastUsesStep(trace: seq<Reference>, i: nat)
    requires i < |trace|
    ensures LastUses(trace[..i + 1]) ==
            if trace[i].inRange then LastUses(trace[..i])[trace[i].page := i + 1] else LastUses(trace[..i])
  {
    assert trace[..i + 1][..i] == trace[..i];
  }

  lemma NothingLateYet(trace: seq<Reference>)
    requires CUT <= |trace|
    ensures LatePages(trace, CUT) == []
  {
    assert trace[CUT..CUT] == [];
  }

  lemma {:induction false} UsedLate(trace: seq<Reference>, i: nat, q: Page)
    requires CUT <= i <= |trace|
    ensures var used := LastUses(trace[..i]); q in used && used[q] >= SCAN_INFINITY <==> q in LatePages(trace, i)
    decreases i
  {
    hide LastUses, LatePages;
    if i == CUT {
      NothingLateYet(trace);
    } else {
      UsedLate(trace, i - 1, q);
      LatePagesStep(trace, i - 1);
      LastUsesStep(trace, i - 1);
    }
  }

  // Under either policy the queue goes on from the cut with the pages used late.
  lemma SinceCut(c: Config, trace: seq<Reference>, i: nat)
    requires CUT <= i <= |trace|
    ensures var q := MemoryAfter(c, trace[..CUT]).order;
            && Queue(c.frames, q)
            && MemoryAfter(c, trace[..i]).order == RunFrom(c.policy, c.frames, q, LatePages(trace, i))
            && FaultsReported(c, trace, i)
               == FaultsReported(c, trace, CUT) + |Loads(c.policy, c.frames, q, LatePages(trace, i))|
  {
    hide RunFrom, Loads, MemoryAfter, Coupled, PagesAccessed, FaultsReported;
    CoupledAfter(c, trace, CUT);
    RunsThePolicy(c, trace, CUT);
    RunsThePolicy(c, trace, i);
    PagesAccessedSplit(trace, CUT, i);
    RunSplit(c.policy, c.frames, [], PagesAccessed(trace[..CUT]), LatePages(trace, i));
  }

  // ---------- The exact condition ----------

  /** All frames are taken by pages of late, and p is none of them. */
  predicate OnlyLate(m: nat, q: seq<Page>, late: seq<Page>, p: Page) {
    p !in q && |q| >= m && Pages(q) <= Pages(late)
  }

  lemma StuckNow(c: Config, trace: seq<Reference>, i: nat)
    requires CUT <= i < |trace|
    ensures Stuck(c, trace, i) <==>
            trace[i].inRange && OnlyLate(c.frames, MemoryAfter(c, trace[..i]).order, LatePages(trace, i), trace[i].page)
  {
    hide MemoryAfter, LatePages, LastUses;
    var q, late := MemoryAfter(c, trace[..i]).order, LatePages(trace, i);
    forall x | x in q ensures x in late <==> x in LastUses(trace[..i]) && LastUses(trace[..i])[x] >= SCAN_INFINITY {
      UsedLate(trace, i, x);
    }
    assert Pages(q) <= Pages(late) <==> forall x :: x in q ==> x in late by {
      if Pages(q) <= Pages(late) {
        forall x | x in q ensures x in late { assert x in Pages(q); }
      }
    }
  }

  lemma EarlyIsFine(c: Config, trace: seq<Reference>, i: nat)
    requires i < |trace| && i < CUT
    ensures !Stuck(c, trace, i)
  {
    if Stuck(c, trace, i) {
      assert MemoryAfter(c, trace[..i]).order[0] in LastUses(trace[..i]);
    }
  }

  /** A run finds a victim whenever it needs one if and only if, from time stamp 999999 on, no page fault
      meets a memory full of pages that were all used since then. */
  lemma RunsToTheEndIff(c: Config, trace: seq<Reference>)
    ensures RunsToTheEnd(c, trace) <==>
            forall i :: CUT <= i < |trace| && trace[i].inRange ==>
              !OnlyLate(c.frames, Run(c.policy, c.frames, PagesAccessed(trace[..i])), LatePages(trace, i),
                        trace[i].page)
  {
    hide Stuck, OnlyLate, LatePages, Run, PagesAccessed;
    forall i | 0 <= i < |trace|
      ensures Stuck(c, trace, i) <==>
              i >= CUT && trace[i].inRange
              && OnlyLate(c.frames, Run(c.policy, c.frames, PagesAccessed(trace[..i])), LatePages(trace, i),
                          trace[i].page)
    {
      if i < CUT {
        EarlyIsFine(c, trace, i);
      } else {
        StuckNow(c, trace, i);
        RunsThePolicy(c, trace, i);
      }
    }
  }

  // ---------- Counting late pages ----------

  lemma OnlyLateUses(m: nat, q: seq<Page>, late: seq<Page>, p: Page)
    requires NoDup(q) && OnlyLate(m, q, late, p)
    ensures |Pages(late + [p])| > m
  {
    NoDupCount(q);
    assert p !in Pages(q);
    assert Pages(late + [p]) == Pages(late) + {p};
    SubsetCount(Pages(q) + {p}, Pages(late + [p]));
  }

  lemma MoreLatePages(trace: seq<Reference>, i: nat, n: nat)
    requires CUT <= i <= n <= |trace|
    ensures Pages(LatePages(trace, i)) <= Pages(LatePages(trace, n))
    ensures |Pages(LatePages(trace, i))| <= |Pages(LatePages(trace, n))|
  {
    PagesAccessedSplit(trace[CUT..], i - CUT, n - CUT);
    assert trace[CUT..][..i - CUT] == trace[CUT..i] && trace[CUT..][..n - CUT] == trace[CUT..n];
    SubsetCount(Pages(LatePages(trace, i)), Pages(LatePages(trace, n)));
  }

  /** So under either policy a run ends if it uses no more distinct pages late than there are frames. */
  lemma FewLatePages(c: Config, trace: seq<Reference>)
    requires |trace| > CUT ==> |Pages(LatePages(trace, |trace|))| <= c.frames
    ensures RunsToTheEnd(c, trace)
  {
    hide Stuck, OnlyLate, LatePages, MemoryAfter, Pages, Coupled;
    forall i | 0 <= i < |trace| ensures !Stuck(c, trace, i) {
      if i < CUT {
        EarlyIsFine(c, trace, i);
      } else {
        StuckNow(c, trace, i);
        LatePagesStep(trace, i);
        MoreLatePages(trace, i + 1, |trace|);
        CoupledAfter(c, trace, i);
        if Stuck(c, trace, i) {
          OnlyLateUses(c.frames, MemoryAfter(c, trace[..i]).order, LatePages(trace, i), trace[i].page);
        }
      }
    }
  }

  // ---------- LRU ----------

  lemma LruHoldsLate(m: nat, q: seq<Page>, s: seq<Page>, p: Page)
    requires m > 0 && Queue(m, q) && |Pages(s)| <= m < |Pages(s + [p])|
    ensures OnlyLate(m, RunFrom(Lru, m, q, s), s, p)
  {
    var front, back := LruStretch(m, q, s);
    assert Pages(s + [p]) == Pages(s) + {p};
    assert p !in Pages(s) && |Pages(s)| == m;
    assert front == [];
    assert front + back == back;
    assert p !in Pages(back);
  }

  lemma {:induction false} LruSticks(c: Config, trace: seq<Reference>, n: nat) returns (i: nat)
    requires c.policy == Lru && CUT <= n <= |trace| && |Pages(LatePages(trace, n))| > c.frames
    ensures i < n && Stuck(c, trace, i)
    decreases n
  {
    hide Stuck, MemoryAfter, Pages, OnlyLate, RunFrom, Loads, Queue;
    NothingLateYet(trace);
    assert Pages([]) == {} by { NothingInNothing(); }
    assert n > CUT;
    hide LatePages;
    LatePagesStep(trace, n - 1);
    if |Pages(LatePages(trace, n - 1))| > c.frames {
      i := LruSticks(c, trace, n - 1);
    } else {
      i := n - 1;
      SinceCut(c, trace, i);
      LruHoldsLate(c.frames, MemoryAfter(c, trace[..CUT]).order, LatePages(trace, i), trace[i].page);
      StuckNow(c, trace, i);
    }
  }

  lemma NothingInNothing()
    ensures Pages([]) == {}
  {
  }

  /** Under LRU a run ends if and only if it uses no more distinct pages late than there are frames. */
  lemma LruRunsToTheEndIff(c: Config, trace: seq<Reference>)
    requires c.policy == Lru
    ensures RunsToTheEnd(c, trace) <==> |trace| <= CUT || |Pages(LatePages(trace, |trace|))| <= c.frames
  {
    hide Stuck, LatePages, Pages;
    if |trace| <= CUT || |Pages(LatePages(trace, |trace|))| <= c.frames {
      FewLatePages(c, trace);
    } else {
      var i := LruSticks(c, trace, |trace|);
    }
  }

  // ---------- FIFO ----------

  lemma FifoHoldsLate(m: nat, q: seq<Page>, s: seq<Page>, p: Page)
    requires m > 0 && |q| <= m && |Loads(Fifo, m, q, s)| >= m && p !in RunFrom(Fifo, m, q, s)
    ensures OnlyLate(m, RunFrom(Fifo, m, q, s), s, p)
  {
    FifoStretch(m, q, s);
    LoadedWereUsed(Fifo, m, q, s);
    var loads := Loads(Fifo, m, q, s);
    assert RunFrom(Fifo, m, q, s) == loads[|loads| - m..];
  }

  lemma {:induction false} LoadedWereUsed(pol: Policy, m: nat, q: seq<Page>, s: seq<Page>)
    requires m > 0
    ensures forall x :: x in Loads(pol, m, q, s) ==> x in s
  {
    if s != [] {
      LoadedWereUsed(pol, m, q, s[..|s| - 1]);
    }
  }

  lemma LoadsStep(pol: Policy, m: nat, q: seq<Page>, s: seq<Page>, p: Page)
    requires m > 0
    ensures Loads(pol, m, q, s + [p]) == Loads(pol, m, q, s) + if p in RunFrom(pol, m, q, s) then [] else [p]
  {
    assert (s + [p])[..|s|] == s;
  }

  lemma {:induction false} FifoSticks(c: Config, trace: seq<Reference>, n: nat) returns (i: nat)
    requires c.policy == Fifo && CUT <= n <= |trace|
    requires |Loads(Fifo, c.frames, MemoryAfter(c, trace[..CUT]).order, LatePages(trace, n))| > c.frames
    ensures i < n && Stuck(c, trace, i)
    decreases n
  {
    hide *;
    var q := MemoryAfter(c, trace[..CUT]).order;
    NothingLateYet(trace);
    NothingLoaded(c.frames, q);
    LatePagesStep(trace, n - 1);
    LoadsStep(Fifo, c.frames, q, LatePages(trace, n - 1), trace[n - 1].page);
    if |Loads(Fifo, c.frames, q, LatePages(trace, n - 1))| > c.frames {
      i := FifoSticks(c, trace, n - 1);
    } else {
      i := n - 1;
      FifoSticksNow(c, trace, i);
    }
  }

  lemma NothingLoaded(m: nat, q: seq<Page>)
    requires m > 0
    ensures Loads(Fifo, m, q, []) == []
  {
  }

  lemma FifoSticksNow(c: Config, trace: seq<Reference>, i: nat)
    requires c.policy == Fifo && CUT <= i < |trace| && trace[i].inRange
    requires var q := MemoryAfter(c, trace[..CUT]).order;
             && |Loads(Fifo, c.frames, q, LatePages(trace, i))| >= c.frames
             && trace[i].page !in RunFrom(Fifo, c.frames, q, LatePages(trace, i))
    ensures Stuck(c, trace, i)
  {
    hide Stuck, MemoryAfter, OnlyLate, RunFrom, LatePages, Loads;
    SinceCut(c, trace, i);
    FifoHoldsLate(c.frames, MemoryAfter(c, trace[..CUT]).order, LatePages(trace, i), trace[i].page);
    StuckNow(c, trace, i);
  }

  /** Under FIFO a run that would fault late more often than there are frames does not end. */
  lemma ManyLateFaultsStick(c: Config, trace: seq<Reference>)
    requires c.policy == Fifo && |trace| > CUT
    requires FaultsReported(c, trace, |trace|) - FaultsReported(c, trace, CUT) > c.frames
    ensures !RunsToTheEnd(c, trace)
  {
    hide Stuck, LatePages, Loads, RunFrom, MemoryAfter;
    SinceCut(c, trace, |trace|);
    var i := FifoSticks(c, trace, |trace|);
  }

  // ---------- Short runs end, and some long ones do not ----------

  /** In particular every trace of at most 999998 + m accesses runs to the end. */
  lemma ShortRunsEnd(c: Config, trace: seq<Reference>)
    requires |trace| <= 999998 + c.frames
    ensures RunsToTheEnd(c, trace)
  {
    if |trace| > CUT {
      PagesBound(trace[CUT..|trace|]);
      NoMorePagesThan(LatePages(trace, |trace|));
    }
    FewLatePages(c, trace);
  }

  lemma {:induction false} PagesBound(trace: seq<Reference>)
    ensures |PagesAccessed(trace)| <= |trace|
  {
    if trace != [] {
      PagesBound(trace[..|trace| - 1]);
    }
  }

  lemma {:induction false} NoMorePagesThan(s: seq<Page>)
    ensures |Pages(s)| <= |s|
  {
    if s != [] {
      var n := |s| - 1;
      NoMorePagesThan(s[..n]);
      assert s == s[..n] + [s[n]];
      assert Pages(s) == Pages(s[..n]) + {s[n]};
    }
  }

  // One page until the cut, then one page more than there are frames.
  function LongTrace(m: FrameCount): seq<Index> {
    seq(CUT + m + 1, i requires 0 <= i < CUT + m + 1 => if i < CUT then 1023 else i - CUT)
  }

  lemma LongTracePages(m: FrameCount)
    ensures var refs := LowRun(LongTrace(m));
            && |refs| == CUT + m + 1 && NoDup(LatePages(refs, |refs|)) && |LatePages(refs, |refs|)| == m + 1
            && Disjoint(LatePages(refs, |refs|), PagesAccessed(refs[..CUT]))
  {
    hide PagesAccessed, LowRun;
    var ks, refs := LongTrace(m), LowRun(LongTrace(m));
    LowRunPages(ks, 0, CUT);
    LowRunPages(ks, CUT, |ks|);
    assert refs[0..CUT] == refs[..CUT];
  }

  /** Under either policy and for every number of frames there are addresses on which the program dereferences a
      victim that was never set. */
  lemma LongRunSticks(c: Config)
    ensures !RunsToTheEnd(c, LowRun(LongTrace(c.frames)))
  {
    hide RunsToTheEnd, LowRun, LongTrace, Pages;
    var refs := LowRun(LongTrace(c.frames));
    LongTracePages(c.frames);
    match c.policy
    case Lru =>
      hide LatePages;
      NoDupCount(LatePages(refs, |refs|));
      LruRunsToTheEndIff(c, refs);
    case Fifo =>
      NewPagesStick(c, refs);
  }

  lemma NewPagesStick(c: Config, refs: seq<Reference>)
    requires c.policy == Fifo && |refs| > CUT
    requires NoDup(LatePages(refs, |refs|)) && |LatePages(refs, |refs|)| > c.frames
    requires Disjoint(LatePages(refs, |refs|), PagesAccessed(refs[..CUT]))
    ensures !RunsToTheEnd(c, refs)
  {
    hide Stuck, LatePages, PagesAccessed, Loads, RunFrom, MemoryAfter;
    var q, late := MemoryAfter(c, refs[..CUT]).order, LatePages(refs, |refs|);
    SinceCut(c, refs, |refs|);
    RunsThePolicy(c, refs, CUT);
    RunKeepsQueue(Fifo, c.frames, [], PagesAccessed(refs[..CUT]));
    forall p | p in late ensures p !in q {
      assert p !in Pages([]) + Pages(PagesAccessed(refs[..CUT]));
      assert p !in Pages(q);
    }
    FreshLoads(c.frames, q, late);
    var i := FifoSticks(c, refs, |refs|);
  }

  // One page until the scans cannot see it any more, then another page.
  function HitTrace(): seq<Index> {
    seq(CUT + 2, i requires 0 <= i < CUT + 2 => if i <= CUT then 0 else 1)
  }

  lemma HitTracePages()
    ensures var refs := LowRun(HitTrace());
            var before, late := PagesAccessed(refs[..CUT + 1]), LatePages(refs, CUT + 1);
            && |refs| == CUT + 2 && refs[CUT + 1].inRange && refs[CUT + 1].page == Page(0, 1)
            && |before| == CUT + 1 && (forall i :: 0 <= i < |before| ==> before[i] == Page(0, 0))
            && late == [Page(0, 0)]
  {
    hide PagesAccessed, LowRun;
    var ks, refs := HitTrace(), LowRun(HitTrace());
    LowRunPages(ks, 0, CUT + 1);
    LowRunPages(ks, CUT, CUT + 1);
    LowRunAt(ks, CUT + 1);
    assert refs[0..CUT + 1] == refs[..CUT + 1];
  }

  // The page loaded by the first access stays as it is while it is hit.
  lemma {:induction false} HitsChangeNothing(n: nat)
    requires 0 < n <= CUT + 1
    ensures MemoryAfter(Config(Fifo, 1), LowRun(HitTrace())[..n])
         == Memory([Page(0, 0)], map[Page(0, 0) := 0], map[Page(0, 0) := 1])
  {
    hide LowRun, HitTrace, Coupled, Step;
    var c, refs := Config(Fifo, 1), LowRun(HitTrace());
    HitTraceAt(n - 1);
    Unfold(c, refs, n);
    if n == 1 {
      FirstLoad();
      assert refs[..0] == [];
    } else {
      HitsChangeNothing(n - 1);
      HitIsNothing(MemoryAfter(c, refs[..n - 1]), n);
    }
  }

  lemma HitTraceAt(i: nat)
    requires i <= CUT
    ensures |LowRun(HitTrace())| == CUT + 2 && LowRun(HitTrace())[i].inRange && LowRun(HitTrace())[i].page == Page(0, 0)
  {
    hide LowRun;
    LowRunAt(HitTrace(), i);
  }

  lemma FirstLoad()
    ensures Coupled(1, EMPTY, 1)
    ensures Access(Config(Fifo, 1), EMPTY, Page(0, 0), 1)
         == Memory([Page(0, 0)], map[Page(0, 0) := 0], map[Page(0, 0) := 1])
  {
  }

  lemma HitIsNothing(mem: Memory, t: nat)
    requires Coupled(1, mem, t) && mem.order == [Page(0, 0)]
    ensures Access(Config(Fifo, 1), mem, Page(0, 0), t) == mem
  {
  }

  /** Under FIFO one late fault can be enough: with one frame, a page loaded at the very start and hit
      once late is in plain sight of the FIFO scan, with stamp 1, but not of the LRU scan made beside it. */
  lemma OneLateFaultSticks()
    ensures var c, refs := Config(Fifo, 1), LowRun(HitTrace());
            && |refs| == CUT + 2 && Stuck(c, refs, CUT + 1) && !RunsToTheEnd(c, refs)
            && MemoryAfter(c, refs[..CUT + 1]).order == [Page(0, 0)]
            && MemoryAfter(c, refs[..CUT + 1]).stamp == map[Page(0, 0) := 1]
  {
    hide Run, LowRun, HitTrace, LatePages, PagesAccessed, MemoryAfter, Stuck;
    var refs := LowRun(HitTrace());
    HitTracePages();
    HitsChangeNothing(CUT + 1);
    StuckNow(Config(Fifo, 1), refs, CUT + 1);
    assert OnlyLate(1, [Page(0, 0)], [Page(0, 0)], Page(0, 1));
  }
}
