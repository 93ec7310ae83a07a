/** The theorems on replacement policies, said of what the simulator reports. */
module PagingTheorems {
  import opened Addresses
  import opened ReplacementPolicies
  import opened PagingModel
  import opened Competitiveness

  /** An access inside a region faults under LRU exactly when its page was never used or at least as many
      other pages as there are frames were used since. */
  lemma ReportedLruFault(c: Config, trace: seq<Reference>, i: nat)
    requires c.policy == Lru && i < |trace| && trace[i].inRange
    ensures var before := PagesAccessed(trace[..i]); var p := trace[i].page;
            ResultAt(c, trace, i).causedPageFault <==> !(p in before && StackDistance(before, p) < c.frames)
  {
    RunsThePolicy(c, trace, i);
    LruResident(c.frames, PagesAccessed(trace[..i]), trace[i].page);
  }

  /** Adding frames never adds page faults under LRU. */
  lemma ReportedLruMonotone(m: FrameCount, m': FrameCount, trace: seq<Reference>)
    requires m <= m'
    ensures FaultsReported(Config(Lru, m'), trace, |trace|) <= FaultsReported(Config(Lru, m), trace, |trace|)
  {
    FaultsOfPolicy(Config(Lru, m), trace);
    FaultsOfPolicy(Config(Lru, m'), trace);
    LruFaultsMonotone(m, m', PagesAccessed(trace));
  }

  /** Between accesses i and j no more faults are reported than distinct pages are used, provided these
      fit in the frames. */
  lemma ReportedConservative(c: Config, trace: seq<Reference>, i: nat, j: nat)
    requires i <= j <= |trace|
    requires |Pages(PagesAccessed(trace[i..j]))| <= c.frames
    ensures FaultsReported(c, trace, j) - FaultsReported(c, trace, i) <= |Pages(PagesAccessed(trace[i..j]))|
  {
    var a, b := PagesAccessed(trace[..i]), PagesAccessed(trace[i..j]);
    PagesAccessedSplit(trace, i, j);
    RunsThePolicy(c, trace, i);
    RunsThePolicy(c, trace, j);
    RunKeepsQueue(c.policy, c.frames, [], a);
    RunSplit(c.policy, c.frames, [], a, b);
    Conservative(c.policy, c.frames, Run(c.policy, c.frames, a), b);
  }

  lemma FaultsOfPolicy(c: Config, trace: seq<Reference>)
    ensures FaultsReported(c, trace, |trace|) == Faults(c.policy, c.frames, PagesAccessed(trace))
  {
    assert trace[..|trace|] == trace;
    RunsThePolicy(c, trace, |trace|);
  }

  /** The page faults reported, under either policy, against any rival for the same accesses. */
  lemma ReportedCompetitive(c: Config, h: nat, trace: seq<Reference>, held: seq<set<Page>>)
    requires 0 < h <= c.frames && Rival(h, PagesAccessed(trace), held)
    ensures FaultsReported(c, trace, |trace|) * (c.frames - h + 1)
         <= c.frames * RivalLoads(held, 0, |PagesAccessed(trace)|) + c.frames * (c.frames - h)
  {
    FaultsOfPolicy(c, trace);
    hide *;
    Competitive(c.policy, c.frames, h, PagesAccessed(trace), held);
  }

  /** With equally many frames: at most m times the faults of any policy that loads on demand. */
  lemma ReportedCompetitiveFaults(c: Config, trace: seq<Reference>, held: seq<set<Page>>)
    requires Rival(c.frames, PagesAccessed(trace), held) && OnDemand(PagesAccessed(trace), held)
    ensures FaultsReported(c, trace, |trace|)
         <= c.frames * RivalFaults(PagesAccessed(trace), held, |PagesAccessed(trace)|)
  {
    FaultsOfPolicy(c, trace);
    CompetitiveFaults(c.policy, c.frames, PagesAccessed(trace), held);
  }
}
