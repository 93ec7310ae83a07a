/** LRU and FIFO against an arbitrary rival, by phases: a phase is a longest stretch of the trace that
    touches at most m distinct pages. */
module Competitiveness {
  import opened Addresses
  import opened Collections
  import opened ReplacementPolicies
  import opened Arithmetic

  // Position at which the phase of the last access starts.
  function PhaseStart(m: nat, trace: seq<Page>): (s: nat)
    requires m > 0
    ensures s <= |trace| && (trace != [] ==> s < |trace|)
    ensures |Pages(trace[s..])| <= m
  {
    if trace == [] then 0
    else
      var n := |trace| - 1;
      var s := PhaseStart(m, trace[..n]);
      assert Pages(trace[n..]) == {trace[n]};
      if |Pages(trace[s..])| <= m then s else n
  }

  // Number of phases that ended.
  function PhasesEnded(m: nat, trace: seq<Page>): nat
    requires m > 0
  {
    if |trace| <= 1 then 0
    else
      var n := |trace| - 1;
      PhasesEnded(m, trace[..n]) + if PhaseStart(m, trace) == n then 1 else 0
  }

  lemma PhaseStep(m: nat, trace: seq<Page>, n: nat)
    requires m > 0 && 1 < n <= |trace|
    ensures var s, c := PhaseStart(m, trace[..n - 1]), PhasesEnded(m, trace[..n - 1]);
            s < n &&
            if |Pages(trace[s..n])| <= m
            then PhaseStart(m, trace[..n]) == s && PhasesEnded(m, trace[..n]) == c
            else PhaseStart(m, trace[..n]) == n - 1 && PhasesEnded(m, trace[..n]) == c + 1
  {
    assert trace[..n][..n - 1] == trace[..n - 1];
    assert trace[..n][PhaseStart(m, trace[..n - 1])..] == trace[PhaseStart(m, trace[..n - 1])..n];
  }

  function Times(c: nat, d: nat): nat {
    if c == 0 then 0 else Times(c - 1, d) + d
  }

  lemma {:induction false} TimesIsProduct(c: nat, d: nat)
    ensures Times(c, d) == c * d
  {
    if c > 0 {
      TimesIsProduct(c - 1, d);
      assert c * d == (c - 1) * d + d;
    }
  }

  // ---------- At most m faults a phase ----------

  lemma {:induction false} FaultsBeforePhase(pol: Policy, m: nat, trace: seq<Page>)
    requires m > 0
    ensures Faults(pol, m, trace[..PhaseStart(m, trace)]) <= Times(PhasesEnded(m, trace), m)
  {
    if |trace| > 1 {
      var n := |trace| - 1;
      var s := PhaseStart(m, trace[..n]);
      FaultsBeforePhase(pol, m, trace[..n]);
      assert trace[..n][..s] == trace[..s];
      if PhaseStart(m, trace) == n {
        FaultsThroughPhase(pol, m, trace[..n]);
      }
    }
  }

  lemma FaultsThroughPhase(pol: Policy, m: nat, trace: seq<Page>)
    requires m > 0
    ensures Faults(pol, m, trace) <= Faults(pol, m, trace[..PhaseStart(m, trace)]) + m
  {
    var s := PhaseStart(m, trace);
    assert trace == trace[..s] + trace[s..];
    RunKeepsQueue(pol, m, [], trace[..s]);
    RunSplit(pol, m, [], trace[..s], trace[s..]);
    Conservative(pol, m, Run(pol, m, trace[..s]), trace[s..]);
  }

  // ---------- Rivals ----------

  /** The page sets a rival keeps, one before every access and one after the last. It starts empty,
      holds every accessed page at the access, and never holds more than h. It may know the future,
      evict whenever it likes, and load pages that were not asked for. */
  ghost predicate Rival(h: nat, trace: seq<Page>, held: seq<set<Page>>) {
    && |held| == |trace| + 1
    && held[0] == {}
    && forall i :: 0 <= i < |trace| ==> trace[i] in held[i + 1] && |held[i + 1]| <= h
  }

  // Pages the rival loads during accesses from to upto - 1.
  function RivalLoads(held: seq<set<Page>>, from: nat, upto: nat): nat
    requires from <= upto < |held|
  {
    if from == upto then 0 else RivalLoads(held, from, upto - 1) + |held[upto] - held[upto - 1]|
  }

  // A rival that loads a page only when it is asked for.
  ghost predicate OnDemand(trace: seq<Page>, held: seq<set<Page>>)
    requires |held| == |trace| + 1
  {
    forall i :: 0 <= i < |trace| ==> held[i + 1] <= held[i] + {trace[i]}
  }

  function RivalFaults(trace: seq<Page>, held: seq<set<Page>>, upto: nat): nat
    requires upto < |held| <= |trace| + 1
  {
    if upto == 0 then 0
    else RivalFaults(trace, held, upto - 1) + if trace[upto - 1] in held[upto - 1] then 0 else 1
  }

  /** For a rival that loads on demand, loads are page faults. */
  lemma {:induction false} LoadsAreFaults(h: nat, trace: seq<Page>, held: seq<set<Page>>, upto: nat)
    requires Rival(h, trace, held) && OnDemand(trace, held) && upto <= |trace|
    ensures RivalLoads(held, 0, upto) == RivalFaults(trace, held, upto)
  {
    if upto > 0 {
      LoadsAreFaults(h, trace, held, upto - 1);
      var p := trace[upto - 1];
      assert held[upto] - held[upto - 1] == if p in held[upto - 1] then {} else {p};
    }
  }

  lemma {:induction false} LoadsSplit(held: seq<set<Page>>, from: nat, mid: nat, upto: nat)
    requires from <= mid <= upto < |held|
    ensures RivalLoads(held, from, upto) == RivalLoads(held, from, mid) + RivalLoads(held, mid, upto)
  {
    if mid < upto {
      LoadsSplit(held, from, mid, upto - 1);
    }
  }

  // What the rival holds at the end it held at the start or loaded on the way.
  lemma {:induction false} LoadsCover(h: nat, trace: seq<Page>, held: seq<set<Page>>, from: nat, upto: nat)
      returns (loaded: set<Page>)
    requires Rival(h, trace, held) && from <= upto <= |trace|
    ensures |loaded| <= RivalLoads(held, from, upto)
    ensures held[upto] <= held[from] + loaded
    ensures Pages(trace[from..upto]) <= held[from] + loaded
  {
    if from == upto {
      loaded := {};
      assert trace[from..upto] == [];
    } else {
      var before := LoadsCover(h, trace, held, from, upto - 1);
      loaded := before + (held[upto] - held[upto - 1]);
      assert trace[from..upto] == trace[from..upto - 1] + [trace[upto - 1]];
      assert Pages(trace[from..upto]) == Pages(trace[from..upto - 1]) + {trace[upto - 1]};
      assert trace[upto - 1] in held[upto];
      assert held[upto] <= held[upto - 1] + (held[upto] - held[upto - 1]);
    }
  }

  // ---------- At least m - h + 1 rival loads a phase ----------

  lemma {:induction false} RivalPerPhase(m: nat, h: nat, trace: seq<Page>, held: seq<set<Page>>, n: nat)
    requires 0 < h <= m && Rival(h, trace, held) && 0 < n <= |trace|
    ensures RivalLoads(held, 0, PhaseStart(m, trace[..n]) + 1) >= 1 + Times(PhasesEnded(m, trace[..n]), m - h + 1)
  {
    hide Pages;
    if n == 1 {
      FirstLoad(h, trace, held);
    } else {
      hide *;
      RivalPerPhase(m, h, trace, held, n - 1);
      RivalStep(m, h, trace, held, n);
    }
  }

  lemma RivalStep(m: nat, h: nat, trace: seq<Page>, held: seq<set<Page>>, n: nat)
    requires 0 < h <= m && Rival(h, trace, held) && 1 < n <= |trace|
    requires RivalLoads(held, 0, PhaseStart(m, trace[..n - 1]) + 1)
          >= 1 + Times(PhasesEnded(m, trace[..n - 1]), m - h + 1)
    ensures RivalLoads(held, 0, PhaseStart(m, trace[..n]) + 1) >= 1 + Times(PhasesEnded(m, trace[..n]), m - h + 1)
  {
    hide Pages, PhaseStart, PhasesEnded, Times;
    PhaseStep(m, trace, n);
    var s := PhaseStart(m, trace[..n - 1]);
    if |Pages(trace[s..n])| > m {
      PhaseCosts(m, h, trace, held, s, n, PhasesEnded(m, trace[..n - 1]));
    }
  }

  lemma FirstLoad(h: nat, trace: seq<Page>, held: seq<set<Page>>)
    requires Rival(h, trace, held) && trace != []
    ensures RivalLoads(held, 0, 1) >= 1
  {
    assert trace[0] in held[1] - held[0];
    assert RivalLoads(held, 0, 1) == RivalLoads(held, 0, 0) + |held[1] - held[0]|;
  }

  // From just after the first access of a phase to the first access of the next one.
  lemma PhaseCosts(m: nat, h: nat, trace: seq<Page>, held: seq<set<Page>>, s: nat, n: nat, c: nat)
    requires 0 < h <= m && Rival(h, trace, held) && s < n <= |trace|
    requires |Pages(trace[s..n])| > m
    requires RivalLoads(held, 0, s + 1) >= 1 + Times(c, m - h + 1)
    ensures RivalLoads(held, 0, n) >= 1 + Times(c + 1, m - h + 1)
  {
    var loaded := LoadsCover(h, trace, held, s + 1, n);
    assert trace[s..n] == [trace[s]] + trace[s + 1..n];
    assert trace[s] in held[s + 1];
    assert Pages(trace[s..n]) <= held[s + 1] + loaded;
    SubsetCount(Pages(trace[s..n]), held[s + 1] + loaded);
    assert |held[s + 1] + loaded| <= |held[s + 1]| + |loaded|;
    LoadsSplit(held, 0, s + 1, n);
  }

  // ---------- The bounds ----------

  /** With m frames, LRU and FIFO cost at most m / (m - h + 1) times what any rival with h frames pays,
      up to a constant that vanishes for h == m. */
  lemma Competitive(pol: Policy, m: nat, h: nat, trace: seq<Page>, held: seq<set<Page>>)
    requires 0 < h <= m && Rival(h, trace, held)
    ensures Faults(pol, m, trace) * (m - h + 1) <= m * RivalLoads(held, 0, |trace|) + m * (m - h)
  {
    if trace != [] {
      hide Pages, PhaseStart, PhasesEnded, Times, Faults, Rival, RivalLoads;
      var loads := LoadsInAll(m, h, trace, held);
      FaultsBeforePhase(pol, m, trace);
      FaultsThroughPhase(pol, m, trace);
      Combine(Faults(pol, m, trace), loads, m, PhasesEnded(m, trace), m - h + 1);
    }
  }

  lemma LoadsInAll(m: nat, h: nat, trace: seq<Page>, held: seq<set<Page>>) returns (loads: nat)
    requires 0 < h <= m && Rival(h, trace, held) && trace != []
    ensures loads == RivalLoads(held, 0, |trace|) >= 1 + Times(PhasesEnded(m, trace), m - h + 1)
  {
    hide Pages, PhasesEnded, Times, RivalLoads;
    loads := RivalLoads(held, 0, |trace|);
    assert trace[..|trace|] == trace;
    RivalPerPhase(m, h, trace, held, |trace|);
    LoadsSplit(held, 0, PhaseStart(m, trace) + 1, |trace|);
  }

  lemma Combine(faults: nat, loads: nat, m: nat, c: nat, d: nat)
    requires d >= 1 && faults <= Times(c, m) + m && loads >= 1 + Times(c, d)
    ensures faults * d <= m * loads + m * (d - 1)
  {
    TimesIsProduct(c, m);
    TimesIsProduct(c, d);
    MulLe(faults, c * m + m, d);
    MulLe(1 + c * d, loads, m);
    MulSwap(c, m, d);
    Distribute(c * m, m, d);
    Distribute(1, c * d, m);
    Distribute(d, -1, m);
  }

  /** With equally many frames: at most m times the faults of any policy that loads on demand. */
  lemma CompetitiveFaults(pol: Policy, m: nat, trace: seq<Page>, held: seq<set<Page>>)
    requires 0 < m && Rival(m, trace, held) && OnDemand(trace, held)
    ensures Faults(pol, m, trace) <= m * RivalFaults(trace, held, |trace|)
  {
    Competitive(pol, m, m, trace, held);
    LoadsAreFaults(m, trace, held, |trace|);
  }
}
