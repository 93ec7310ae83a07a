/** When do more frames never mean more page faults under FIFO? Exactly when there are no more of them at
    all, or at least twice as many less one. */
module AddingFrames {
  import opened Collections
  import opened Addresses
  import opened ReplacementPolicies
  import opened PagingModel
  import opened ScanSentinel
  import opened PagingTheorems

  // ---------- Twice as many frames are safe ----------

  /** The loads l of the larger memory, entered in the books of the smaller one with loads s: load j happens
      while the smaller memory holds the page by its own load home[j], after made[j] loads of its own; and no
      two loads have the same home. */
  ghost predicate Ledger(m: nat, s: seq<Page>, l: seq<Page>, home: seq<nat>, made: seq<nat>) {
    && |home| == |made| == |l|
    && (forall j :: 0 <= j < |l| ==> home[j] < made[j] <= |s| && made[j] <= home[j] + m && s[home[j]] == l[j])
    && (forall i, j :: 0 <= i < j < |l| ==> made[i] <= made[j])
    && NoDup(home)
  }

  lemma LedgerBound(m: nat, s: seq<Page>, l: seq<Page>, home: seq<nat>, made: seq<nat>)
    requires Ledger(m, s, l, home, made)
    ensures |l| <= |s|
  {
    forall x | x in home ensures 0 <= x < |s| {
      var j :| 0 <= j < |home| && home[j] == x;
    }
    NoDupInRange(home, 0, |s|);
  }

  lemma LedgerGrows(m: nat, s: seq<Page>, s': seq<Page>, l: seq<Page>, home: seq<nat>, made: seq<nat>)
    requires Ledger(m, s, l, home, made) && s <= s'
    ensures Ledger(m, s', l, home, made)
  {
  }

  /** A page that the larger memory has dropped was loaded there for the last time under another home: since
      then it made at least 2 m - 1 loads, and that many different homes did not exist in the meantime. */
  lemma NewHome(m: nat, m': nat, s: seq<Page>, l: seq<Page>, home: seq<nat>, made: seq<nat>, k: nat)
    requires 0 < m && 2 * m - 1 <= m' && Ledger(m, s, l, home, made)
    requires k < |s| <= k + m && s[k] !in l[|l| - Min(|l|, m')..]
    ensures k !in home
  {
    if k in home {
      var j :| 0 <= j < |home| && home[j] == k;
      var first := |l| - Min(|l|, m');
      forall i | first <= i < |l| ensures l[i] in l[first..] { assert l[first..][i - first] == l[i]; }
      forall x | x in home[j..] ensures k + 1 - m <= x < k + m {
        var i :| j <= i < |home| && home[i] == x;
        assert i > j ==> made[j] <= made[i];
      }
      NoDupInRange(home[j..], k + 1 - m, k + m);
    }
  }

  lemma RunIsQueue(m: nat, t: seq<Page>)
    requires m > 0
    ensures Queue(m, Run(Fifo, m, t))
  {
    RunKeepsQueue(Fifo, m, [], t);
  }

  // A page just used is held by one of the last m loads.
  lemma HeldBy(m: nat, t: seq<Page>, p: Page) returns (k: nat)
    requires m > 0
    ensures var s := Loads(Fifo, m, [], t + [p]); k < |s| <= k + m && s[k] == p
  {
    hide Loads, Run, Step;
    var s := Loads(Fifo, m, [], t + [p]);
    RunIsQueue(m, t);
    OneMore(Fifo, m, t, p);
    StepQueue(Fifo, m, Run(Fifo, m, t), p);
    LastLoads(m, t + [p]);
    var i :| 0 <= i < Min(|s|, m) && s[|s| - Min(|s|, m)..][i] == p;
    k := |s| - Min(|s|, m) + i;
  }

  lemma {:induction false} KeepsLedger(m: nat, m': nat, t: seq<Page>) returns (home: seq<nat>, made: seq<nat>)
    requires 0 < m && 2 * m - 1 <= m'
    ensures Ledger(m, Loads(Fifo, m, [], t), Loads(Fifo, m', [], t), home, made)
  {
    if t == [] {
      home, made := [], [];
    } else {
      hide Loads, Ledger;
      var n := |t| - 1;
      home, made := KeepsLedger(m, m', t[..n]);
      assert t == t[..n] + [t[n]];
      home, made := LedgerStep(m, m', t[..n], t[n], home, made);
    }
  }

  lemma LedgerStep(m: nat, m': nat, t: seq<Page>, p: Page, home: seq<nat>, made: seq<nat>)
      returns (home': seq<nat>, made': seq<nat>)
    requires 0 < m && 2 * m - 1 <= m'
    requires Ledger(m, Loads(Fifo, m, [], t), Loads(Fifo, m', [], t), home, made)
    ensures Ledger(m, Loads(Fifo, m, [], t + [p]), Loads(Fifo, m', [], t + [p]), home', made')
  {
    hide Loads, Run;
    var s, l := Loads(Fifo, m, [], t + [p]), Loads(Fifo, m', [], t);
    OneMore(Fifo, m, t, p);
    OneMore(Fifo, m', t, p);
    LedgerGrows(m, Loads(Fifo, m, [], t), s, l, home, made);
    if p in Run(Fifo, m', t) {
      home', made' := home, made;
    } else {
      var k := HeldBy(m, t, p);
      LastLoads(m', t);
      NewHome(m, m', s, l, home, made, k);
      home', made' := home + [k], made + [|s|];
    }
  }

  lemma LastLoads(m: nat, t: seq<Page>)
    requires m > 0
    ensures var l := Loads(Fifo, m, [], t); Run(Fifo, m, t) == l[|l| - Min(|l|, m)..]
  {
    FifoStretch(m, [], t);
    assert [] + Loads(Fifo, m, [], t) == Loads(Fifo, m, [], t);
  }

  /** With at least 2 m - 1 frames FIFO never faults more often than with m. */
  lemma TwiceIsSafe(m: nat, m': nat, t: seq<Page>)
    requires 0 < m && 2 * m - 1 <= m'
    ensures Faults(Fifo, m', t) <= Faults(Fifo, m, t)
  {
    var home, made := KeepsLedger(m, m', t);
    LedgerBound(m, Loads(Fifo, m, [], t), Loads(Fifo, m', [], t), home, made);
  }

  // ---------- Fewer are not ----------

  lemma {:induction false} FifoHits(m: nat, q: seq<Page>, s: seq<Page>)
    requires m > 0 && forall p :: p in s ==> p in q
    ensures RunFrom(Fifo, m, q, s) == q && Loads(Fifo, m, q, s) == []
  {
    if s != [] {
      FifoHits(m, q, s[..|s| - 1]);
    }
  }

  lemma FifoLoad(m: nat, q: seq<Page>, s: seq<Page>, p: Page)
    requires m > 0 && |RunFrom(Fifo, m, q, s)| == m && p !in RunFrom(Fifo, m, q, s)
    ensures Loads(Fifo, m, q, s + [p]) == Loads(Fifo, m, q, s) + [p]
    ensures RunFrom(Fifo, m, q, s + [p]) == RunFrom(Fifo, m, q, s)[1..] + [p]
  {
    assert (s + [p])[..|s|] == s;
  }

  // A full queue through which all pages of s pass: each is gone when it comes again.
  ghost predicate Passing(m: nat, q: seq<Page>, s: seq<Page>) {
    |q| == m > 0 && forall i :: 0 <= i < |s| ==> s[i] !in (q + s)[i..i + m]
  }

  lemma PassingPrefix(m: nat, q: seq<Page>, s: seq<Page>)
    requires Passing(m, q, s) && s != []
    ensures var n := |s| - 1;
            && Passing(m, q, s[..n]) && s[n] !in (q + s[..n])[n..]
            && (q + s)[n + 1..] == (q + s[..n])[n..][1..] + [s[n]]
  {
    var n := |s| - 1;
    forall i | 0 <= i < n ensures s[..n][i] !in (q + s[..n])[i..i + m] {
      assert (q + s[..n])[i..i + m] == (q + s)[i..i + m];
    }
    assert (q + s[..n])[n..] == (q + s)[n..n + m];
  }

  lemma {:induction false} FifoPasses(m: nat, q: seq<Page>, s: seq<Page>)
    requires Passing(m, q, s)
    ensures Loads(Fifo, m, q, s) == s && RunFrom(Fifo, m, q, s) == (q + s)[|s|..]
  {
    hide RunFrom, Loads;
    if s == [] {
      NothingPasses(m, q);
    } else {
      PassingPrefix(m, q, s);
      FifoPasses(m, q, s[..|s| - 1]);
      FifoLoad(m, q, s[..|s| - 1], s[|s| - 1]);
      assert s == s[..|s| - 1] + [s[|s| - 1]];
    }
  }

  lemma NothingPasses(m: nat, q: seq<Page>)
    requires m > 0
    ensures Loads(Fifo, m, q, []) == [] && RunFrom(Fifo, m, q, []) == (q + [])[0..]
  {
  }

  /** All but the last of the pages ps; the first m - 1 again; the last; the first m - 1 once more, the others,
      and the last again. */
  function AnomalyTrace(ps: seq<Page>, m: nat): seq<Page>
    requires 0 < m < |ps|
  {
    Warmup(ps, m) + (ps[..m - 1] + ps[m - 1..|ps| - 1] + [ps[|ps| - 1]])
  }

  function Warmup(ps: seq<Page>, m: nat): seq<Page>
    requires 0 < m < |ps|
  {
    ps[..|ps| - 1] + (ps[..m - 1] + [ps[|ps| - 1]])
  }

  // A run continued: queue and number of faults.
  lemma Continue(m: nat, q: seq<Page>, a: seq<Page>, b: seq<Page>, q': seq<Page>)
    requires m > 0 && q' == RunFrom(Fifo, m, q, a)
    ensures RunFrom(Fifo, m, q, a + b) == RunFrom(Fifo, m, q', b)
    ensures |Loads(Fifo, m, q, a + b)| == |Loads(Fifo, m, q, a)| + |Loads(Fifo, m, q', b)|
  {
    RunSplit(Fifo, m, q, a, b);
  }

  // The first pass, from empty memory.
  lemma FirstPass(m: nat, s: seq<Page>)
    requires 0 < m <= |s| && NoDup(s)
    ensures |Loads(Fifo, m, [], s)| == |s| && RunFrom(Fifo, m, [], s) == s[|s| - m..]
  {
    hide Loads, RunFrom;
    LastLoads(m, s);
    FreshLoads(m, [], s);
  }

  lemma WarmupPasses(ps: seq<Page>, m: nat)
    requires NoDup(ps) && 0 < m < |ps| - 1
    ensures var n := |ps| - 1; Passing(m, ps[n - m..n], ps[..m - 1] + [ps[n]])
  {
    var n := |ps| - 1;
    var q, s := ps[n - m..n], ps[..m - 1] + [ps[n]];
    forall i | 0 <= i < |s| ensures s[i] !in (q + s)[i..i + m] {
      forall k | i <= k < i + m ensures (q + s)[k] != s[i] {
        assert (q + s)[k] == if k < m then ps[n - m + k] else ps[k - m];
      }
    }
  }

  lemma SmallWarmup(ps: seq<Page>, m: nat)
    requires NoDup(ps) && 0 < m < |ps| - 1
    ensures var n, w := |ps| - 1, Warmup(ps, m);
            RunFrom(Fifo, m, [], w) == ps[..m - 1] + [ps[n]] && |Loads(Fifo, m, [], w)| == n + m
  {
    hide Loads, RunFrom, Passing;
    var n := |ps| - 1;
    var q, s := ps[n - m..n], ps[..m - 1] + [ps[n]];
    FirstPass(m, ps[..n]);
    assert ps[..n][n - m..] == q;
    WarmupPasses(ps, m);
    FifoPasses(m, q, s);
    assert (q + s)[|s|..] == s;
    Continue(m, [], ps[..n], s, q);
  }

  // Hits, new pages that leave the last one of the queue in place, and that one.
  lemma EndFaults(m: nat, q: seq<Page>, a: seq<Page>, b: seq<Page>, p: Page)
    requires Queue(m, q) && |q| == m > |b| && q[m - 1] == p
    requires (forall x :: x in a ==> x in q) && NoDup(b) && Disjoint(b, q)
    ensures |Loads(Fifo, m, q, a + b + [p])| == |b|
  {
    hide Loads, RunFrom;
    FifoHits(m, q, a);
    FreshLoads(m, q, b);
    FifoStretch(m, q, b);
    var q' := RunFrom(Fifo, m, q, b);
    assert (q + b)[|b|..][m - 1 - |b|] == p;
    FifoHits(m, q', [p]);
    Continue(m, q, a, b, q);
    Continue(m, q, a + b, [p], q');
  }

  lemma SmallEnd(ps: seq<Page>, m: nat)
    requires NoDup(ps) && 0 < m < |ps| - 1 < 2 * m - 1
    ensures var n := |ps| - 1;
            |Loads(Fifo, m, ps[..m - 1] + [ps[n]], ps[..m - 1] + ps[m - 1..n] + [ps[n]])| == n - m + 1
  {
    hide Loads;
    var n := |ps| - 1;
    EndFaults(m, ps[..m - 1] + [ps[n]], ps[..m - 1], ps[m - 1..n], ps[n]);
  }

  /** With m frames the trace faults 2 n + 1 times, where n + 1 is the number of pages. */
  lemma SmallFaults(ps: seq<Page>, m: nat)
    requires NoDup(ps) && 0 < m < |ps| - 1 < 2 * m - 1
    ensures Faults(Fifo, m, AnomalyTrace(ps, m)) == 2 * |ps| - 1
  {
    var n := |ps| - 1;
    SmallWarmup(ps, m);
    SmallEnd(ps, m);
    Continue(m, [], Warmup(ps, m), ps[..m - 1] + ps[m - 1..n] + [ps[n]], ps[..m - 1] + [ps[n]]);
  }

  // With n frames, the last page and all pages once more pass through the queue.
  lemma LargeEnd(ps: seq<Page>)
    requires NoDup(ps) && |ps| > 1
    ensures var n := |ps| - 1;
            |Loads(Fifo, n, ps[..n], [ps[n]] + ps[..n] + [ps[n]])| == n + 2
  {
    var n := |ps| - 1;
    LargePasses(ps);
    hide Passing;
    FifoPasses(n, ps[..n], [ps[n]] + ps[..n] + [ps[n]]);
  }

  lemma LargePasses(ps: seq<Page>)
    requires NoDup(ps) && |ps| > 1
    ensures var n := |ps| - 1; Passing(n, ps[..n], [ps[n]] + ps[..n] + [ps[n]])
  {
    var n := |ps| - 1;
    var q, s := ps[..n], [ps[n]] + ps[..n] + [ps[n]];
    forall i | 0 <= i < |s| ensures s[i] !in (q + s)[i..i + n] {
      assert s[i] == if i == 0 || i == n + 1 then ps[n] else ps[i - 1];
      forall k | i <= k < i + n ensures (q + s)[k] != s[i] {
        assert (q + s)[k] == if k <= n then ps[k] else ps[k - n - 1];
      }
    }
  }

  /** With n frames it faults 2 n + 2 times. */
  lemma LargeFaults(ps: seq<Page>, m: nat)
    requires NoDup(ps) && 0 < m < |ps| - 1
    ensures Faults(Fifo, |ps| - 1, AnomalyTrace(ps, m)) == 2 * |ps|
  {
    var n := |ps| - 1;
    var all, first, last := ps[..n], ps[..m - 1], [ps[n]];
    hide Loads, RunFrom, AnomalyTrace, NoDup;
    LargeWarmup(ps, m);
    LargeEnd(ps);
    Continue(n, [], all + first, last + all + last, all);
    LargeOrder(ps, m);
  }

  lemma LargeWarmup(ps: seq<Page>, m: nat)
    requires NoDup(ps) && 0 < m < |ps| - 1
    ensures var n, all := |ps| - 1, ps[..|ps| - 1];
            RunFrom(Fifo, n, [], all + ps[..m - 1]) == all && |Loads(Fifo, n, [], all + ps[..m - 1])| == n
  {
    hide Loads, RunFrom;
    var n, all, first := |ps| - 1, ps[..|ps| - 1], ps[..m - 1];
    FirstPass(n, all);
    assert all[n - n..] == all;
    forall p | p in first ensures p in all {
      var k :| 0 <= k < |first| && first[k] == p;
      assert all[k] == p;
    }
    FifoHits(n, all, first);
    Continue(n, [], all, first, all);
  }

  lemma LargeOrder(ps: seq<Page>, m: nat)
    requires 0 < m < |ps| - 1
    ensures var all, last := ps[..|ps| - 1], [ps[|ps| - 1]];
            AnomalyTrace(ps, m) == all + ps[..m - 1] + (last + all + last)
  {
    assert ps[..m - 1] + ps[m - 1..|ps| - 1] == ps[..|ps| - 1];
  }

  // ---------- The exact condition ----------

  // The frame counts for which FIFO keeps the promise.
  predicate Safe(m: nat, m': nat) { m' == m || m' >= 2 * m - 1 }

  // The first n pages.
  function FirstPages(n: nat): (ps: seq<Page>)
    requires n <= PAGE_TABLE_LENGTH
    ensures |ps| == n && NoDup(ps)
  {
    seq(n, k requires 0 <= k < n => Page(0, k))
  }

  lemma SomeTraceFaultsMore(m: FrameCount, m': FrameCount) returns (t: seq<Page>)
    requires m <= m' && !Safe(m, m')
    ensures t == AnomalyTrace(FirstPages(m' + 1), m)
    ensures Faults(Fifo, m', t) == Faults(Fifo, m, t) + 1
  {
    var ps := FirstPages(m' + 1);
    t := AnomalyTrace(ps, m);
    SmallFaults(ps, m);
    LargeFaults(ps, m);
  }

  /** More frames never mean more FIFO faults, on any trace, if and only if the frame counts are equal or the
      larger one is at least twice the smaller one less one. */
  lemma FifoMonotoneIff(m: FrameCount, m': FrameCount)
    requires m <= m'
    ensures (forall t: seq<Page> :: Faults(Fifo, m', t) <= Faults(Fifo, m, t)) <==> Safe(m, m')
  {
    hide Faults;
    if Safe(m, m') {
      forall t: seq<Page> ensures Faults(Fifo, m', t) <= Faults(Fifo, m, t) {
        if m' != m {
          TwiceIsSafe(m, m', t);
        }
      }
    } else {
      var t := SomeTraceFaultsMore(m, m');
    }
  }

  // ---------- The same of what the simulator reports ----------

  // On every input on which both runs go through, m' frames report no more faults than m.
  ghost predicate NeverReportsMore(m: FrameCount, m': FrameCount) {
    forall regions: seq<Region>, addresses: seq<bv32> ::
      var refs := References(regions, addresses);
      RunsToTheEnd(Config(Fifo, m), refs) && RunsToTheEnd(Config(Fifo, m'), refs) ==>
        FaultsReported(Config(Fifo, m'), refs, |refs|) <= FaultsReported(Config(Fifo, m), refs, |refs|)
  }

  // A trace of pages (0, k), made of addresses.
  lemma Realise(t: seq<Page>) returns (addresses: seq<bv32>)
    requires forall p :: p in t ==> p.outer == 0
    ensures |References([LOW_REGION], addresses)| == |t| && PagesAccessed(References([LOW_REGION], addresses)) == t
  {
    var ks := seq(|t|, i requires 0 <= i < |t| => t[i].inner);
    addresses := seq(|ks|, i requires 0 <= i < |ks| => AddressOf(ks[i]));
    assert References([LOW_REGION], addresses) == LowRun(ks);
    hide LowRun, References, PagesAccessed;
    LowRunPages(ks, 0, |ks|);
    assert LowRun(ks)[0..|ks|] == LowRun(ks);
  }

  lemma AnomalyTraceOf(ps: seq<Page>, m: nat)
    requires 0 < m < |ps| - 1
    ensures |AnomalyTrace(ps, m)| == 2 * |ps| + m - 1
    ensures forall p :: p in AnomalyTrace(ps, m) ==> p in ps
  {
  }

  /** With fewer frames than that, addresses exist on which both runs go through, and the one with more frames
      reports more faults. */
  lemma SomeRunReportsMore(m: FrameCount, m': FrameCount) returns (addresses: seq<bv32>)
    requires m <= m' && !Safe(m, m')
    ensures var refs := References([LOW_REGION], addresses);
            && RunsToTheEnd(Config(Fifo, m), refs) && RunsToTheEnd(Config(Fifo, m'), refs)
            && FaultsReported(Config(Fifo, m'), refs, |refs|) == FaultsReported(Config(Fifo, m), refs, |refs|) + 1
  {
    hide AnomalyTrace, References, RunsToTheEnd, Faults, FaultsReported, PagesAccessed;
    var t := SomeTraceFaultsMore(m, m');
    AnomalyTraceOf(FirstPages(m' + 1), m);
    addresses := Realise(t);
    var refs := References([LOW_REGION], addresses);
    ShortRunsEnd(Config(Fifo, m), refs);
    ShortRunsEnd(Config(Fifo, m'), refs);
    FaultsOfPolicy(Config(Fifo, m), refs);
    FaultsOfPolicy(Config(Fifo, m'), refs);
  }

  /** The exact condition, for the reports of the simulator. */
  lemma ReportedFifoMonotoneIff(m: FrameCount, m': FrameCount)
    requires m <= m'
    ensures NeverReportsMore(m, m') <==> Safe(m, m')
  {
    hide RunsToTheEnd, FaultsReported, References, Faults;
    if !Safe(m, m') {
      var addresses := SomeRunReportsMore(m, m');
    } else if m' != m {
      forall regions: seq<Region>, addresses: seq<bv32>
        ensures var refs := References(regions, addresses);
                FaultsReported(Config(Fifo, m'), refs, |refs|) <= FaultsReported(Config(Fifo, m), refs, |refs|)
      {
        var refs := References(regions, addresses);
        FaultsOfPolicy(Config(Fifo, m), refs);
        FaultsOfPolicy(Config(Fifo, m'), refs);
        TwiceIsSafe(m, m', PagesAccessed(refs));
      }
    }
  }
}
