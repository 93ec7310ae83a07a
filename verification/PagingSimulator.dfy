/** The simulator itself: a two-level page table, a frame table, full-table victim scans by time stamp,
    and the loop over the trace, all updated in place. */
module PagingSimulator {
  import opened Addresses
  import opened Collections
  import opened ReplacementPolicies
  import opened PagingModel
  import opened PagingReports
  import opened ScanSentinel

  const MAX_FRAME_COUNT: nat := 1000

  datatype PageEntry = PageEntry(frame: int, valid: bool, pageInTime: int, lastUsedTime: int)

  function Stamp(pol: Policy, e: PageEntry): int { if pol == Lru then e.lastUsedTime else e.pageInTime }

  // ---------- The tables and the memory they stand for ----------

  ghost predicate Shaped(frames: array<bool>, table: array2<PageEntry>) {
    frames.Length == MAX_FRAME_COUNT && table.Length0 == table.Length1 == PAGE_TABLE_LENGTH
  }

  ghost predicate FramesMatch(frames: array<bool>, mem: Memory)
    reads frames
  {
    forall f :: 0 <= f < frames.Length ==> (frames[f] <==> f < |mem.order|)
  }

  ghost predicate TableMatches(pol: Policy, table: array2<PageEntry>, mem: Memory)
    requires table.Length0 == table.Length1 == PAGE_TABLE_LENGTH
    reads table
  {
    forall i, j :: 0 <= i < PAGE_TABLE_LENGTH && 0 <= j < PAGE_TABLE_LENGTH ==>
      var p := Page(i, j);
      && (table[i, j].valid <==> p in mem.frame)
      && (p in mem.frame ==>
            p in mem.stamp && table[i, j].frame == mem.frame[p] && Stamp(pol, table[i, j]) == mem.stamp[p])
  }

  // used says when every valid page was last used; that was not before it was paged in.
  ghost predicate TimesMatch(table: array2<PageEntry>, used: map<Page, nat>)
    requires table.Length0 == table.Length1 == PAGE_TABLE_LENGTH
    reads table
  {
    forall i, j :: 0 <= i < PAGE_TABLE_LENGTH && 0 <= j < PAGE_TABLE_LENGTH && table[i, j].valid ==>
      var p := Page(i, j);
      p in used && table[i, j].lastUsedTime == used[p] && table[i, j].pageInTime <= table[i, j].lastUsedTime
  }

  ghost predicate Represents(c: Config, frames: array<bool>, table: array2<PageEntry>, mem: Memory)
    reads frames, table
  {
    Shaped(frames, table) && FramesMatch(frames, mem) && TableMatches(c.policy, table, mem)
  }

  method InitFrameTable() returns (frames: array<bool>)
    ensures fresh(frames) && frames.Length == MAX_FRAME_COUNT && FramesMatch(frames, EMPTY)
  {
    frames := new bool[MAX_FRAME_COUNT];
    for i := 0 to MAX_FRAME_COUNT
      invariant forall f :: 0 <= f < i ==> !frames[f]
    {
      frames[i] := false;
    }
  }

  method InitOuterPageTable(pol: Policy) returns (table: array2<PageEntry>)
    ensures fresh(table) && table.Length0 == table.Length1 == PAGE_TABLE_LENGTH
    ensures TableMatches(pol, table, EMPTY) && TimesMatch(table, map[])
  {
    var unused := PageEntry(-1, false, -1, -1);
    table := new PageEntry[PAGE_TABLE_LENGTH, PAGE_TABLE_LENGTH]((i, j) => unused);
    for i := 0 to PAGE_TABLE_LENGTH
      invariant forall k, l :: 0 <= k < i && 0 <= l < PAGE_TABLE_LENGTH ==> table[k, l] == unused
    {
      for j := 0 to PAGE_TABLE_LENGTH
        invariant forall k, l :: 0 <= k < i && 0 <= l < PAGE_TABLE_LENGTH ==> table[k, l] == unused
        invariant forall l :: 0 <= l < j ==> table[i, l] == unused
      {
        table[i, j] := unused;
      }
    }
  }

  method InitResultStore(trace: seq<bv32>) returns (results: array<PagingResult>)
    ensures fresh(results) && results.Length == |trace|
  {
    results := new PagingResult[|trace|](_ => PagingResult(0, None, -1, false, false));
  }

  // ---------- Frames and victims ----------

  /** The first free frame, or -1 when there is none among the first c.frames. */
  method FindFirstFreeFrame(c: Config, frames: array<bool>, ghost mem: Memory) returns (r: int)
    requires frames.Length == MAX_FRAME_COUNT && FramesMatch(frames, mem) && |mem.order| <= c.frames
    ensures r == if Full(c, mem) then -1 else |mem.order|
  {
    var i := 0;
    while i != c.frames
      invariant 0 <= i <= c.frames && i <= |mem.order|
    {
      if !frames[i] {
        return i;
      }
      i := i + 1;
    }
    return -1;
  }

  /** What a scan returns: a valid page with the least stamp, or nothing when no valid page has a stamp
      below the initial minimum. */
  ghost predicate Scanned(pol: Policy, table: array2<PageEntry>, r: Option<Page>)
    requires table.Length0 == table.Length1 == PAGE_TABLE_LENGTH
    reads table
  {
    match r
    case None =>
      forall i, j :: 0 <= i < PAGE_TABLE_LENGTH && 0 <= j < PAGE_TABLE_LENGTH && table[i, j].valid ==>
        Stamp(pol, table[i, j]) >= SCAN_INFINITY
    case Some(v) =>
      && table[v.outer, v.inner].valid
      && Stamp(pol, table[v.outer, v.inner]) < SCAN_INFINITY
      && forall i, j :: 0 <= i < PAGE_TABLE_LENGTH && 0 <= j < PAGE_TABLE_LENGTH && table[i, j].valid ==>
           Stamp(pol, table[v.outer, v.inner]) <= Stamp(pol, table[i, j])
  }

  method GetFifoPage(table: array2<PageEntry>) returns (minPage: Option<Page>)
    requires table.Length0 == table.Length1 == PAGE_TABLE_LENGTH
    ensures Scanned(Fifo, table, minPage)
  {
    var minPageInTime := SCAN_INFINITY;
    minPage := None;
    for i := 0 to PAGE_TABLE_LENGTH
      invariant minPage.None? ==> minPageInTime == SCAN_INFINITY
      invariant minPage.Some? ==> var v := minPage.value;
                  table[v.outer, v.inner].valid && table[v.outer, v.inner].pageInTime == minPageInTime < SCAN_INFINITY
      invariant forall k, l :: 0 <= k < i && 0 <= l < PAGE_TABLE_LENGTH && table[k, l].valid ==>
                  minPageInTime <= table[k, l].pageInTime
    {
      for j := 0 to PAGE_TABLE_LENGTH
        invariant minPage.None? ==> minPageInTime == SCAN_INFINITY
        invariant minPage.Some? ==> var v := minPage.value;
                    table[v.outer, v.inner].valid && table[v.outer, v.inner].pageInTime == minPageInTime < SCAN_INFINITY
        invariant forall k, l :: 0 <= k < i && 0 <= l < PAGE_TABLE_LENGTH && table[k, l].valid ==>
                    minPageInTime <= table[k, l].pageInTime
        invariant forall l :: 0 <= l < j && table[i, l].valid ==> minPageInTime <= table[i, l].pageInTime
      {
        var page := table[i, j];
        if minPageInTime > page.pageInTime && page.valid {
          minPageInTime := page.pageInTime;
          minPage := Some(Page(i, j));
        }
      }
    }
  }

  method GetLruPage(table: array2<PageEntry>) returns (minPage: Option<Page>)
    requires table.Length0 == table.Length1 == PAGE_TABLE_LENGTH
    ensures Scanned(Lru, table, minPage)
  {
    var minLastUsedTime := SCAN_INFINITY;
    minPage := None;
    for i := 0 to PAGE_TABLE_LENGTH
      invariant minPage.None? ==> minLastUsedTime == SCAN_INFINITY
      invariant minPage.Some? ==> var v := minPage.value;
                  table[v.outer, v.inner].valid
                  && table[v.outer, v.inner].lastUsedTime == minLastUsedTime < SCAN_INFINITY
      invariant forall k, l :: 0 <= k < i && 0 <= l < PAGE_TABLE_LENGTH && table[k, l].valid ==>
                  minLastUsedTime <= table[k, l].lastUsedTime
    {
      for j := 0 to PAGE_TABLE_LENGTH
        invariant minPage.None? ==> minLastUsedTime == SCAN_INFINITY
        invariant minPage.Some? ==> var v := minPage.value;
                    table[v.outer, v.inner].valid
                    && table[v.outer, v.inner].lastUsedTime == minLastUsedTime < SCAN_INFINITY
        invariant forall k, l :: 0 <= k < i && 0 <= l < PAGE_TABLE_LENGTH && table[k, l].valid ==>
                    minLastUsedTime <= table[k, l].lastUsedTime
        invariant forall l :: 0 <= l < j && table[i, l].valid ==> minLastUsedTime <= table[i, l].lastUsedTime
      {
        var page := table[i, j];
        if minLastUsedTime > page.lastUsedTime && page.valid {
          minLastUsedTime := page.lastUsedTime;
          minPage := Some(Page(i, j));
        }
      }
    }
  }

  // The victim: a valid page with the least stamp, or nothing when no valid page has a visible last use.
  ghost predicate Chosen(pol: Policy, table: array2<PageEntry>, r: Option<Page>)
    requires table.Length0 == table.Length1 == PAGE_TABLE_LENGTH
    reads table
  {
    match r
    case None => Scanned(Lru, table, None)
    case Some(v) => Scanned(pol, table, Some(v)) && !Scanned(Lru, table, None)
  }

  /** Both scans are made, and the frames of both pages printed, whichever policy was asked for: nothing
      is returned when either scan found nothing. */
  method GetVictimPage(pol: Policy, table: array2<PageEntry>, ghost used: map<Page, nat>) returns (r: Option<Page>)
    requires table.Length0 == table.Length1 == PAGE_TABLE_LENGTH && TimesMatch(table, used)
    ensures Chosen(pol, table, r)
  {
    var replacementFifo := GetFifoPage(table);
    var replacementLru := GetLruPage(table);
    if replacementFifo == None || replacementLru == None {
      return None;
    }
    match pol
    case Fifo => r := replacementFifo;
    case Lru => r := replacementLru;
  }

  /** The scan finds the head of the queue, unless every resident page was used too late to be seen. */
  lemma ScanFindsOldest(c: Config, mem: Memory, t: nat, table: array2<PageEntry>, used: map<Page, nat>, r: Option<Page>)
    requires table.Length0 == table.Length1 == PAGE_TABLE_LENGTH
    requires Coupled(c.frames, mem, t) && TableMatches(c.policy, table, mem) && mem.order != []
    requires TimesMatch(table, used) && Chosen(c.policy, table, r)
    ensures r == if AllHidden(mem, used) then None else Some(mem.order[0])
  {
    HiddenFromScan(c, mem, t, table, used);
    if r.Some? {
      var v, head := r.value, mem.order[0];
      assert v == Page(v.outer, v.inner) && table[v.outer, v.inner].valid;
      assert head == Page(head.outer, head.inner);
      assert head in Pages(mem.order) && v in Pages(mem.order);
      assert table[head.outer, head.inner].valid;
      var k :| 0 <= k < |mem.order| && mem.order[k] == v;
    }
  }

  lemma HiddenFromScan(c: Config, mem: Memory, t: nat, table: array2<PageEntry>, used: map<Page, nat>)
    requires table.Length0 == table.Length1 == PAGE_TABLE_LENGTH
    requires Coupled(c.frames, mem, t) && TableMatches(c.policy, table, mem) && TimesMatch(table, used)
    ensures Scanned(Lru, table, None) <==> AllHidden(mem, used)
  {
    forall i, j | 0 <= i < PAGE_TABLE_LENGTH && 0 <= j < PAGE_TABLE_LENGTH
      ensures table[i, j].valid <==> Page(i, j) in mem.order
    {
      assert Page(i, j) in mem.frame <==> Page(i, j) in Pages(mem.order);
    }
    forall q | q in mem.order
      ensures table[q.outer, q.inner].valid && q in used && table[q.outer, q.inner].lastUsedTime == used[q]
    {
      assert q == Page(q.outer, q.inner);
    }
  }

  // ---------- One access ----------

  // The memory once a frame is available: without the victim when all frames were taken.
  ghost function Evicted(c: Config, mem: Memory): Memory {
    if Full(c, mem) && mem.order != [] then
      Memory(mem.order[1..], mem.frame - {mem.order[0]}, mem.stamp - {mem.order[0]})
    else mem
  }

  // The frame that the next page is loaded into.
  ghost function NextFrame(c: Config, mem: Memory): nat {
    if Full(c, mem) && mem.order != [] && mem.order[0] in mem.frame then mem.frame[mem.order[0]] else |mem.order|
  }

  lemma LoadIsEvictThenAdd(c: Config, mem: Memory, p: Page, t: nat)
    requires Coupled(c.frames, mem, t) && p !in mem.order
    ensures var mem', left := Access(c, mem, p, t), Evicted(c, mem);
            && mem'.order == left.order + [p]
            && mem'.frame == left.frame[p := NextFrame(c, mem)]
            && mem'.stamp == left.stamp[p := t]
            && NextFrame(c, mem) < |mem'.order| <= c.frames
            && p !in left.frame
  {
    assert p !in Pages(mem.order);
    assert mem.order != [] ==> mem.order[0] in Pages(mem.order);
  }

  // A free frame, or the frame of the victim, which stops being valid.
  method TakeFrame(c: Config, frames: array<bool>, table: array2<PageEntry>, ghost mem: Memory,
                   ghost used: map<Page, nat>, ghost t: nat)
      returns (ok: bool, frame: int)
    requires Coupled(c.frames, mem, t) && Represents(c, frames, table, mem) && TimesMatch(table, used)
    modifies table
    ensures ok <==> !(Full(c, mem) && AllHidden(mem, used))
    ensures ok ==> frame == NextFrame(c, mem)
    ensures ok ==> TableMatches(c.policy, table, Evicted(c, mem)) && TimesMatch(table, used)
    ensures !ok ==>
              forall i, j :: 0 <= i < PAGE_TABLE_LENGTH && 0 <= j < PAGE_TABLE_LENGTH ==>
                table[i, j] == old(table[i, j])
  {
    hide TimesMatch, TableMatches, Chosen;
    frame := FindFirstFreeFrame(c, frames, mem);
    if frame == -1 {
      var victim := GetVictimPage(c.policy, table, used);
      ScanFindsOldest(c, mem, t, table, used, victim);
      if victim == None {
        return false, -1;
      }
      frame := Evict(c, table, victim.value, mem, used, t);
    }
    ok := true;
  }

  method Evict(c: Config, table: array2<PageEntry>, v: Page, ghost mem: Memory, ghost used: map<Page, nat>,
               ghost t: nat)
      returns (frame: int)
    requires table.Length0 == table.Length1 == PAGE_TABLE_LENGTH
    requires Coupled(c.frames, mem, t) && Full(c, mem) && mem.order != [] && v == mem.order[0]
    requires TableMatches(c.policy, table, mem) && TimesMatch(table, used)
    modifies table
    ensures frame == NextFrame(c, mem)
    ensures TableMatches(c.policy, table, Evicted(c, mem)) && TimesMatch(table, used)
  {
    assert v in Pages(mem.order);
    assert v == Page(v.outer, v.inner);
    frame := table[v.outer, v.inner].frame;
    table[v.outer, v.inner] := table[v.outer, v.inner].(valid := false);
  }

  // The fields written for a page that is loaded into a frame and then used.
  method WriteEntry(pol: Policy, table: array2<PageEntry>, p: Page, frame: nat, t: nat,
                    ghost left: Memory, ghost mem': Memory, ghost used: map<Page, nat>)
    requires table.Length0 == table.Length1 == PAGE_TABLE_LENGTH
    requires TableMatches(pol, table, left) && TimesMatch(table, used)
    requires mem'.frame == left.frame[p := frame] && mem'.stamp == left.stamp[p := t]
    modifies table
    ensures TableMatches(pol, table, mem') && TimesMatch(table, used[p := t])
    ensures table[p.outer, p.inner].frame == frame
  {
    table[p.outer, p.inner] := table[p.outer, p.inner].(frame := frame, valid := true, pageInTime := t);
    table[p.outer, p.inner] := table[p.outer, p.inner].(lastUsedTime := t);
    assert p == Page(p.outer, p.inner);
  }

  method TouchEntry(c: Config, table: array2<PageEntry>, p: Page, t: nat, ghost mem: Memory, ghost used: map<Page, nat>)
    requires table.Length0 == table.Length1 == PAGE_TABLE_LENGTH
    requires TableMatches(c.policy, table, mem) && TimesMatch(table, used) && forall q :: q in used ==> used[q] <= t
    requires Coupled(c.frames, mem, t) && p in mem.order && p in mem.frame
    modifies table
    ensures TableMatches(c.policy, table, Access(c, mem, p, t)) && TimesMatch(table, used[p := t])
    ensures table[p.outer, p.inner].frame == mem.frame[p]
  {
    HitMemory(c, mem, p, t);
    hide Access, Coupled;
    assert p == Page(p.outer, p.inner);
    table[p.outer, p.inner] := table[p.outer, p.inner].(lastUsedTime := t);
  }

  lemma HitMemory(c: Config, mem: Memory, p: Page, t: nat)
    requires Coupled(c.frames, mem, t) && p in mem.order
    ensures var mem' := Access(c, mem, p, t);
            mem'.frame == mem.frame && mem'.stamp == if c.policy == Lru then mem.stamp[p := t] else mem.stamp
  {
  }

  // A page fault on p.
  method LoadPage(c: Config, frames: array<bool>, table: array2<PageEntry>, p: Page, t: nat, ghost mem: Memory,
                  ghost used: map<Page, nat>) returns (ok: bool)
    requires Coupled(c.frames, mem, t) && Represents(c, frames, table, mem) && p !in mem.order
    requires TimesMatch(table, used)
    modifies frames, table
    ensures ok <==> !NoVictim(c, mem, used, p)
    ensures ok ==> Represents(c, frames, table, Access(c, mem, p, t)) && TimesMatch(table, used[p := t])
    ensures ok ==> table[p.outer, p.inner].frame == NextFrame(c, mem)
  {
    LoadIsEvictThenAdd(c, mem, p, t);
    var frame;
    ok, frame := TakeFrame(c, frames, table, mem, used, t);
    if ok {
      frames[frame] := true;
      WriteEntry(c.policy, table, p, frame, t, Evicted(c, mem), Access(c, mem, p, t), used);
    }
  }

  lemma SameOrderLength(c: Config, mem: Memory, p: Page)
    requires Queue(c.frames, mem.order) && p in mem.order
    ensures |Step(c.policy, c.frames, mem.order, p)| == |mem.order|
  {
    RemoveProperties(mem.order, p);
  }

  lemma ValidIsResident(c: Config, frames: array<bool>, table: array2<PageEntry>, mem: Memory, t: nat, p: Page)
    requires Coupled(c.frames, mem, t) && Represents(c, frames, table, mem)
    ensures table[p.outer, p.inner].valid <==> p in mem.order
    ensures p in mem.order <==> p in mem.frame
  {
    assert p == Page(p.outer, p.inner);
    assert p in mem.order <==> p in Pages(mem.order);
  }

  lemma FrameReported(c: Config, mem: Memory, t: nat, p: Page)
    requires Coupled(c.frames, mem, t)
    ensures p in Access(c, mem, p, t).frame
    ensures Access(c, mem, p, t).frame[p] == if p in mem.order then mem.frame[p] else NextFrame(c, mem)
  {
    assert p in mem.order <==> p in Pages(mem.order);
    if p !in mem.order {
      LoadIsEvictThenAdd(c, mem, p, t);
    }
  }

  /** One turn of the simulation loop for an access inside a region, at time t. */
  method AccessPage(c: Config, frames: array<bool>, table: array2<PageEntry>, r: Reference, t: nat, ghost mem: Memory,
                    ghost used: map<Page, nat>)
      returns (ok: bool, result: PagingResult)
    requires r.inRange && Coupled(c.frames, mem, t) && Represents(c, frames, table, mem)
    requires TimesMatch(table, used) && forall q :: q in used ==> used[q] <= t
    modifies frames, table
    ensures ok <==> !NoVictim(c, mem, used, r.page)
    ensures ok ==> Represents(c, frames, table, Access(c, mem, r.page, t)) && TimesMatch(table, used[r.page := t])
    ensures ok ==> r.page in Access(c, mem, r.page, t).frame && result == Report(r, mem, Access(c, mem, r.page, t))
    ensures ok ==> result.physicalAddress == Some(4096 * Access(c, mem, r.page, t).frame[r.page] + r.offset)
  {
    var p := r.page;
    ValidIsResident(c, frames, table, mem, t, p);
    FrameReported(c, mem, t, p);
    result := PagingResult(r.address, None, -1, false, false);
    if !table[p.outer, p.inner].valid {
      hide Coupled, Represents, Access, NoVictim;
      result := result.(causedPageFault := true);
      ok := LoadPage(c, frames, table, p, t, mem, used);
      if !ok {
        return;
      }
      result := result.(replacedFrameIndex := table[p.outer, p.inner].frame);
    } else {
      TouchEntry(c, table, p, t, mem, used);
      SameOrderLength(c, mem, p);
      ok := true;
    }
    result := result.(physicalAddress := Some(GetPhysicalAddress(table[p.outer, p.inner].frame, r.offset)));
  }

  // ---------- The simulation ----------

  // The tables after t accesses.
  ghost predicate StateAt(c: Config, frames: array<bool>, table: array2<PageEntry>, refs: seq<Reference>, t: nat)
    requires t <= |refs|
    reads frames, table
  {
    && Represents(c, frames, table, MemoryAfter(c, refs[..t]))
    && TimesMatch(table, LastUses(refs[..t]))
  }

  // One turn of the simulation loop.
  method SimulateNext(c: Config, regions: seq<Region>, trace: seq<bv32>, frames: array<bool>, table: array2<PageEntry>,
                      t: nat)
      returns (ok: bool, result: PagingResult)
    requires 0 < t <= |trace| && StateAt(c, frames, table, References(regions, trace), t - 1)
    modifies frames, table
    ensures ok <==> !Stuck(c, References(regions, trace), t - 1)
    ensures ok ==> StateAt(c, frames, table, References(regions, trace), t)
    ensures ok ==> result == ResultAt(c, References(regions, trace), t - 1)
  {
    hide Coupled, Represents, TimesMatch, Access, Report, Refer, ResultAt, LastUses;
    ghost var refs := References(regions, trace);
    ghost var mem := MemoryAfter(c, refs[..t - 1]);
    Unfold(c, refs, t);
    LastUsesStep(refs, t - 1);
    ReportedAt(c, refs, t - 1);
    ReferenceFacts(regions, trace, t - 1, mem);
    var inRange := IsVirtualAddressInRange(regions, trace[t - 1]);
    if !inRange {
      return true, PagingResult(trace[t - 1], None, -1, false, true);
    }
    ok, result := AccessPage(c, frames, table, Refer(regions, trace[t - 1]), t, mem, LastUses(refs[..t - 1]));
  }

  /** The whole run: either it reports, for every access, what the model reports, or it reached an
      access for which no victim could be found. */
  method RunPagingSimulation(c: Config, regions: seq<Region>, trace: seq<bv32>)
      returns (ok: bool, results: array<PagingResult>)
    ensures fresh(results) && results.Length == |trace|
    ensures ok <==> RunsToTheEnd(c, References(regions, trace))
    ensures ok ==> forall i :: 0 <= i < |trace| ==> results[i] == ResultAt(c, References(regions, trace), i)
    ensures ok ==> forall i :: 0 <= i < |trace| ==> Right(c, regions, trace, i, results[i])
  {
    hide StateAt, ResultAt, Refer, Stuck, Right;
    results := InitResultStore(trace);
    var frames, table := InitTables(c, References(regions, trace));
    var t := 0;
    while t < |trace|
      invariant 0 <= t <= |trace| && StateAt(c, frames, table, References(regions, trace), t)
      invariant forall i :: 0 <= i < t ==> results[i] == ResultAt(c, References(regions, trace), i)
      invariant forall i :: 0 <= i < t ==> !Stuck(c, References(regions, trace), i)
      invariant fresh(frames) && fresh(table) && fresh(results)
    {
      t := t + 1;
      var result;
      ok, result := SimulateNext(c, regions, trace, frames, table, t);
      if !ok {
        return;
      }
      results[t - 1] := result;
    }
    forall i | 0 <= i < |trace| ensures Right(c, regions, trace, i, results[i]) {
      ReportIsRight(c, regions, trace, i);
    }
    ok := true;
  }

  lemma ReportedAt(c: Config, refs: seq<Reference>, i: nat)
    requires i < |refs|
    ensures var mem, mem' := MemoryAfter(c, refs[..i]), MemoryAfter(c, refs[..i + 1]);
            (refs[i].inRange ==> refs[i].page in mem'.frame) && ResultAt(c, refs, i) == Report(refs[i], mem, mem')
  {
    AccessedIsResident(c, refs, i);
  }

  lemma ReferenceFacts(regions: seq<Region>, trace: seq<bv32>, i: nat, mem: Memory)
    requires i < |trace|
    ensures var r := Refer(regions, trace[i]);
            && References(regions, trace)[i] == r
            && r.inRange == InRange(regions, trace[i])
            && (!r.inRange ==> Report(r, mem, mem) == PagingResult(trace[i], None, -1, false, true))
  {
  }

  method InitTables(c: Config, ghost refs: seq<Reference>) returns (frames: array<bool>, table: array2<PageEntry>)
    ensures fresh(frames) && fresh(table) && StateAt(c, frames, table, refs, 0)
  {
    assert refs[..0] == [];
    frames := InitFrameTable();
    table := InitOuterPageTable(c.policy);
  }
}
