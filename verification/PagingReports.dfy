/** What the report of one access says of the addresses themselves: which physical address, of which frame, and
    how the reports of two accesses fit together. */
module PagingReports {
  import opened Collections
  import opened Addresses
  import opened ReplacementPolicies
  import opened PagingModel

  // ---------- One report ----------

  /** An access inside a region is reported at the translation of its address by the tables after it, and as a fault
      exactly when its page was not resident before; a fault also reports the frame. */
  lemma ReportInside(c: Config, regions: seq<Region>, trace: seq<bv32>, i: nat)
    requires i < |trace| && InRange(regions, trace[i])
    ensures var refs := References(regions, trace);
            var before, after := MemoryAfter(c, refs[..i]), MemoryAfter(c, refs[..i + 1]);
            var r, p := ResultAt(c, refs, i), PageOf(trace[i]);
            && p in after.frame
            && r.virtualAddress == trace[i] && !r.unusedMemoryAccessException
            && (r.causedPageFault <==> p !in before.order)
            && r.replacedFrameIndex == (if p in before.order then -1 else after.frame[p])
            && r.physicalAddress == Some(Translate(after, trace[i]))
  {
    hide MemoryAfter, PageOf, Offset, InRange;
    var refs := References(regions, trace);
    assert refs[i] == Refer(regions, trace[i]);
    AccessedIsResident(c, refs, i);
  }

  /** An access outside every region only reports that. */
  lemma ReportOutside(c: Config, regions: seq<Region>, trace: seq<bv32>, i: nat)
    requires i < |trace| && !InRange(regions, trace[i])
    ensures var refs := References(regions, trace); var r := ResultAt(c, refs, i);
            && r.virtualAddress == trace[i] && r.unusedMemoryAccessException
            && r.physicalAddress == None && r.replacedFrameIndex == -1 && !r.causedPageFault
            && MemoryAfter(c, refs[..i + 1]) == MemoryAfter(c, refs[..i])
  {
    hide MemoryAfter, PageOf, Offset, InRange, Coupled, Access;
    var refs := References(regions, trace);
    assert refs[i] == Refer(regions, trace[i]);
    Unfold(c, refs, i + 1);
  }

  /** In numbers: the physical address has the offset of the virtual one, lies in the frame of its page, and that
      is one of the frames the program was given. */
  lemma ReportInNumbers(c: Config, regions: seq<Region>, trace: seq<bv32>, i: nat)
    requires i < |trace| && InRange(regions, trace[i])
    ensures var refs := References(regions, trace);
            var after, r, p := MemoryAfter(c, refs[..i + 1]), ResultAt(c, refs, i), PageOf(trace[i]);
            && r.physicalAddress.Some? && p in after.frame
            && var pa := r.physicalAddress.value;
               && 0 <= pa < 4096 * c.frames
               && pa % 4096 == trace[i] as int % 4096
               && pa / 4096 == after.frame[p]
               && 1024 * p.outer + p.inner == trace[i] as int / 4096
  {
    hide MemoryAfter, PageOf, Offset, InRange, ResultAt;
    var refs := References(regions, trace);
    ReportInside(c, regions, trace, i);
    PageAndOffset(trace[i]);
    CoupledAfter(c, refs, i + 1);
    InFrames(MemoryAfter(c, refs[..i + 1]), c.frames, i + 1, PageOf(trace[i]), Offset(trace[i]));
  }

  lemma InFrames(mem: Memory, m: nat, t: nat, p: Page, offset: int)
    requires Coupled(m, mem, t) && p in mem.frame && 0 <= offset < 4096
    ensures var pa := GetPhysicalAddress(mem.frame[p], offset);
            0 <= pa < 4096 * m && pa % 4096 == offset && pa / 4096 == mem.frame[p]
  {
    FrameAndOffset(mem.frame[p], offset, m);
  }

  lemma FrameAndOffset(f: nat, x: nat, m: nat)
    requires f < m && x < 4096
    ensures var pa := GetPhysicalAddress(f, x); 0 <= pa < 4096 * m && pa % 4096 == x && pa / 4096 == f
  {
  }

  /** What is to be reported of access i, in terms of addresses and of the tables before and after it. */
  ghost predicate Right(c: Config, regions: seq<Region>, trace: seq<bv32>, i: nat, r: PagingResult)
    requires i < |trace|
  {
    var refs := References(regions, trace);
    var before, after, p := MemoryAfter(c, refs[..i]), MemoryAfter(c, refs[..i + 1]), PageOf(trace[i]);
    && r.virtualAddress == trace[i]
    && (r.unusedMemoryAccessException <==> !InRange(regions, trace[i]))
    && (!InRange(regions, trace[i]) ==>
          r.physicalAddress == None && r.replacedFrameIndex == -1 && !r.causedPageFault)
    && (InRange(regions, trace[i]) ==>
          && p in after.frame && (r.causedPageFault <==> p !in before.order)
          && r.replacedFrameIndex == (if p in before.order then -1 else after.frame[p])
          && r.physicalAddress == Some(4096 * after.frame[p] + trace[i] as int % 4096))
  }

  lemma ReportIsRight(c: Config, regions: seq<Region>, trace: seq<bv32>, i: nat)
    requires i < |trace|
    ensures Right(c, regions, trace, i, ResultAt(c, References(regions, trace), i))
  {
    hide MemoryAfter, PageOf, Offset, InRange, ResultAt;
    if InRange(regions, trace[i]) {
      ReportInside(c, regions, trace, i);
      PageAndOffset(trace[i]);
    } else {
      ReportOutside(c, regions, trace, i);
    }
  }

  // ---------- Two reports ----------

  // Page p faults at none of the accesses from i up to but not including j.
  predicate NoFaultOn(c: Config, refs: seq<Reference>, p: Page, i: nat, j: nat) {
    forall k :: i <= k < j <= |refs| && refs[k].inRange && refs[k].page == p ==> !ResultAt(c, refs, k).causedPageFault
  }

  lemma OneAccessKeepsFrame(c: Config, mem: Memory, q: Page, t: nat, p: Page)
    requires Coupled(c.frames, mem, t) && (p == q ==> p in mem.order)
    requires p in Access(c, mem, q, t).frame && Coupled(c.frames, Access(c, mem, q, t), t)
    ensures p in mem.order && p in mem.frame && Access(c, mem, q, t).frame[p] == mem.frame[p]
  {
    assert p in mem.order <==> p in Pages(mem.order);
  }

  lemma FrameStaysOnce(c: Config, refs: seq<Reference>, p: Page, j: nat)
    requires 0 < j <= |refs| && p in MemoryAfter(c, refs[..j]).frame
    requires refs[j - 1].inRange && refs[j - 1].page == p ==> !ResultAt(c, refs, j - 1).causedPageFault
    ensures p in MemoryAfter(c, refs[..j - 1]).frame
    ensures MemoryAfter(c, refs[..j - 1]).frame[p] == MemoryAfter(c, refs[..j]).frame[p]
  {
    hide MemoryAfter, ResultAt, Access, Coupled;
    Unfold(c, refs, j);
    FaultAt(c, refs, j - 1);
    CoupledAfter(c, refs, j);
    if refs[j - 1].inRange {
      OneAccessKeepsFrame(c, MemoryAfter(c, refs[..j - 1]), refs[j - 1].page, j, p);
    }
  }

  lemma NoFaultBefore(c: Config, refs: seq<Reference>, p: Page, i: nat, j: nat)
    requires i < j <= |refs| && NoFaultOn(c, refs, p, i, j)
    ensures NoFaultOn(c, refs, p, i, j - 1)
    ensures refs[j - 1].inRange && refs[j - 1].page == p ==> !ResultAt(c, refs, j - 1).causedPageFault
  {
    hide ResultAt;
  }

  /** A page that is resident, and did not fault since access i, was resident after that access, in the same frame. */
  lemma {:induction false} FrameStays(c: Config, refs: seq<Reference>, p: Page, i: nat, j: nat)
    requires i <= j <= |refs| && NoFaultOn(c, refs, p, i, j) && p in MemoryAfter(c, refs[..j]).frame
    ensures p in MemoryAfter(c, refs[..i]).frame
    ensures MemoryAfter(c, refs[..i]).frame[p] == MemoryAfter(c, refs[..j]).frame[p]
    decreases j
  {
    hide *;
    if i < j {
      NoFaultBefore(c, refs, p, i, j);
      FrameStaysOnce(c, refs, p, j);
      FrameStays(c, refs, p, i, j - 1);
    }
  }

  /** If the page of the later of two accesses did not fault in between, both are reported at the same physical address
      exactly when their addresses are equal. */
  lemma ReportsAgreeIff(c: Config, regions: seq<Region>, trace: seq<bv32>, i: nat, j: nat)
    requires i <= j < |trace| && InRange(regions, trace[i]) && InRange(regions, trace[j])
    requires NoFaultOn(c, References(regions, trace), PageOf(trace[j]), i + 1, j + 1)
    ensures var refs := References(regions, trace);
            ResultAt(c, refs, i).physicalAddress == ResultAt(c, refs, j).physicalAddress <==> trace[i] == trace[j]
  {
    hide MemoryAfter, PageOf, Offset, InRange, ResultAt, NoFaultOn, Translate;
    var refs := References(regions, trace);
    ReportInside(c, regions, trace, i);
    ReportInside(c, regions, trace, j);
    FrameStays(c, refs, PageOf(trace[j]), i + 1, j + 1);
    var mem := MemoryAfter(c, refs[..i + 1]);
    SameTranslation(mem, MemoryAfter(c, refs[..j + 1]), trace[j]);
    CoupledAfter(c, refs, i + 1);
    if Translate(mem, trace[i]) == Translate(mem, trace[j]) {
      TranslationIsInjective(c.frames, mem, i + 1, trace[i], trace[j]);
    }
  }

  lemma SameTranslation(mem: Memory, mem': Memory, a: bv32)
    requires PageOf(a) in mem.frame && PageOf(a) in mem'.frame && mem.frame[PageOf(a)] == mem'.frame[PageOf(a)]
    ensures Translate(mem, a) == Translate(mem', a)
  {
  }
}
