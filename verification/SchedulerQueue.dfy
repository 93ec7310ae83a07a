/** The linked run queue and the process control blocks do, in place, what the state machine does to its queue and
    its accounts: in every step that touches them. */
module SchedulerQueue {
  import opened CfsArithmetic
  import opened Collections
  import opened RunQueueOrder
  import opened RunQueue
  import opened SchedulerProtocol

  predicate ValidIds(pcbs: seq<ProcessControlBlock>, ids: seq<nat>) {
    forall k :: 0 <= k < |ids| ==> ids[k] < |pcbs|
  }

  // The control blocks of the listed processes.
  function BlocksOf(pcbs: seq<ProcessControlBlock>, ids: seq<nat>): (blocks: seq<ProcessControlBlock>)
    requires ValidIds(pcbs, ids)
    ensures |blocks| == |ids| && forall k :: 0 <= k < |ids| ==> blocks[k] == pcbs[ids[k]]
  {
    seq(|ids|, k requires 0 <= k < |ids| => pcbs[ids[k]])
  }

  ghost predicate SameAccount(pcb: ProcessControlBlock, p: Proc)
    reads pcb
  {
    pcb.length == p.length && pcb.priority == p.priority && pcb.cpuTime == p.cpu && pcb.vruntime == p.vruntime
  }

  // Queue and control blocks in memory are those of the state.
  ghost predicate Shows(rq: Runqueue, pcbs: seq<ProcessControlBlock>, s: State)
    reads rq, rq.nodes, pcbs
  {
    && rq.Valid() && |pcbs| == |s.procs| && NoDup(pcbs)
    && (forall k :: 0 <= k < |pcbs| ==> SameAccount(pcbs[k], s.procs[k]))
    && ValidIds(pcbs, s.rq)
    && rq.Pcbs() == BlocksOf(pcbs, s.rq)
  }

  // What Shows asks of the control blocks alone.
  ghost predicate Accounts(pcbs: seq<ProcessControlBlock>, procs: seq<Proc>)
    reads pcbs
  {
    |pcbs| == |procs| && NoDup(pcbs) && forall k :: 0 <= k < |pcbs| ==> SameAccount(pcbs[k], procs[k])
  }

  lemma ShowsParts(rq: Runqueue, pcbs: seq<ProcessControlBlock>, s: State)
    ensures Shows(rq, pcbs, s) <==>
            && rq.Valid() && Accounts(pcbs, s.procs) && ValidIds(pcbs, s.rq)
            && rq.Pcbs() == BlocksOf(pcbs, s.rq)
    ensures Shows(rq, pcbs, s) ==> |pcbs| == |s.procs|
  {
  }

  // ---------- Queueing up ----------

  lemma EnqueueStep(s: State, i: nat)
    requires i < |s.procs| && s.procs[i].pc.Enqueue?
    ensures ProcessStep(s, i).Some?
    ensures var s' := ProcessStep(s, i).value;
            s'.rq == [i] + s.rq && s'.procs == s.procs[i := s.procs[i].(pc := UnlockQueueAdded)]
  {
  }

  lemma OnlyPc(pcbs: seq<ProcessControlBlock>, procs: seq<Proc>, i: nat, pc: ProcessPc)
    requires i < |procs| && Accounts(pcbs, procs)
    ensures Accounts(pcbs, procs[i := procs[i].(pc := pc)])
  {
  }

  method QueueUp(rq: Runqueue, pcbs: seq<ProcessControlBlock>, ghost s: State, i: nat)
    requires Shows(rq, pcbs, s) && i < |s.procs| && s.procs[i].pc.Enqueue?
    modifies rq
    ensures ProcessStep(s, i).Some? && Shows(rq, pcbs, ProcessStep(s, i).value)
  {
    hide ProcessStep, Accounts, Shows;
    EnqueueStep(s, i);
    ShowsParts(rq, pcbs, s);
    ghost var s' := ProcessStep(s, i).value;
    rq.AddPcb(pcbs[i]);
    assert rq.Pcbs() == BlocksOf(pcbs, s'.rq);
    OnlyPc(pcbs, s.procs, i, UnlockQueueAdded);
    ShowsParts(rq, pcbs, s');
  }

  // ---------- Picking ----------

  lemma PickStep(s: State)
    requires s.sched.Pick?
    ensures SchedulerStep(s).Some?
    ensures var s' := SchedulerStep(s).value; s'.rq == s.rq && s'.procs == s.procs && s'.picked == SmallestPcb(s)
  {
    hide SmallestPcb;
  }

  lemma KeysAgree(rq: Runqueue, pcbs: seq<ProcessControlBlock>, s: State)
    requires Shows(rq, pcbs, s)
    ensures KeysOf(rq.Pcbs()) == Keys(s) && |rq.Pcbs()| == |s.rq|
    ensures forall k :: 0 <= k < |s.rq| ==> s.rq[k] < |pcbs| && rq.Pcbs()[k] == pcbs[s.rq[k]]
  {
  }

  method PickNext(rq: Runqueue, pcbs: seq<ProcessControlBlock>, ghost s: State) returns (pcb: ProcessControlBlock?)
    requires Shows(rq, pcbs, s) && s.sched.Pick?
    ensures SchedulerStep(s).Some? && Shows(rq, pcbs, SchedulerStep(s).value)
    ensures var picked := SchedulerStep(s).value.picked;
            if pcb == null then picked == None
            else picked.Some? && picked.value < |pcbs| && pcb == pcbs[picked.value]
  {
    hide SchedulerStep, Shows, SmallestIndex, Keys, KeysOf;
    PickStep(s);
    ShowsParts(rq, pcbs, s);
    ShowsParts(rq, pcbs, SchedulerStep(s).value);
    KeysAgree(rq, pcbs, s);
    pcb := rq.RunqueueSmallestPcb();
  }

  // ---------- Using a slice ----------

  lemma {:induction false} RemoveBlock(pcbs: seq<ProcessControlBlock>, ids: seq<nat>, i: nat)
    requires NoDup(pcbs) && i < |pcbs| && ValidIds(pcbs, ids)
    ensures ValidIds(pcbs, Remove<nat>(ids, i))
    ensures Remove(BlocksOf(pcbs, ids), pcbs[i]) == BlocksOf(pcbs, Remove<nat>(ids, i))
  {
    hide Remove, BlocksOf, NoDup;
    if ids == [] {
      NothingToRemove<nat>(i);
      NoBlocks(pcbs, pcbs[i]);
    } else {
      RemoveBlock(pcbs, ids[1..], i);
      RemoveBlockCons(pcbs, ids[0], ids[1..], i);
      assert ids == [ids[0]] + ids[1..];
    }
  }

  lemma NothingToRemove<T>(x: T)
    ensures Remove([], x) == []
  {
  }

  lemma NoBlocks(pcbs: seq<ProcessControlBlock>, pcb: ProcessControlBlock)
    ensures BlocksOf(pcbs, []) == [] && Remove(BlocksOf(pcbs, []), pcb) == []
  {
    NothingToRemove(pcb);
  }

  lemma BlocksCons(pcbs: seq<ProcessControlBlock>, x: nat, ids: seq<nat>)
    requires x < |pcbs| && ValidIds(pcbs, ids)
    ensures ValidIds(pcbs, [x] + ids) && BlocksOf(pcbs, [x] + ids) == [pcbs[x]] + BlocksOf(pcbs, ids)
  {
  }

  lemma RemoveBlockCons(pcbs: seq<ProcessControlBlock>, x: nat, ids: seq<nat>, i: nat)
    requires NoDup(pcbs) && i < |pcbs| && x < |pcbs| && ValidIds(pcbs, ids) && ValidIds(pcbs, Remove<nat>(ids, i))
    requires Remove(BlocksOf(pcbs, ids), pcbs[i]) == BlocksOf(pcbs, Remove<nat>(ids, i))
    ensures ValidIds(pcbs, [x] + ids) && ValidIds(pcbs, Remove<nat>([x] + ids, i))
    ensures Remove(BlocksOf(pcbs, [x] + ids), pcbs[i]) == BlocksOf(pcbs, Remove<nat>([x] + ids, i))
  {
    assert pcbs[x] == pcbs[i] <==> x == i;
    hide Remove, BlocksOf, NoDup;
    BlocksCons(pcbs, x, ids);
    RemoveCons<nat>(x, ids, i);
    RemoveCons(pcbs[x], BlocksOf(pcbs, ids), pcbs[i]);
    if x != i {
      BlocksCons(pcbs, x, Remove<nat>(ids, i));
    }
  }

  lemma PrioritiesAgree(pcbs: seq<ProcessControlBlock>, s: State, ids: seq<nat>)
    requires Accounts(pcbs, s.procs) && ValidIds(pcbs, ids)
    ensures PrioritiesOf(BlocksOf(pcbs, ids)) == Priorities(s, ids)
  {
  }

  // p' is p after a slice, cut to what is left of its length.
  predicate After(p: Proc, p': Proc, timeslice: int) {
    var time := if p.length - p.cpu > timeslice then timeslice else p.length - p.cpu;
    && p'.length == p.length && p'.priority == p.priority && p'.cpu == p.cpu + time
    && p'.vruntime == p.vruntime + VirtualRuntime(p.priority, time)
  }

  // The slice that process i gets beside the others.
  function SliceAmong(s: State, i: nat): int
    requires i < |s.procs|
  {
    Timeslice(GetWeight(s.procs[i].priority), TotalWeight(Priorities(s, Remove<nat>(s.rq, i))))
  }

  lemma ConsumeStep(s: State, i: nat) returns (s': State)
    requires i < |s.procs| && s.procs[i].pc.Consume?
    ensures ProcessStep(s, i).Some? && ProcessStep(s, i).value == s' && |s'.procs| == |s.procs|
    ensures s'.rq == Remove<nat>(s.rq, i) && s'.procs == s.procs[i := s'.procs[i]]
    ensures After(s.procs[i], s'.procs[i], SliceAmong(s, i))
  {
    hide Timeslice, GetWeight, TotalWeight, VirtualRuntime, Remove, Priorities;
    s' := ProcessStep(s, i).value;
  }

  // The control block of a process after the slice.
  method Charge(pcbs: seq<ProcessControlBlock>, i: nat, timeslice: int, ghost procs: seq<Proc>, ghost procs': seq<Proc>)
      returns (cpuTime: int)
    requires Accounts(pcbs, procs) && i < |procs| == |procs'| && procs' == procs[i := procs'[i]]
    requires After(procs[i], procs'[i], timeslice)
    modifies pcbs[i]
    ensures Accounts(pcbs, procs') && cpuTime == pcbs[i].cpuTime - old(pcbs[i].cpuTime)
  {
    hide VirtualRuntime;
    var pcb := pcbs[i];
    var remainingTime := pcb.length - pcb.cpuTime;
    cpuTime := if remainingTime > timeslice then timeslice else remainingTime;
    pcb.UpdatePcbTimings(cpuTime);
  }

  // The run queue without the process, and the slice that it gets beside those that are left.
  method LeaveQueue(rq: Runqueue, pcbs: seq<ProcessControlBlock>, ghost s: State, i: nat) returns (timeslice: int)
    requires rq.Valid() && Accounts(pcbs, s.procs) && i < |s.procs|
    requires ValidIds(pcbs, s.rq) && rq.Pcbs() == BlocksOf(pcbs, s.rq)
    modifies rq, rq.nodes
    ensures rq.Valid() && Accounts(pcbs, s.procs)
    ensures var left := Remove<nat>(s.rq, i);
            && ValidIds(pcbs, left) && rq.Pcbs() == BlocksOf(pcbs, left)
            && timeslice == SliceAmong(s, i)
  {
    hide Remove, Timeslice, TotalWeight, GetWeight, Priorities, PrioritiesOf;
    RemoveBlock(pcbs, s.rq, i);
    rq.RemovePcb(pcbs[i]);
    PrioritiesAgree(pcbs, s, Remove<nat>(s.rq, i));
    timeslice := rq.RunqueueTimeslice(pcbs[i].priority);
  }

  /** From leaving the queue to charging the slice: the process is measured against those that are left. */
  method UseSlice(rq: Runqueue, pcbs: seq<ProcessControlBlock>, ghost s: State, i: nat) returns (cpuTime: int)
    requires Shows(rq, pcbs, s) && i < |s.procs| && s.procs[i].pc.Consume?
    modifies rq, rq.nodes, pcbs[i]
    ensures ProcessStep(s, i).Some? && Shows(rq, pcbs, ProcessStep(s, i).value)
    ensures cpuTime == pcbs[i].cpuTime - old(pcbs[i].cpuTime)
  {
    hide ProcessStep, Shows, Accounts, Remove, SliceAmong, After, BlocksOf, ValidIds;
    ShowsParts(rq, pcbs, s);
    ghost var s' := ConsumeStep(s, i);
    var timeslice := LeaveQueue(rq, pcbs, s, i);
    cpuTime := Charge(pcbs, i, timeslice, s.procs, s'.procs);
    ShowsParts(rq, pcbs, s');
  }
}
