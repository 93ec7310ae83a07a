/** The run queue as the program has it: a singly linked list of nodes that point to process control
    blocks. Its operations are proved against the queue read as a sequence. */
module RunQueue {
  import opened CfsArithmetic
  import opened RunQueueOrder
  import opened Collections

  class ProcessControlBlock {
    var length: int
    var priority: Priority
    var cpuTime: int
    var vruntime: real
    constructor (length: int, priority: Priority)
      ensures this.length == length && this.priority == priority && cpuTime == 0 && vruntime == 0.0
    {
      this.length, this.priority := length, priority;
      cpuTime, vruntime := 0, 0.0;
    }

    method UpdatePcbTimings(time: int)
      modifies this
      ensures cpuTime == old(cpuTime) + time && vruntime == old(vruntime) + VirtualRuntime(priority, time)
      ensures length == old(length) && priority == old(priority)
    {
      cpuTime := cpuTime + time;
      vruntime := vruntime + VirtualRuntime(priority, time);
    }
  }

  class RunqueueNode {
    var pcb: ProcessControlBlock
    var next: RunqueueNode?
    constructor (pcb: ProcessControlBlock, next: RunqueueNode?)
      ensures this.pcb == pcb && this.next == next
    {
      this.pcb := pcb;
      this.next := next;
    }
  }

  function PrioritiesOf(pcbs: seq<ProcessControlBlock>): seq<Priority>
    reads pcbs
  {
    seq(|pcbs|, k requires 0 <= k < |pcbs| reads pcbs => pcbs[k].priority)
  }

  function KeysOf(pcbs: seq<ProcessControlBlock>): seq<real>
    reads pcbs
  {
    seq(|pcbs|, k requires 0 <= k < |pcbs| reads pcbs => pcbs[k].vruntime)
  }

  class Runqueue {
    var head: RunqueueNode?
    ghost var nodes: seq<RunqueueNode>

    ghost function NodeAt(k: nat): RunqueueNode?
      reads this
    {
      if k < |nodes| then nodes[k] else null
    }

    ghost predicate Valid()
      reads this, nodes
    {
      && head == NodeAt(0)
      && (forall k :: 0 <= k < |nodes| ==> nodes[k].next == NodeAt(k + 1))
      && NoDup(nodes)
    }

    // The queue, head first.
    ghost function Pcbs(): (pcbs: seq<ProcessControlBlock>)
      reads this, nodes
      ensures |pcbs| == |nodes| && forall k :: 0 <= k < |pcbs| ==> pcbs[k] == nodes[k].pcb
    {
      seq(|nodes|, k requires 0 <= k < |nodes| reads this, nodes => nodes[k].pcb)
    }

    constructor ()
      ensures Valid() && nodes == [] && Pcbs() == []
    {
      head := null;
      nodes := [];
    }

    method AddPcb(pcb: ProcessControlBlock)
      requires Valid()
      modifies this
      ensures Valid() && Pcbs() == [pcb] + old(Pcbs())
      ensures nodes != [] && fresh(nodes[0]) && nodes[1..] == old(nodes)
    {
      var node := new RunqueueNode(pcb, head);
      head := node;
      nodes := [node] + nodes;
    }

    method RemovePcb(pcb: ProcessControlBlock)
      requires Valid()
      modifies this, nodes
      ensures Valid() && Pcbs() == Remove(old(Pcbs()), pcb)
      ensures forall n :: n in nodes ==> n in old(nodes)
    {
      var prevNode: RunqueueNode? := null;
      var node := head;
      ghost var k := 0;
      while node != null
        invariant 0 <= k <= |nodes| && unchanged(this) && unchanged(nodes)
        invariant node == NodeAt(k)
        invariant prevNode == if k > 0 then nodes[k - 1] else null
        invariant forall j :: 0 <= j < k ==> nodes[j].pcb != pcb
        decreases |nodes| - k
      {
        if node.pcb == pcb {
          RemoveAt(Pcbs(), k, pcb);
          Unlink(prevNode, node, k);
          return;
        }
        prevNode := node;
        node := node.next;
        k := k + 1;
      }
      RemoveAbsent(Pcbs(), pcb);
    }

    // The k-th node leaves the list.
    method Unlink(prevNode: RunqueueNode?, node: RunqueueNode, ghost k: nat)
      requires Valid() && k < |nodes| && node == nodes[k]
      requires prevNode == if k > 0 then nodes[k - 1] else null
      modifies this, nodes
      ensures Valid() && nodes == Cut(old(nodes), k)
      ensures Pcbs() == Cut(old(Pcbs()), k)
    {
      ghost var before, pcbs := nodes, Pcbs();
      Relink(prevNode, node, k);
      hide Valid, Cut;
      CutPcbs(before, pcbs, k);
    }

    lemma CutPcbs(before: seq<RunqueueNode>, pcbs: seq<ProcessControlBlock>, k: nat)
      requires k < |before| == |pcbs| && nodes == Cut(before, k)
      requires forall j :: 0 <= j < |before| ==> before[j].pcb == pcbs[j]
      ensures Pcbs() == Cut(pcbs, k)
    {
    }

    // The links written for it.
    method Relink(prevNode: RunqueueNode?, node: RunqueueNode, ghost k: nat)
      requires Valid() && k < |nodes| && node == nodes[k]
      requires prevNode == if k > 0 then nodes[k - 1] else null
      modifies this, nodes
      ensures Valid() && nodes == Cut(old(nodes), k)
      ensures forall j :: 0 <= j < |old(nodes)| ==> old(nodes)[j].pcb == old(nodes[j].pcb)
    {
      ghost var before := nodes;
      CutProperties(before, k);
      if prevNode != null {
        prevNode.next := node.next;
      } else {
        head := node.next;
      }
      nodes := Cut(before, k);
      hide Cut;
      forall j | 0 <= j < |nodes| ensures nodes[j].next == NodeAt(j + 1) {
        assert nodes[j] == before[if j < k then j else j + 1];
      }
    }

    method RunqueueTimeslice(priority: Priority) returns (slice: nat)
      requires Valid()
      ensures slice == Timeslice(GetWeight(priority), TotalWeight(PrioritiesOf(Pcbs())))
    {
      var weight := GetWeight(priority);
      var totalWeight := 0;
      var node := head;
      ghost var k := 0;
      while node != null
        invariant 0 <= k <= |nodes|
        invariant node == NodeAt(k)
        invariant totalWeight == TotalWeight(PrioritiesOf(Pcbs())[..k])
        decreases |nodes| - k
      {
        totalWeight := totalWeight + GetWeight(node.pcb.priority);
        node := node.next;
        k := k + 1;
        assert PrioritiesOf(Pcbs())[..k][..k - 1] == PrioritiesOf(Pcbs())[..k - 1];
      }
      assert PrioritiesOf(Pcbs())[..k] == PrioritiesOf(Pcbs());
      slice := SCHED_LATENCY;
      if totalWeight != 0 {
        slice := Rounded(weight * SCHED_LATENCY, totalWeight);
      }
      if slice < MIN_GRANULARITY {
        slice := MIN_GRANULARITY;
      }
    }

    method RunqueueSmallestPcb() returns (pcb: ProcessControlBlock?)
      requires Valid()
      ensures Pcbs() == [] ==> pcb == null
      ensures Pcbs() != [] ==> pcb == Pcbs()[SmallestIndex(KeysOf(Pcbs()))]
    {
      if head == null {
        return null;
      }
      var minNode := SmallestNode(head, KeysOf(Pcbs()));
      pcb := minNode.pcb;
    }

    // The loop over the nodes, whose virtual runtimes are keys.
    method SmallestNode(first: RunqueueNode, ghost keys: seq<real>) returns (minNode: RunqueueNode)
      requires Valid() && first == head
      requires |keys| == |nodes| && forall j :: 0 <= j < |nodes| ==> keys[j] == nodes[j].pcb.vruntime
      ensures keys != [] && minNode == nodes[SmallestIndex(keys)]
    {
      minNode := first;
      var node: RunqueueNode? := first;
      ghost var k, m := 0, 0;
      hide SmallestIndex;
      while node != null
        invariant 0 <= k <= |nodes| && node == NodeAt(k)
        invariant SmallestSoFar(keys, k, m) && minNode == nodes[m]
        decreases |nodes| - k
      {
        SmallestExtends(keys, k, m);
        hide SmallestSoFar;
        if minNode.pcb.vruntime > node.pcb.vruntime {
          minNode := node;
          m := k;
        }
        node := node.next;
        k := k + 1;
      }
      SmallestOfAll(keys, m);
    }
  }

  lemma CutProperties<T>(s: seq<T>, k: nat)
    requires NoDup(s) && k < |s|
    ensures NoDup(Cut(s, k)) && forall x :: x in Cut(s, k) ==> x in s
  {
  }

  lemma {:induction false} RemoveAt<T>(queue: seq<T>, k: nat, x: T)
    requires k < |queue| && queue[k] == x && forall j :: 0 <= j < k ==> queue[j] != x
    ensures Remove(queue, x) == Cut(queue, k)
  {
    if k == 0 {
      assert Cut(queue, 0) == queue[1..];
    } else {
      hide Cut;
      RemoveAt(queue[1..], k - 1, x);
      assert [queue[0]] + Cut(queue[1..], k - 1) == Cut(queue, k);
    }
  }

  lemma {:induction false} RemoveAbsent<T>(queue: seq<T>, x: T)
    requires forall j :: 0 <= j < |queue| ==> queue[j] != x
    ensures Remove(queue, x) == queue
  {
    if queue != [] {
      RemoveAbsent(queue[1..], x);
    }
  }
}
