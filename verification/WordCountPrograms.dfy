/** The two word count programs: child processes that send messages over one queue, and threads that fill
    slots which are merged in order. Whatever the interleaving, both write what one sequential count of
    all files would write. */
module WordCountPrograms {
  import opened WordCounts
  import opened Collections
  import opened MessageCodec
  import opened MessageBuffers

  // ---------- Scripts: what each child sends ----------

  // Data messages, then the end marker, which comes nowhere else.
  predicate Script(script: seq<Incoming>) {
    script != [] && script[|script| - 1] == Eof && forall k :: 0 <= k < |script| - 1 ==> script[k].Data?
  }

  predicate Scripts(scripts: seq<seq<Incoming>>) { forall i :: 0 <= i < |scripts| ==> Script(scripts[i]) }

  function ScriptOf(batches: seq<seq<Pair>>): seq<Incoming> {
    if batches == [] then [Eof] else [Data(batches[0])] + ScriptOf(batches[1..])
  }

  lemma {:induction false} ScriptOfIsScript(batches: seq<seq<Pair>>)
    ensures Script(ScriptOf(batches))
  {
    if batches != [] {
      ScriptOfIsScript(batches[1..]);
    }
  }

  /** The bytes a child sends decode to its script, in whatever buffer they are received. */
  lemma {:induction false} MessagesDecode(batches: seq<seq<Pair>>, size: nat, k: nat, tail: seq<Byte>)
    requires size >= INT_SIZE && forall b :: b in batches ==> FitsMessage(b, size)
    requires k < |ScriptOf(batches)|
    ensures |Messages(batches, size)| == |ScriptOf(batches)|
    ensures Decode(Messages(batches, size)[k] + tail) == ScriptOf(batches)[k]
  {
    if batches == [] {
      EofRoundTrip(size, tail);
    } else {
      MessageRoundTrip(batches[0], size, tail);
      MessagesDecode(batches[1..], size, if k > 0 then k - 1 else 0, tail);
    }
  }

  // ---------- The queue ----------

  /** order lists the senders of all messages sent so far; the first received of these messages have been
      taken out again, oldest first. */
  datatype QueueState = QueueState(order: seq<nat>, received: nat)

  datatype Move = Send(child: nat) | Receive

  function SentBy(order: seq<nat>, i: nat): (n: nat)
    ensures n <= |order|
  {
    if order == [] then 0 else SentBy(order[..|order| - 1], i) + if order[|order| - 1] == i then 1 else 0
  }

  // The messages of a sending order.
  function Traffic(scripts: seq<seq<Incoming>>, order: seq<nat>): (t: seq<Incoming>)
    ensures |t| == |order|
  {
    if order == [] then []
    else
      var n := |order| - 1;
      Traffic(scripts, order[..n]) + [Sent(scripts, order[n], SentBy(order[..n], order[n]))]
  }

  function Sent(scripts: seq<seq<Incoming>>, i: nat, k: nat): Incoming {
    if i < |scripts| && k < |scripts[i]| then scripts[i][k] else Malformed
  }

  function EndCount(traffic: seq<Incoming>): nat {
    if traffic == [] then 0 else EndCount(traffic[..|traffic| - 1]) + if traffic[|traffic| - 1] == Eof then 1 else 0
  }

  // What the parent has counted after receiving the given messages.
  function Merge(traffic: seq<Incoming>): seq<Pair> {
    if traffic == [] then []
    else
      var before := Merge(traffic[..|traffic| - 1]);
      match traffic[|traffic| - 1] case Data(ps) => AddAll(before, ps) case _ => before
  }

  function Received(scripts: seq<seq<Incoming>>, s: QueueState): seq<Incoming> {
    Traffic(scripts, if s.received <= |s.order| then s.order[..s.received] else s.order)
  }

  // The parent stops once it has seen as many end markers as there are children.
  predicate Stopped(scripts: seq<seq<Incoming>>, s: QueueState) { EndCount(Received(scripts, s)) >= |scripts| }

  function Advance(scripts: seq<seq<Incoming>>, capacity: nat, s: QueueState, m: Move): Option<QueueState> {
    match m
    case Send(i) =>
      if i < |scripts| && SentBy(s.order, i) < |scripts[i]| && |s.order| < s.received + capacity
      then Some(s.(order := s.order + [i])) else None
    case Receive =>
      if s.received < |s.order| && !Stopped(scripts, s) then Some(s.(received := s.received + 1)) else None
  }

  function RunExchange(scripts: seq<seq<Incoming>>, capacity: nat, moves: seq<Move>): Option<QueueState> {
    if moves == [] then Some(QueueState([], 0))
    else
      var before := RunExchange(scripts, capacity, moves[..|moves| - 1]);
      if before == None then None else Advance(scripts, capacity, before.value, moves[|moves| - 1])
  }

  // Nobody sent more than its script.
  predicate WithinScripts(scripts: seq<seq<Incoming>>, order: seq<nat>) {
    && (forall k :: 0 <= k < |order| ==> order[k] < |scripts|)
    && forall i :: 0 <= i < |scripts| ==> SentBy(order, i) <= |scripts[i]|
  }

  lemma SentByAppend(order: seq<nat>, j: nat, i: nat)
    ensures SentBy(order + [j], i) == SentBy(order, i) + if i == j then 1 else 0
  {
    assert (order + [j])[..|order|] == order;
  }

  lemma AdvanceIsOrdered(scripts: seq<seq<Incoming>>, capacity: nat, s: QueueState, m: Move)
    requires s.received <= |s.order| && WithinScripts(scripts, s.order) && Advance(scripts, capacity, s, m).Some?
    ensures var t := Advance(scripts, capacity, s, m).value; t.received <= |t.order| && WithinScripts(scripts, t.order)
  {
    if m.Send? {
      forall i | 0 <= i < |scripts| ensures SentBy(s.order + [m.child], i) <= |scripts[i]| {
        SentByAppend(s.order, m.child, i);
      }
    }
  }

  lemma {:induction false} RunIsOrdered(scripts: seq<seq<Incoming>>, capacity: nat, moves: seq<Move>)
    requires RunExchange(scripts, capacity, moves).Some?
    ensures var s := RunExchange(scripts, capacity, moves).value;
            s.received <= |s.order| && WithinScripts(scripts, s.order)
  {
    if moves != [] {
      var n := |moves| - 1;
      RunIsOrdered(scripts, capacity, moves[..n]);
      AdvanceIsOrdered(scripts, capacity, RunExchange(scripts, capacity, moves[..n]).value, moves[n]);
    }
  }

  /** No more messages wait in the queue than it has room for, and none is received before it was sent. */
  lemma {:induction false} QueueIsBounded(scripts: seq<seq<Incoming>>, capacity: nat, moves: seq<Move>)
    requires RunExchange(scripts, capacity, moves).Some?
    ensures var s := RunExchange(scripts, capacity, moves).value; s.received <= |s.order| <= s.received + capacity
  {
    if moves != [] {
      QueueIsBounded(scripts, capacity, moves[..|moves| - 1]);
    }
  }

  lemma {:induction false} SentByPrefix(order: seq<nat>, k: nat, i: nat)
    requires k <= |order|
    ensures SentBy(order[..k], i) <= SentBy(order, i)
  {
    if k < |order| {
      SentByPrefix(order[..|order| - 1], k, i);
      assert order[..|order| - 1][..k] == order[..k];
    } else {
      assert order[..k] == order;
    }
  }

  lemma OrderedPrefix(scripts: seq<seq<Incoming>>, order: seq<nat>, k: nat)
    requires k <= |order| && WithinScripts(scripts, order)
    ensures WithinScripts(scripts, order[..k])
  {
    forall i | 0 <= i < |scripts| ensures SentBy(order[..k], i) <= |scripts[i]| { SentByPrefix(order, k, i); }
  }

  // The children whose script is sent completely.
  function Complete(scripts: seq<seq<Incoming>>, order: seq<nat>): set<nat> {
    set i | 0 <= i < |scripts| && SentBy(order, i) == |scripts[i]|
  }

  lemma {:induction false} EndsAreComplete(scripts: seq<seq<Incoming>>, order: seq<nat>)
    requires Scripts(scripts) && WithinScripts(scripts, order)
    ensures EndCount(Traffic(scripts, order)) == |Complete(scripts, order)|
  {
    if order == [] {
      assert Complete(scripts, order) == {};
    } else {
      var n := |order| - 1;
      var j := order[n];
      OrderedPrefix(scripts, order, n);
      EndsAreComplete(scripts, order[..n]);
      assert order == order[..n] + [j];
      EndsStep(scripts, order[..n], j);
      assert Traffic(scripts, order)[..n] == Traffic(scripts, order[..n]);
    }
  }

  lemma EndsStep(scripts: seq<seq<Incoming>>, order: seq<nat>, j: nat)
    requires Scripts(scripts) && WithinScripts(scripts, order + [j])
    ensures j < |scripts| && SentBy(order, j) < |scripts[j]|
    ensures Complete(scripts, order + [j]) ==
            Complete(scripts, order) + if Sent(scripts, j, SentBy(order, j)) == Eof then {j} else {}
    ensures j !in Complete(scripts, order)
  {
    assert (order + [j])[|order|] == j;
    forall i | 0 <= i < |scripts| ensures SentBy(order + [j], i) == SentBy(order, i) + if i == j then 1 else 0 {
      SentByAppend(order, j, i);
    }
  }

  /** When the parent has seen the last end marker, every message that was ever sent has been received,
      and every child has sent its whole script. */
  lemma StoppedMeansAll(scripts: seq<seq<Incoming>>, capacity: nat, moves: seq<Move>)
    requires Scripts(scripts) && RunExchange(scripts, capacity, moves).Some?
    requires Stopped(scripts, RunExchange(scripts, capacity, moves).value)
    ensures var s := RunExchange(scripts, capacity, moves).value;
            s.received == |s.order| && forall i :: 0 <= i < |scripts| ==> SentBy(s.order, i) == |scripts[i]|
  {
    var s := RunExchange(scripts, capacity, moves).value;
    RunIsOrdered(scripts, capacity, moves);
    hide RunExchange;
    AllEndsMeanAll(scripts, s.order, s.received);
  }

  lemma AllEndsMeanAll(scripts: seq<seq<Incoming>>, order: seq<nat>, k: nat)
    requires Scripts(scripts) && WithinScripts(scripts, order) && k <= |order|
    requires EndCount(Traffic(scripts, order[..k])) >= |scripts|
    ensures k == |order| && forall i :: 0 <= i < |scripts| ==> SentBy(order, i) == |scripts[i]|
  {
    hide *;
    var taken := order[..k];
    OrderedPrefix(scripts, order, k);
    EndsAreComplete(scripts, taken);
    AllComplete(scripts, taken);
    if k < |order| {
      OrderedPrefix(scripts, order, k + 1);
      assert order[..k + 1] == taken + [order[k]];
      HadMore(scripts, taken, order[k]);
    } else {
      assert taken == order;
    }
  }

  lemma AllComplete(scripts: seq<seq<Incoming>>, order: seq<nat>)
    requires |Complete(scripts, order)| >= |scripts|
    ensures forall i :: 0 <= i < |scripts| ==> SentBy(order, i) == |scripts[i]|
  {
    SubsetCount(Complete(scripts, order), Below(|scripts|));
    forall i | 0 <= i < |scripts| ensures SentBy(order, i) == |scripts[i]| { assert i in Complete(scripts, order); }
  }

  lemma HadMore(scripts: seq<seq<Incoming>>, order: seq<nat>, j: nat)
    requires WithinScripts(scripts, order + [j])
    ensures j < |scripts| && SentBy(order, j) < |scripts[j]|
  {
    assert (order + [j])[|order|] == j;
    SentByAppend(order, j, j);
  }

  /** Until then somebody can always move: the parent, or a child when the queue is empty. */
  lemma QueueNeverBlocks(scripts: seq<seq<Incoming>>, capacity: nat, moves: seq<Move>)
    requires Scripts(scripts) && capacity > 0 && RunExchange(scripts, capacity, moves).Some?
    requires !Stopped(scripts, RunExchange(scripts, capacity, moves).value)
    ensures exists m :: Advance(scripts, capacity, RunExchange(scripts, capacity, moves).value, m).Some?
  {
    var s := RunExchange(scripts, capacity, moves).value;
    RunIsOrdered(scripts, capacity, moves);
    if s.received < |s.order| {
      assert Advance(scripts, capacity, s, Receive).Some?;
    } else {
      assert s.order[..s.received] == s.order;
      EndsAreComplete(scripts, s.order);
      var i := SomeIncomplete(scripts, s.order);
      assert Advance(scripts, capacity, s, Send(i)).Some?;
    }
  }

  lemma SomeIncomplete(scripts: seq<seq<Incoming>>, order: seq<nat>) returns (i: nat)
    requires |Complete(scripts, order)| < |scripts| && WithinScripts(scripts, order)
    ensures i < |scripts| && SentBy(order, i) < |scripts[i]|
  {
    if forall i: nat :: i < |scripts| ==> i in Complete(scripts, order) {
      SubsetCount(Below(|scripts|), Complete(scripts, order));
    }
    i :| i < |scripts| && i !in Complete(scripts, order);
  }

  /** Every move brings the exchange closer to its end, so no exchange goes on forever. */
  lemma {:induction false} ExchangesAreBounded(scripts: seq<seq<Incoming>>, capacity: nat, moves: seq<Move>)
    requires RunExchange(scripts, capacity, moves).Some?
    ensures |moves| <= 2 * ScriptSizes(scripts)
  {
    var s := RunExchange(scripts, capacity, moves).value;
    RunIsOrdered(scripts, capacity, moves);
    MovesAreCounted(scripts, capacity, moves);
    OrderIsBounded(scripts, s.order);
  }

  /** So whatever has happened, the exchange can go on until the parent stops. */
  lemma {:induction false} CanFinish(scripts: seq<seq<Incoming>>, capacity: nat, moves: seq<Move>)
      returns (moves': seq<Move>)
    requires Scripts(scripts) && capacity > 0 && RunExchange(scripts, capacity, moves).Some?
    ensures moves <= moves' && RunExchange(scripts, capacity, moves').Some?
    ensures Stopped(scripts, RunExchange(scripts, capacity, moves').value)
    decreases 2 * ScriptSizes(scripts) - |moves|
  {
    hide Stopped, Advance, Scripts;
    var s := RunExchange(scripts, capacity, moves).value;
    moves' := moves;
    if !Stopped(scripts, s) {
      QueueNeverBlocks(scripts, capacity, moves);
      var m :| Advance(scripts, capacity, s, m).Some?;
      assert (moves + [m])[..|moves|] == moves;
      ExchangesAreBounded(scripts, capacity, moves + [m]);
      moves' := CanFinish(scripts, capacity, moves + [m]);
    }
  }

  function ScriptSizes(scripts: seq<seq<Incoming>>): nat {
    if scripts == [] then 0 else ScriptSizes(scripts[..|scripts| - 1]) + |scripts[|scripts| - 1]|
  }

  lemma {:induction false} MovesAreCounted(scripts: seq<seq<Incoming>>, capacity: nat, moves: seq<Move>)
    requires RunExchange(scripts, capacity, moves).Some?
    ensures var s := RunExchange(scripts, capacity, moves).value; |moves| == |s.order| + s.received
  {
    if moves != [] {
      MovesAreCounted(scripts, capacity, moves[..|moves| - 1]);
    }
  }

  lemma {:induction false} OrderIsBounded(scripts: seq<seq<Incoming>>, order: seq<nat>)
    requires WithinScripts(scripts, order)
    ensures |order| <= ScriptSizes(scripts)
  {
    OrderIsSum(scripts, order);
    SumIsBounded(scripts, order, |scripts|);
    assert scripts[..|scripts|] == scripts;
  }

  // Messages sent by the first n children.
  function SentByAll(order: seq<nat>, n: nat): nat {
    if n == 0 then 0 else SentByAll(order, n - 1) + SentBy(order, n - 1)
  }

  lemma {:induction false} OrderIsSum(scripts: seq<seq<Incoming>>, order: seq<nat>)
    requires forall k :: 0 <= k < |order| ==> order[k] < |scripts|
    ensures |order| == SentByAll(order, |scripts|)
  {
    if order == [] {
      NobodySent(|scripts|);
    } else {
      var n := |order| - 1;
      OrderIsSum(scripts, order[..n]);
      SentByAllAppend(order[..n], order[n], |scripts|);
      assert order == order[..n] + [order[n]];
    }
  }

  lemma {:induction false} NobodySent(n: nat)
    ensures SentByAll([], n) == 0
  {
    if n > 0 {
      NobodySent(n - 1);
    }
  }

  lemma {:induction false} SentByAllAppend(order: seq<nat>, j: nat, n: nat)
    ensures SentByAll(order + [j], n) == SentByAll(order, n) + if j < n then 1 else 0
  {
    if n > 0 {
      SentByAllAppend(order, j, n - 1);
      SentByAppend(order, j, n - 1);
    }
  }

  lemma {:induction false} SumIsBounded(scripts: seq<seq<Incoming>>, order: seq<nat>, n: nat)
    requires WithinScripts(scripts, order) && n <= |scripts|
    ensures SentByAll(order, n) <= ScriptSizes(scripts[..n])
  {
    if n > 0 {
      SumIsBounded(scripts, order, n - 1);
      assert scripts[..n][..n - 1] == scripts[..n - 1];
    }
  }

  // ---------- What the parent counts ----------

  function MessageBag(m: Incoming): multiset<Word> {
    match m case Data(ps) => Bag(ps) case _ => multiset{}
  }

  function TrafficBag(traffic: seq<Incoming>): multiset<Word> {
    if traffic == [] then multiset{} else TrafficBag(traffic[..|traffic| - 1]) + MessageBag(traffic[|traffic| - 1])
  }

  lemma {:induction false} MergeBag(traffic: seq<Incoming>)
    ensures Bag(Merge(traffic)) == TrafficBag(traffic) && Distinct(Merge(traffic))
  {
    if traffic != [] {
      var n := |traffic| - 1;
      MergeBag(traffic[..n]);
      if traffic[n].Data? {
        AddAllBag(Merge(traffic[..n]), traffic[n].pairs);
      }
    }
  }

  // What child i has sent so far.
  function ChildBag(scripts: seq<seq<Incoming>>, order: seq<nat>, i: nat): multiset<Word>
    requires i < |scripts| && WithinScripts(scripts, order)
  {
    TrafficBag(scripts[i][..SentBy(order, i)])
  }

  lemma ChildBagAppend(scripts: seq<seq<Incoming>>, order: seq<nat>, j: nat, i: nat)
    requires i < |scripts| && WithinScripts(scripts, order) && WithinScripts(scripts, order + [j])
    ensures ChildBag(scripts, order + [j], i) ==
            ChildBag(scripts, order, i) + if j == i then MessageBag(Sent(scripts, j, SentBy(order, j))) else multiset{}
  {
    SentByAppend(order, j, i);
    if j == i {
      var k := SentBy(order, j);
      assert SentBy(order + [j], i) == k + 1 <= |scripts[j]|;
      OneMoreMessage(scripts[j], k);
    }
  }

  lemma OneMoreMessage(script: seq<Incoming>, k: nat)
    requires k < |script|
    ensures TrafficBag(script[..k + 1]) == TrafficBag(script[..k]) + MessageBag(script[k])
  {
    assert script[..k + 1][..k] == script[..k];
  }

  // What the first n children have sent so far.
  function SentBag(scripts: seq<seq<Incoming>>, order: seq<nat>, n: nat): multiset<Word>
    requires n <= |scripts| && WithinScripts(scripts, order)
  {
    if n == 0 then multiset{}
    else SentBag(scripts, order, n - 1) + ChildBag(scripts, order, n - 1)
  }

  lemma {:induction false} SentBagAppend(scripts: seq<seq<Incoming>>, order: seq<nat>, j: nat, n: nat)
    requires n <= |scripts| && WithinScripts(scripts, order) && WithinScripts(scripts, order + [j])
    ensures SentBag(scripts, order + [j], n) ==
            SentBag(scripts, order, n) + if j < n then MessageBag(Sent(scripts, j, SentBy(order, j))) else multiset{}
  {
    hide *;
    if n == 0 {
      SentBagOfNone(scripts, order);
      SentBagOfNone(scripts, order + [j]);
    } else {
      SentBagAppend(scripts, order, j, n - 1);
      ChildBagAppend(scripts, order, j, n - 1);
      SentBagLast(scripts, order, n);
      SentBagLast(scripts, order + [j], n);
      OneMoreChild(SentBag(scripts, order, n - 1), ChildBag(scripts, order, n - 1),
                   SentBag(scripts, order + [j], n - 1), ChildBag(scripts, order + [j], n - 1),
                   MessageBag(Sent(scripts, j, SentBy(order, j))), j < n - 1, j == n - 1);
    }
  }

  lemma SentBagOfNone(scripts: seq<seq<Incoming>>, order: seq<nat>)
    requires WithinScripts(scripts, order)
    ensures SentBag(scripts, order, 0) == multiset{}
  {
  }

  lemma SentBagLast(scripts: seq<seq<Incoming>>, order: seq<nat>, n: nat)
    requires 0 < n <= |scripts| && WithinScripts(scripts, order)
    ensures SentBag(scripts, order, n) == SentBag(scripts, order, n - 1) + ChildBag(scripts, order, n - 1)
  {
  }

  // A message goes to the bag of the first children or to that of the next one, not to both.
  lemma OneMoreChild(a: multiset<Word>, b: multiset<Word>, a': multiset<Word>, b': multiset<Word>, x: multiset<Word>,
                     first: bool, second: bool)
    requires !(first && second)
    requires a' == a + (if first then x else multiset{}) && b' == b + (if second then x else multiset{})
    ensures a' + b' == (a + b) + (if first || second then x else multiset{})
  {
  }

  lemma {:induction false} NothingSent(scripts: seq<seq<Incoming>>, n: nat)
    requires n <= |scripts| && WithinScripts(scripts, [])
    ensures SentBag(scripts, [], n) == multiset{}
  {
    if n > 0 {
      NothingSent(scripts, n - 1);
      assert scripts[n - 1][..0] == [];
    }
  }

  /** Interleaving does not matter: what was sent is what each child sent. */
  lemma {:induction false} TrafficIsSum(scripts: seq<seq<Incoming>>, order: seq<nat>)
    requires WithinScripts(scripts, order)
    ensures TrafficBag(Traffic(scripts, order)) == SentBag(scripts, order, |scripts|)
  {
    if order == [] {
      NothingSent(scripts, |scripts|);
    } else {
      var n := |order| - 1;
      OrderedPrefix(scripts, order, n);
      TrafficIsSum(scripts, order[..n]);
      assert order == order[..n] + [order[n]];
      SentBagAppend(scripts, order[..n], order[n], |scripts|);
      assert Traffic(scripts, order)[..n] == Traffic(scripts, order[..n]);
    }
  }

  function ScriptBags(scripts: seq<seq<Incoming>>): multiset<Word> {
    if scripts == [] then multiset{} else ScriptBags(scripts[..|scripts| - 1]) + TrafficBag(scripts[|scripts| - 1])
  }

  lemma {:induction false} AllSentBag(scripts: seq<seq<Incoming>>, order: seq<nat>, n: nat)
    requires n <= |scripts| && WithinScripts(scripts, order)
    requires forall i :: 0 <= i < |scripts| ==> SentBy(order, i) == |scripts[i]|
    ensures SentBag(scripts, order, n) == ScriptBags(scripts[..n])
  {
    hide SentBy, TrafficBag, WithinScripts;
    if n > 0 {
      AllSentBag(scripts, order, n - 1);
      assert scripts[..n][..n - 1] == scripts[..n - 1];
      assert scripts[n - 1][..|scripts[n - 1]|] == scripts[n - 1];
    }
  }

  /** When the parent stops it has counted exactly what all children sent, in whatever order it came. */
  lemma ParentCountsAll(scripts: seq<seq<Incoming>>, capacity: nat, moves: seq<Move>)
    requires Scripts(scripts) && RunExchange(scripts, capacity, moves).Some?
    requires Stopped(scripts, RunExchange(scripts, capacity, moves).value)
    ensures var total := Merge(Received(scripts, RunExchange(scripts, capacity, moves).value));
            Bag(total) == ScriptBags(scripts) && Distinct(total)
  {
    var s := RunExchange(scripts, capacity, moves).value;
    RunIsOrdered(scripts, capacity, moves);
    StoppedMeansAll(scripts, capacity, moves);
    assert s.order[..s.received] == s.order;
    MergeBag(Traffic(scripts, s.order));
    TrafficIsSum(scripts, s.order);
    AllSentBag(scripts, s.order, |scripts|);
    assert scripts[..|scripts|] == scripts;
  }
}
