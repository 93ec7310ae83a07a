/** The word count programs from files through bytes to output: what the children send, what the parent's loop makes
    of it, and the thread version. */
module WordCountLoops {
  import opened Collections
  import opened WordCounts
  import opened WordCountOutput
  import opened WordCountArray
  import opened MessageCodec
  import opened MessageBuffers
  import opened WordCountPrograms
  import opened WordCountTheorems

  // ---------- Bytes on the way ----------

  function Decoded(arrivals: seq<seq<Byte>>): (r: seq<Incoming>)
    ensures |r| == |arrivals|
  {
    seq(|arrivals|, k requires 0 <= k < |arrivals| => Decode(arrivals[k]))
  }

  // What a child with this script sends: messages for these batches.
  predicate Sends(script: seq<Incoming>, batches: seq<seq<Pair>>, size: nat) {
    size >= INT_SIZE && script == ScriptOf(batches) && forall b :: b in batches ==> FitsMessage(b, size)
  }

  predicate AllSend(scripts: seq<seq<Incoming>>, batches: seq<seq<seq<Pair>>>, size: nat) {
    |batches| == |scripts| && forall i :: 0 <= i < |scripts| ==> Sends(scripts[i], batches[i], size)
  }

  // The k-th arrival holds the next message of the child that sent it, and whatever the buffer held behind.
  predicate Arrives(scripts: seq<seq<Incoming>>, batches: seq<seq<seq<Pair>>>, size: nat, order: seq<nat>, k: nat,
                    arrival: seq<Byte>)
    requires AllSend(scripts, batches, size) && k < |order|
  {
    var i, n := order[k], SentBy(order[..k], order[k]);
    i < |scripts| && assert Sends(scripts[i], batches[i], size); n < |Messages(batches[i], size)|
    && var m := Messages(batches[i], size)[n]; |m| <= |arrival| && arrival[..|m|] == m
  }

  lemma {:induction false} TrafficAt(scripts: seq<seq<Incoming>>, order: seq<nat>, k: nat)
    requires k < |order|
    ensures Traffic(scripts, order)[k] == Sent(scripts, order[k], SentBy(order[..k], order[k]))
  {
    hide Sent, SentBy;
    var n := |order| - 1;
    if k < n {
      TrafficAt(scripts, order[..n], k);
      assert order[..n][..k] == order[..k];
    }
  }

  lemma ArrivalDecodes(scripts: seq<seq<Incoming>>, batches: seq<seq<seq<Pair>>>, size: nat, order: seq<nat>, k: nat,
                       arrival: seq<Byte>)
    requires AllSend(scripts, batches, size) && k < |order| && Arrives(scripts, batches, size, order, k, arrival)
    ensures Decode(arrival) == Sent(scripts, order[k], SentBy(order[..k], order[k]))
  {
    hide Decode, SentBy, Messages, ScriptOf;
    var i, n := order[k], SentBy(order[..k], order[k]);
    assert Sends(scripts[i], batches[i], size);
    var m := Messages(batches[i], size)[n];
    ScriptOfIsScript(batches[i]);
    MessagesDecode(batches[i], size, 0, []);
    MessagesDecode(batches[i], size, n, arrival[|m|..]);
    assert m + arrival[|m|..] == arrival;
  }

  /** What arrives as bytes decodes to the traffic of the exchange. */
  lemma ArrivalsDecode(scripts: seq<seq<Incoming>>, batches: seq<seq<seq<Pair>>>, size: nat, order: seq<nat>,
                       arrivals: seq<seq<Byte>>, k: nat)
    requires AllSend(scripts, batches, size) && k <= |arrivals| == |order|
    requires forall j :: 0 <= j < |order| ==> Arrives(scripts, batches, size, order, j, arrivals[j])
    ensures Decoded(arrivals[..k]) == Traffic(scripts, order[..k])
  {
    hide Arrives, AllSend, Decode, Sent;
    forall j | 0 <= j < k ensures Decoded(arrivals[..k])[j] == Traffic(scripts, order[..k])[j] {
      ArrivalDecodes(scripts, batches, size, order, j, arrivals[j]);
      TrafficAt(scripts, order[..k], j);
      assert order[..k][..j] == order[..j];
    }
  }

  /** From bytes to counts: where the parent's loop below stops, everything that was sent has arrived, and the
      loop has counted exactly what the children sent. */
  lemma LoopCountsAll(scripts: seq<seq<Incoming>>, batches: seq<seq<seq<Pair>>>, size: nat, order: seq<nat>,
                      arrivals: seq<seq<Byte>>, k: nat)
    requires AllSend(scripts, batches, size) && WithinScripts(scripts, order) && k <= |arrivals| == |order|
    requires forall j :: 0 <= j < |order| ==> Arrives(scripts, batches, size, order, j, arrivals[j])
    requires EndCount(Decoded(arrivals[..k])) == |scripts|
    ensures k == |arrivals|
    ensures var total := Merge(Decoded(arrivals[..k])); Bag(total) == ScriptBags(scripts) && Distinct(total)
  {
    hide Bag, Distinct, ScriptBags, Merge, EndCount, Arrives, TrafficBag, Traffic, WithinScripts, Decoded;
    ArrivalsDecode(scripts, batches, size, order, arrivals, k);
    ScriptsOfBatches(scripts, batches, size);
    AllEndsMeanAll(scripts, order, k);
    assert order[..k] == order;
    MergeBag(Traffic(scripts, order));
    TrafficIsSum(scripts, order);
    AllSentBag(scripts, order, |scripts|);
    assert scripts[..|scripts|] == scripts;
  }

  lemma ScriptsOfBatches(scripts: seq<seq<Incoming>>, batches: seq<seq<seq<Pair>>>, size: nat)
    requires AllSend(scripts, batches, size)
    ensures Scripts(scripts)
  {
    forall i | 0 <= i < |scripts| ensures Script(scripts[i]) {
      assert Sends(scripts[i], batches[i], size);
      ScriptOfIsScript(batches[i]);
    }
  }

  lemma {:induction false} ChildScriptsAt(files: seq<seq<Word>>, size: nat, i: nat)
    requires AllReadable(files) && size >= 128 && i < |files|
    ensures |ChildScripts(files, size)| == |files| && ChildScripts(files, size)[i] == ChildScript(files[i], size)
  {
    hide ChildScript;
    var n := |files| - 1;
    if n > 0 {
      ChildScriptsAt(files[..n], size, if i < n then i else 0);
    }
  }

  lemma {:induction false} ChildScriptsAsWrittenAt(files: seq<seq<Word>>, size: nat, i: nat)
    requires AllStop(files, size) && i < |files|
    ensures |ChildScriptsAsWritten(files, size)| == |files|
    ensures ChildScriptsAsWritten(files, size)[i] == ChildScriptAsWritten(files[i], size)
  {
    hide ChildScriptAsWritten, Stops;
    var n := |files| - 1;
    if n > 0 {
      ChildScriptsAsWrittenAt(files[..n], size, if i < n then i else 0);
    }
  }

  /** The scripts of the children are what SendPairs and SendPairsAsWritten send. */
  lemma ChildSends(files: seq<seq<Word>>, size: nat, i: nat)
    requires AllReadable(files) && size >= 128 && i < |files|
    ensures |ChildScripts(files, size)| == |files|
    ensures Sends(ChildScripts(files, size)[i], ChildBatches(files[i], size), size)
  {
    ChildScriptsAt(files, size, i);
    CountsArePackable(files[i], size);
    BatchesFit(CountWords(files[i]), 0, size);
  }

  lemma ChildSendsAsWritten(files: seq<seq<Word>>, size: nat, i: nat)
    requires AllStop(files, size) && i < |files|
    ensures |ChildScriptsAsWritten(files, size)| == |files|
    ensures Sends(ChildScriptsAsWritten(files, size)[i], ChildBatchesAsWritten(files[i], size), size)
  {
    ChildScriptsAsWrittenAt(files, size, i);
    CountsArePackable(files[i], size);
    BatchesAsWrittenFit(CountWords(files[i]), 0, size);
  }

  /** The arrivals of a complete exchange are well formed and hold all end markers, as the parent's loop below
      expects them. */
  lemma CompleteExchange(scripts: seq<seq<Incoming>>, batches: seq<seq<seq<Pair>>>, size: nat, order: seq<nat>,
                         arrivals: seq<seq<Byte>>)
    requires AllSend(scripts, batches, size) && Exchange(scripts, batches, size, order, arrivals)
    requires forall i :: 0 <= i < |scripts| ==> SentBy(order, i) == |scripts[i]|
    ensures forall j :: 0 <= j < |arrivals| ==> Decode(arrivals[j]) != Malformed
    ensures EndCount(Decoded(arrivals)) == |scripts|
  {
    hide Decode, EndCount, Traffic, Sent, Arrives, AllSend;
    ScriptsOfBatches(scripts, batches, size);
    forall j | 0 <= j < |arrivals| ensures Decode(arrivals[j]) != Malformed {
      ArrivalDecodes(scripts, batches, size, order, j, arrivals[j]);
      SentIsWellFormed(scripts, order, j);
    }
    ArrivalsDecode(scripts, batches, size, order, arrivals, |arrivals|);
    assert arrivals[..|arrivals|] == arrivals && order[..|order|] == order;
    EndsAreComplete(scripts, order);
    assert Complete(scripts, order) == Below(|scripts|);
  }

  lemma SentIsWellFormed(scripts: seq<seq<Incoming>>, order: seq<nat>, j: nat)
    requires Scripts(scripts) && WithinScripts(scripts, order) && j < |order|
    ensures Sent(scripts, order[j], SentBy(order[..j], order[j])) != Malformed
  {
    var i, n := order[j], SentBy(order[..j], order[j]);
    assert order[..j + 1] == order[..j] + [i];
    SentByAppend(order[..j], i, i);
    SentByPrefix(order, j + 1, i);
    assert Script(scripts[i]);
  }

  // ---------- From files through bytes to output ----------

  function AllBatches(files: seq<seq<Word>>, size: nat): (batches: seq<seq<seq<Pair>>>)
    requires AllReadable(files) && size >= 128
    ensures AllSend(ChildScripts(files, size), batches, size)
  {
    ChildrenSend(files, size);
    seq(|files|, i requires 0 <= i < |files| => ChildBatches(files[i], size))
  }

  lemma ChildrenSend(files: seq<seq<Word>>, size: nat)
    requires AllReadable(files) && size >= 128
    ensures |ChildScripts(files, size)| == |files|
    ensures forall i :: 0 <= i < |files| ==> Sends(ChildScripts(files, size)[i], ChildBatches(files[i], size), size)
  {
    hide ChildScripts, ChildBatches, Sends;
    ChildScriptsCarryAll(files, size);
    forall i | 0 <= i < |files| ensures Sends(ChildScripts(files, size)[i], ChildBatches(files[i], size), size) {
      ChildSends(files, size, i);
    }
  }

  function AllBatchesAsWritten(files: seq<seq<Word>>, size: nat): (batches: seq<seq<seq<Pair>>>)
    requires AllStop(files, size)
    ensures AllSend(ChildScriptsAsWritten(files, size), batches, size)
  {
    ChildrenSendAsWritten(files, size);
    seq(|files|, i requires 0 <= i < |files| => ChildBatchesAsWritten(files[i], size))
  }

  lemma ChildrenSendAsWritten(files: seq<seq<Word>>, size: nat)
    requires AllStop(files, size)
    ensures |ChildScriptsAsWritten(files, size)| == |files|
    ensures forall i :: 0 <= i < |files| ==>
              Sends(ChildScriptsAsWritten(files, size)[i], ChildBatchesAsWritten(files[i], size), size)
  {
    hide ChildScriptsAsWritten, ChildBatchesAsWritten, Sends, Carried;
    AsWrittenCarries(files, size);
    forall i | 0 <= i < |files|
      ensures Sends(ChildScriptsAsWritten(files, size)[i], ChildBatchesAsWritten(files[i], size), size)
    {
      ChildSendsAsWritten(files, size, i);
    }
  }

  // The bytes of an exchange in which the children with these scripts send in this order.
  ghost predicate Exchange(scripts: seq<seq<Incoming>>, batches: seq<seq<seq<Pair>>>, size: nat, order: seq<nat>,
                           arrivals: seq<seq<Byte>>)
    requires AllSend(scripts, batches, size)
  {
    && WithinScripts(scripts, order) && |arrivals| == |order|
    && forall j :: 0 <= j < |order| ==> Arrives(scripts, batches, size, order, j, arrivals[j])
  }

  /** As meant: whatever order the messages of the files arrive in, where the parent's loop stops it has counted
      what a sequential count of all files counts, and writes the same. */
  lemma FilesToOutput(files: seq<seq<Word>>, size: nat, order: seq<nat>, arrivals: seq<seq<Byte>>, k: nat,
                      byProcesses: seq<Pair>, sequential: seq<Pair>)
    requires AllReadable(files) && size >= 128
    requires Exchange(ChildScripts(files, size), AllBatches(files, size), size, order, arrivals)
    requires k <= |arrivals| && EndCount(Decoded(arrivals[..k])) == |files|
    requires SortOf(byProcesses, Merge(Decoded(arrivals[..k]))) && SortOf(sequential, CountWords(Join(files)))
    ensures byProcesses == sequential
    ensures Counted(Join(files), byProcesses) && InOrder(byProcesses)
  {
    hide Merge, EndCount, Decoded, AllBatches, Bag, Distinct, SortOf, WithinScripts, Arrives;
    ChildScriptsCarryAll(files, size);
    LoopCountsAll(ChildScripts(files, size), AllBatches(files, size), size, order, arrivals, k);
    CountWordsBag(Join(files));
    JoinWords(files);
    OutputIsDetermined(Merge(Decoded(arrivals[..k])), CountWords(Join(files)), byProcesses, sequential);
    WrittenRight(Join(files), sequential);
  }

  /** As written, on files for which the packer stops: it writes the same if and only if every file fits into one
      message. */
  lemma FilesToOutputAsWritten(files: seq<seq<Word>>, size: nat, order: seq<nat>, arrivals: seq<seq<Byte>>, k: nat,
                               byProcesses: seq<Pair>, sequential: seq<Pair>)
    requires AllStop(files, size)
    requires Exchange(ChildScriptsAsWritten(files, size), AllBatchesAsWritten(files, size), size, order, arrivals)
    requires k <= |arrivals| && EndCount(Decoded(arrivals[..k])) == |files|
    requires SortOf(byProcesses, Merge(Decoded(arrivals[..k]))) && SortOf(sequential, CountWords(Join(files)))
    ensures byProcesses == sequential <==> AllFit(files, size)
  {
    hide Merge, EndCount, Decoded, AllBatchesAsWritten, Bag, Distinct, AllFit, WithinScripts, Arrives, Sorted;
    AsWrittenCarries(files, size);
    LoopCountsAll(ChildScriptsAsWritten(files, size), AllBatchesAsWritten(files, size), size, order, arrivals, k);
    SameOutputIff(files, size, Merge(Decoded(arrivals[..k])), byProcesses, sequential);
  }

  /** The parent's loop over the arriving messages: it stops at the end marker that completes the count of
      children, having merged everything before it. */
  method AwaitChildProcesses(arrivals: seq<seq<Byte>>, inFileCount: nat) returns (total: WordCountArray, k: nat)
    requires forall j :: 0 <= j < |arrivals| ==> Decode(arrivals[j]) != Malformed
    requires EndCount(Decoded(arrivals)) >= inFileCount
    ensures k <= |arrivals| && EndCount(Decoded(arrivals[..k])) == inFileCount
    ensures forall j :: 0 <= j < k ==> EndCount(Decoded(arrivals[..j])) < inFileCount
    ensures total.Valid() && total.Contents() == Merge(Decoded(arrivals[..k]))
  {
    hide Decode, EndCount, Merge, Decoded;
    NothingArrived();
    assert arrivals[..0] == [];
    assert arrivals[..|arrivals|] == arrivals;
    total := new WordCountArray();
    var completedChildrenCount := 0;
    k := 0;
    while completedChildrenCount < inFileCount
      invariant 0 <= k <= |arrivals| && completedChildrenCount == EndCount(Decoded(arrivals[..k])) <= inFileCount
      invariant forall j :: 0 <= j < k ==> EndCount(Decoded(arrivals[..j])) < inFileCount
      invariant fresh(total) && fresh(total.pairs) && total.Valid() && total.pairs.Length > 0
      invariant total.Contents() == Merge(Decoded(arrivals[..k]))
      decreases |arrivals| - k
    {
      var eof := ReceiveNext(arrivals, k, total);
      k := k + 1;
      if eof {
        completedChildrenCount := completedChildrenCount + 1;
      }
    }
  }

  lemma NothingArrived()
    ensures EndCount(Decoded([])) == 0 && Merge(Decoded([])) == []
  {
  }

  method ReceiveNext(arrivals: seq<seq<Byte>>, k: nat, total: WordCountArray) returns (eof: bool)
    requires k < |arrivals| && Decode(arrivals[k]) != Malformed
    requires total.Valid() && total.pairs.Length > 0 && total.Contents() == Merge(Decoded(arrivals[..k]))
    modifies total, total.pairs
    ensures total.Valid() && total.pairs.Length > 0 && (total.pairs == old(total.pairs) || fresh(total.pairs))
    ensures total.Contents() == Merge(Decoded(arrivals[..k + 1]))
    ensures EndCount(Decoded(arrivals[..k + 1])) == EndCount(Decoded(arrivals[..k])) + if eof then 1 else 0
  {
    var message := arrivals[k];
    var buf := new Byte[|message|](j requires 0 <= j < |message| => message[j]);
    assert buf[..] == message;
    eof := ReceiveMessage(buf, total);
    OneArrival(arrivals, k);
  }

  lemma OneArrival(arrivals: seq<seq<Byte>>, k: nat)
    requires k < |arrivals|
    ensures EndCount(Decoded(arrivals[..k + 1]))
         == EndCount(Decoded(arrivals[..k])) + if Decode(arrivals[k]) == Eof then 1 else 0
    ensures Merge(Decoded(arrivals[..k + 1])) ==
            match Decode(arrivals[k])
            case Data(ps) => AddAll(Merge(Decoded(arrivals[..k])), ps)
            case _ => Merge(Decoded(arrivals[..k]))
  {
    assert Decoded(arrivals[..k + 1])[..k] == Decoded(arrivals[..k]);
  }

  /** The thread version: threads finish in any order and fill their own slots; after all are joined the
      slots are merged in the order of the files. */
  method CountWithThreads(files: seq<seq<Word>>, finish: seq<nat>) returns (total: WordCountArray)
    requires AllReadable(files) && forall i :: 0 <= i < |files| ==> i in finish
    requires forall k :: 0 <= k < |finish| ==> finish[k] < |files|
    ensures total.Valid() && total.Contents() == ThreadTotal(files)
  {
    total := new WordCountArray();
    var subArrays := FillSlots(files, finish, total);
    for i := 0 to |files|
      invariant fresh(total) && fresh(total.pairs) && total.Valid() && total.pairs.Length > 0
      invariant forall k :: 0 <= k < |files| ==> Filled(subArrays[k], files[k]) && Apart(subArrays[k], total)
      invariant total.Contents() == ThreadTotal(files[..i])
    {
      total.AddArray(subArrays[i]);
      assert files[..i + 1][..i] == files[..i];
    }
    assert files[..|files|] == files;
  }

  ghost predicate Filled(a: WordCountArray, tokens: seq<Word>)
    reads a, a.pairs
  {
    a.Valid() && a.Contents() == CountWords(tokens)
  }

  ghost predicate Apart(a: WordCountArray, total: WordCountArray)
    reads a, total
  {
    a != total && a.pairs != total.pairs
  }

  method FillSlots(files: seq<seq<Word>>, finish: seq<nat>, total: WordCountArray)
      returns (subArrays: seq<WordCountArray>)
    requires AllReadable(files) && forall i :: 0 <= i < |files| ==> i in finish
    requires forall k :: 0 <= k < |finish| ==> finish[k] < |files|
    ensures |subArrays| == |files|
    ensures forall k :: 0 <= k < |files| ==>
              Filled(subArrays[k], files[k]) && fresh(subArrays[k]) && fresh(subArrays[k].pairs)
  {
    subArrays := seq(|files|, _ => total);
    for k := 0 to |finish|
      invariant |subArrays| == |files|
      invariant forall j :: 0 <= j < k ==>
                  var i := finish[j];
                  Filled(subArrays[i], files[i]) && fresh(subArrays[i]) && fresh(subArrays[i].pairs)
    {
      var slot := ParseInFile(files[finish[k]]);
      subArrays := subArrays[finish[k] := slot];
    }
    forall k | 0 <= k < |files|
      ensures Filled(subArrays[k], files[k]) && fresh(subArrays[k]) && fresh(subArrays[k].pairs)
    {
      assert k in finish;
    }
  }
}
