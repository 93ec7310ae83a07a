/** How a child cuts its list of pairs into messages: as it was meant, with the cursor left on the first
    pair that did not fit, and as it is written, with the cursor moved back by one more. */
module MessagePacker {
  import opened Collections
  import opened WordCounts
  import opened MessageCodec

  // Every pair fits into a message of its own.
  predicate Packable(ps: seq<Pair>, size: nat) {
    AllSendable(ps) && IsInt(|ps|) && forall k :: 0 <= k < |ps| ==> INT_SIZE + PairSize(ps[k]) <= size
  }

  // How many pairs from i on the packing loop takes into the room that is left.
  function PackCount(ps: seq<Pair>, i: nat, room: int): (c: nat)
    requires i <= |ps|
    ensures i + c <= |ps|
    decreases |ps| - i
  {
    if i == |ps| || PairSize(ps[i]) > room then 0 else 1 + PackCount(ps, i + 1, room - PairSize(ps[i]))
  }

  lemma SizeCons(p: Pair, ps: seq<Pair>)
    ensures PairsSize([p] + ps) == PairSize(p) + PairsSize(ps)
  {
    if ps == [] {
      assert [p] + ps == [p];
      assert PairsSize([p]) == PairsSize([p][..0]) + PairSize(p);
    } else {
      SizeCons(p, ps[..|ps| - 1]);
      assert ([p] + ps)[..|ps|] == [p] + ps[..|ps| - 1];
    }
  }

  /** The loop takes as many pairs as fit, and no more. */
  lemma {:induction false} PackIsGreedy(ps: seq<Pair>, i: nat, room: int, n: nat)
    requires i + n <= |ps|
    ensures n <= PackCount(ps, i, room) <==> n == 0 || PairsSize(ps[i..i + n]) <= room
    decreases n
  {
    if n > 0 {
      assert ps[i..i + n] == [ps[i]] + ps[i + 1..i + n];
      SizeCons(ps[i], ps[i + 1..i + n]);
      PackIsGreedy(ps, i + 1, room - PairSize(ps[i]), n - 1);
    }
  }

  lemma PackTakesOne(ps: seq<Pair>, i: nat, size: nat)
    requires Packable(ps, size) && i < |ps|
    ensures PackCount(ps, i, size - INT_SIZE) >= 1
  {
  }

  function Flat(batches: seq<seq<Pair>>): seq<Pair> {
    if batches == [] then [] else batches[0] + Flat(batches[1..])
  }

  // ---------- As meant ----------

  function Batches(ps: seq<Pair>, i: nat, size: nat): seq<seq<Pair>>
    requires Packable(ps, size) && i <= |ps|
    decreases |ps| - i
  {
    if i == |ps| then []
    else
      PackTakesOne(ps, i, size);
      var j := i + PackCount(ps, i, size - INT_SIZE);
      [ps[i..j]] + Batches(ps, j, size)
  }

  /** As meant, the messages carry every pair exactly once and in order. */
  lemma {:induction false} BatchesCarryAll(ps: seq<Pair>, i: nat, size: nat)
    requires Packable(ps, size) && i <= |ps|
    ensures Flat(Batches(ps, i, size)) == ps[i..]
    decreases |ps| - i
  {
    if i < |ps| {
      PackTakesOne(ps, i, size);
      var j := i + PackCount(ps, i, size - INT_SIZE);
      BatchesCarryAll(ps, j, size);
      assert ([ps[i..j]] + Batches(ps, j, size))[1..] == Batches(ps, j, size);
      assert ps[i..j] + ps[j..] == ps[i..];
    }
  }

  // ---------- As written ----------

  // Where the next message starts: one pair back, unless everything was packed.
  function NextCursor(ps: seq<Pair>, i: nat, size: nat): (j: nat)
    requires Packable(ps, size) && i < |ps|
    ensures i <= j <= |ps|
  {
    PackTakesOne(ps, i, size);
    var j := i + PackCount(ps, i, size - INT_SIZE);
    if j == |ps| then j else j - 1
  }

  // The cursor after k messages.
  function Cursor(ps: seq<Pair>, size: nat, k: nat): (i: nat)
    requires Packable(ps, size)
    ensures i <= |ps|
  {
    if k == 0 then 0
    else var i := Cursor(ps, size, k - 1); if i == |ps| then i else NextCursor(ps, i, size)
  }

  ghost predicate Terminates(ps: seq<Pair>, size: nat)
    requires Packable(ps, size)
  {
    exists k :: Cursor(ps, size, k) == |ps|
  }

  // Any two neighbours fit into one message together.
  predicate NeighboursFit(ps: seq<Pair>, size: nat) {
    forall k :: 0 <= k < |ps| - 1 ==> INT_SIZE + PairSize(ps[k]) + PairSize(ps[k + 1]) <= size
  }

  lemma PairOfSizes(ps: seq<Pair>, i: nat)
    requires i + 2 <= |ps|
    ensures PairsSize(ps[i..i + 2]) == PairSize(ps[i]) + PairSize(ps[i + 1])
  {
    assert ps[i..i + 2] == [ps[i]] + [ps[i + 1]];
    SizeCons(ps[i], [ps[i + 1]]);
    assert PairsSize([ps[i + 1]]) == PairsSize([ps[i + 1]][..0]) + PairSize(ps[i + 1]);
  }

  lemma CursorAdvances(ps: seq<Pair>, i: nat, size: nat)
    requires Packable(ps, size) && i < |ps|
    requires i + 1 < |ps| ==> INT_SIZE + PairSize(ps[i]) + PairSize(ps[i + 1]) <= size
    ensures NextCursor(ps, i, size) > i
  {
    PackTakesOne(ps, i, size);
    if i + 1 < |ps| {
      PairOfSizes(ps, i);
      PackIsGreedy(ps, i, size - INT_SIZE, 2);
    }
  }

  // The cursor never passes a pair that does not fit together with its successor.
  lemma CursorHeld(ps: seq<Pair>, i: nat, size: nat, b: nat)
    requires Packable(ps, size) && i <= b && b + 1 < |ps|
    requires INT_SIZE + PairSize(ps[b]) + PairSize(ps[b + 1]) > size
    ensures NextCursor(ps, i, size) <= b
  {
    PackTakesOne(ps, i, size);
    var c := PackCount(ps, i, size - INT_SIZE);
    if i + c > b + 1 {
      PackIsGreedy(ps, i, size - INT_SIZE, b + 2 - i);
      PairOfSizes(ps, b);
      SizeOfSuffix(ps, i, b, b + 2);
    }
  }

  lemma {:induction false} SizeOfSuffix(ps: seq<Pair>, i: nat, b: nat, j: nat)
    requires i <= b <= j <= |ps|
    ensures PairsSize(ps[b..j]) <= PairsSize(ps[i..j])
    decreases b - i
  {
    if i < b {
      SizeOfSuffix(ps, i + 1, b, j);
      assert ps[i..j] == [ps[i]] + ps[i + 1..j];
      SizeCons(ps[i], ps[i + 1..j]);
    }
  }

  lemma {:induction false} HeldForever(ps: seq<Pair>, size: nat, b: nat, k: nat)
    requires Packable(ps, size) && b + 1 < |ps|
    requires INT_SIZE + PairSize(ps[b]) + PairSize(ps[b + 1]) > size
    ensures Cursor(ps, size, k) <= b
  {
    if k > 0 {
      HeldForever(ps, size, b, k - 1);
      CursorHeld(ps, Cursor(ps, size, k - 1), size, b);
    }
  }

  lemma {:induction false} ReachesEnd(ps: seq<Pair>, size: nat, k: nat)
    requires Packable(ps, size) && NeighboursFit(ps, size)
    ensures Cursor(ps, size, k) >= k || Cursor(ps, size, k) == |ps|
  {
    if k > 0 {
      ReachesEnd(ps, size, k - 1);
      var i := Cursor(ps, size, k - 1);
      if i < |ps| {
        CursorAdvances(ps, i, size);
      }
    }
  }

  /** The packer as written stops if and only if any two neighbouring pairs fit into one message. */
  lemma TerminatesIff(ps: seq<Pair>, size: nat)
    requires Packable(ps, size)
    ensures Terminates(ps, size) <==> NeighboursFit(ps, size)
  {
    if NeighboursFit(ps, size) {
      ReachesEnd(ps, size, |ps|);
    } else {
      var b :| 0 <= b < |ps| - 1 && INT_SIZE + PairSize(ps[b]) + PairSize(ps[b + 1]) > size;
      forall k ensures Cursor(ps, size, k) != |ps| {
        HeldForever(ps, size, b, k);
      }
    }
  }

  /** So it stops for every list when a message has at least 256 bytes. */
  lemma LargeMessagesTerminate(ps: seq<Pair>, size: nat)
    requires AllSendable(ps) && IsInt(|ps|) && size >= 256
    ensures Packable(ps, size) && Terminates(ps, size)
  {
    TerminatesIff(ps, size);
  }

  /** Then every message that is cut short takes the cursor at least two pairs ahead. */
  lemma LargeMessagesAdvance(ps: seq<Pair>, i: nat, size: nat)
    requires Packable(ps, size) && size >= 256 && i < |ps|
    ensures NextCursor(ps, i, size) == |ps| || NextCursor(ps, i, size) >= i + 2
  {
    PackTakesOne(ps, i, size);
    if i + 3 <= |ps| {
      assert ps[i..i + 3] == [ps[i]] + ps[i + 1..i + 1 + 2];
      SizeCons(ps[i], ps[i + 1..i + 1 + 2]);
      PairOfSizes(ps, i + 1);
      PackIsGreedy(ps, i, size - INT_SIZE, 3);
    } else if i + 2 == |ps| {
      PairOfSizes(ps, i);
      PackIsGreedy(ps, i, size - INT_SIZE, 2);
    }
  }

  /** With messages of 128 bytes it never stops for two words of 63 letters. */
  lemma SmallMessagesHang(p: Pair, q: Pair)
    requires Sendable(p) && Sendable(q) && |p.word| == |q.word| == 63
    ensures Packable([p, q], 128) && !Terminates([p, q], 128)
  {
    TerminatesIff([p, q], 128);
    assert INT_SIZE + PairSize([p, q][0]) + PairSize([p, q][1]) > 128;
  }

  // The messages sent when it stops.
  function BatchesAsWritten(ps: seq<Pair>, i: nat, size: nat): seq<seq<Pair>>
    requires Packable(ps, size) && NeighboursFit(ps, size) && i <= |ps|
    decreases |ps| - i
  {
    if i == |ps| then []
    else
      CursorAdvances(ps, i, size);
      [ps[i..i + PackCount(ps, i, size - INT_SIZE)]] + BatchesAsWritten(ps, NextCursor(ps, i, size), size)
  }

  // What the first k messages carry, whether or not it ever stops.
  function SentAsWritten(ps: seq<Pair>, size: nat, k: nat): seq<seq<Pair>>
    requires Packable(ps, size)
  {
    if k == 0 then []
    else
      var i := Cursor(ps, size, k - 1);
      SentAsWritten(ps, size, k - 1) + if i == |ps| then [] else [ps[i..i + PackCount(ps, i, size - INT_SIZE)]]
  }

  lemma {:induction false} SentSoFar(ps: seq<Pair>, size: nat, k: nat)
    requires Packable(ps, size) && NeighboursFit(ps, size)
    ensures SentAsWritten(ps, size, k) + BatchesAsWritten(ps, Cursor(ps, size, k), size)
         == BatchesAsWritten(ps, 0, size)
  {
    hide *;
    if k == 0 {
      NothingSentYet(ps, size);
    } else {
      SentSoFar(ps, size, k - 1);
      SentOneMore(ps, size, k);
    }
  }

  lemma NothingSentYet(ps: seq<Pair>, size: nat)
    requires Packable(ps, size)
    ensures SentAsWritten(ps, size, 0) == [] && Cursor(ps, size, 0) == 0
  {
  }

  lemma SentOneMore(ps: seq<Pair>, size: nat, k: nat)
    requires Packable(ps, size) && NeighboursFit(ps, size) && k > 0
    ensures SentAsWritten(ps, size, k) + BatchesAsWritten(ps, Cursor(ps, size, k), size)
         == SentAsWritten(ps, size, k - 1) + BatchesAsWritten(ps, Cursor(ps, size, k - 1), size)
  {
    hide *;
    var i := Cursor(ps, size, k - 1);
    SentUnfolds(ps, size, k);
    if i < |ps| {
      AsWrittenUnfolds(ps, i, size);
      Associates(SentAsWritten(ps, size, k - 1), [ps[i..i + PackCount(ps, i, size - INT_SIZE)]],
                 BatchesAsWritten(ps, NextCursor(ps, i, size), size));
    }
  }

  lemma SentUnfolds(ps: seq<Pair>, size: nat, k: nat)
    requires Packable(ps, size) && k > 0
    ensures var i := Cursor(ps, size, k - 1);
            if i == |ps| then Cursor(ps, size, k) == i && SentAsWritten(ps, size, k) == SentAsWritten(ps, size, k - 1)
            else
              && Cursor(ps, size, k) == NextCursor(ps, i, size)
              && SentAsWritten(ps, size, k)
                 == SentAsWritten(ps, size, k - 1) + [ps[i..i + PackCount(ps, i, size - INT_SIZE)]]
  {
    hide Packable, NextCursor, PackCount;
  }

  /** Where it stops, it has sent exactly the batches it stops with. */
  lemma SentInAll(ps: seq<Pair>, size: nat)
    requires Packable(ps, size) && NeighboursFit(ps, size)
    ensures SentAsWritten(ps, size, |ps|) == BatchesAsWritten(ps, 0, size)
  {
    ReachesEnd(ps, size, |ps|);
    SentSoFar(ps, size, |ps|);
    assert BatchesAsWritten(ps, |ps|, size) == [];
  }

  /** Every message but the first starts with the last pair of the one before. */
  lemma {:induction false} LastPairIsRepeated(ps: seq<Pair>, i: nat, size: nat, k: nat)
    requires Packable(ps, size) && NeighboursFit(ps, size) && i <= |ps|
    requires k + 1 < |BatchesAsWritten(ps, i, size)|
    ensures var b := BatchesAsWritten(ps, i, size);
            b[k] != [] && b[k + 1] != [] && b[k + 1][0] == b[k][|b[k]| - 1]
    decreases |ps| - i
  {
    var j := NextCursor(ps, i, size);
    CursorAdvances(ps, i, size);
    PackTakesOne(ps, i, size);
    if k > 0 {
      LastPairIsRepeated(ps, j, size, k - 1);
    } else {
      PackTakesOne(ps, j, size);
    }
  }

  // ---------- What is delivered ----------

  predicate OneMessage(ps: seq<Pair>, size: nat) { ps == [] || INT_SIZE + PairsSize(ps) <= size }

  function LastOf(batch: seq<Pair>): seq<Pair> { if batch == [] then [] else [batch[|batch| - 1]] }

  // The last pairs of all batches but the last one.
  function Repeated(batches: seq<seq<Pair>>): seq<Pair> {
    if |batches| <= 1 then [] else LastOf(batches[0]) + Repeated(batches[1..])
  }

  lemma FlatCons(b: seq<Pair>, bs: seq<seq<Pair>>)
    ensures Flat([b] + bs) == b + Flat(bs)
  {
    assert ([b] + bs)[1..] == bs;
  }

  lemma RepeatedCons(b: seq<Pair>, bs: seq<seq<Pair>>)
    ensures Repeated([b] + bs) == if bs == [] then [] else LastOf(b) + Repeated(bs)
  {
    assert ([b] + bs)[1..] == bs;
  }

  lemma AsWrittenUnfolds(ps: seq<Pair>, i: nat, size: nat)
    requires Packable(ps, size) && NeighboursFit(ps, size) && i < |ps|
    ensures var e, j := i + PackCount(ps, i, size - INT_SIZE), NextCursor(ps, i, size);
            && i < j <= e <= |ps| && j == (if e == |ps| then e else e - 1)
            && BatchesAsWritten(ps, i, size) == [ps[i..e]] + BatchesAsWritten(ps, j, size)
            && (BatchesAsWritten(ps, j, size) == [] <==> e == |ps|)
  {
    CursorAdvances(ps, i, size);
    PackTakesOne(ps, i, size);
  }

  /** Exactly this is delivered: every pair, and once more the last pair of every message but the last. */
  lemma {:induction false} AsWrittenDelivers(ps: seq<Pair>, i: nat, size: nat)
    requires Packable(ps, size) && NeighboursFit(ps, size) && i <= |ps|
    ensures var sent := BatchesAsWritten(ps, i, size); Bag(Flat(sent)) == Bag(ps[i..]) + Bag(Repeated(sent))
    decreases |ps| - i
  {
    hide *;
    if i == |ps| {
      NothingDelivered(ps, size);
    } else {
      var e, j := i + PackCount(ps, i, size - INT_SIZE), NextCursor(ps, i, size);
      AsWrittenUnfolds(ps, i, size);
      AsWrittenDelivers(ps, j, size);
      DeliveredFirst(ps, i, e, j, BatchesAsWritten(ps, j, size));
    }
  }

  lemma NothingDelivered(ps: seq<Pair>, size: nat)
    requires Packable(ps, size) && NeighboursFit(ps, size)
    ensures var sent := BatchesAsWritten(ps, |ps|, size); Bag(Flat(sent)) == Bag(ps[|ps|..]) + Bag(Repeated(sent))
  {
  }

  // One message with the pairs up to e, and the rest, which starts at j.
  lemma DeliveredFirst(ps: seq<Pair>, i: nat, e: nat, j: nat, rest: seq<seq<Pair>>)
    requires i < j <= e <= |ps| && j == (if e == |ps| then e else e - 1) && (rest == [] <==> e == |ps|)
    requires Bag(Flat(rest)) == Bag(ps[j..]) + Bag(Repeated(rest))
    ensures Bag(Flat([ps[i..e]] + rest)) == Bag(ps[i..]) + Bag(Repeated([ps[i..e]] + rest))
  {
    hide Bag, Flat, Repeated;
    FlatCons(ps[i..e], rest);
    RepeatedCons(ps[i..e], rest);
    BagSplit(ps[i..e], Flat(rest));
    if e == |ps| {
      NothingRepeated();
      assert ps[i..] == ps[i..e];
    } else {
      DeliveredTwice(ps, i, e, Repeated(rest));
    }
  }

  lemma NothingRepeated()
    ensures Flat([]) == [] && Repeated([]) == [] && Bag([]) == multiset{}
  {
  }

  lemma DeliveredTwice(ps: seq<Pair>, i: nat, e: nat, more: seq<Pair>)
    requires i < e < |ps|
    ensures Bag(ps[i..e]) + (Bag(ps[e - 1..]) + Bag(more)) == Bag(ps[i..]) + Bag(LastOf(ps[i..e]) + more)
  {
    hide Bag;
    assert ps[i..] == ps[i..e] + ps[e..];
    BagSplit(ps[i..e], ps[e..]);
    assert ps[e - 1..] == LastOf(ps[i..e]) + ps[e..];
    BagSplit(LastOf(ps[i..e]), ps[e..]);
    BagSplit(LastOf(ps[i..e]), more);
  }

  lemma RepeatedIff(ps: seq<Pair>, size: nat)
    requires Packable(ps, size) && NeighboursFit(ps, size)
    ensures Repeated(BatchesAsWritten(ps, 0, size)) == [] <==> OneMessage(ps, size)
  {
    if ps == [] {
      NothingRepeated();
      assert BatchesAsWritten(ps, 0, size) == [];
    } else {
      var e := PackCount(ps, 0, size - INT_SIZE);
      OneMessageIff(ps, size);
      hide *;
      AsWrittenUnfolds(ps, 0, size);
      RepeatedUnless(ps[0..e], BatchesAsWritten(ps, NextCursor(ps, 0, size), size));
    }
  }

  lemma OneMessageIff(ps: seq<Pair>, size: nat)
    requires ps != []
    ensures OneMessage(ps, size) <==> PackCount(ps, 0, size - INT_SIZE) == |ps|
  {
    hide PackCount, PairsSize;
    assert ps[0..|ps|] == ps;
    PackIsGreedy(ps, 0, size - INT_SIZE, |ps|);
  }

  lemma RepeatedUnless(b: seq<Pair>, rest: seq<seq<Pair>>)
    requires b != []
    ensures Repeated([b] + rest) == [] <==> rest == []
  {
    RepeatedCons(b, rest);
  }

  /** The packer as written delivers the right counts if and only if everything fits into one message. */
  lemma AsWrittenIsExactIff(ps: seq<Pair>, size: nat)
    requires Packable(ps, size) && NeighboursFit(ps, size)
    ensures Bag(Flat(BatchesAsWritten(ps, 0, size))) == Bag(ps) <==> OneMessage(ps, size)
  {
    hide OneMessage, BatchesAsWritten, Flat, Repeated, Packable, NeighboursFit;
    AsWrittenDelivers(ps, 0, size);
    RepeatedIff(ps, size);
    assert ps[0..] == ps;
    BagIsEmptyIff(Repeated(BatchesAsWritten(ps, 0, size)));
  }

  lemma BagIsEmptyIff(ps: seq<Pair>)
    ensures Bag(ps) == multiset{} <==> ps == []
  {
    if ps != [] {
      assert Bag(ps)[ps[0].word] >= ps[0].count;
    }
  }
}
