/** The loops that write a message into a byte buffer and read it back out, in place. */
module MessageBuffers {
  import opened WordCounts
  import opened WordCountArray
  import opened MessageCodec
  import opened MessagePacker

  // ---------- Child ----------

  // The buffer s with bytes written at position at.
  function Overwrite(s: seq<Byte>, at: nat, bytes: seq<Byte>): (r: seq<Byte>)
    requires at + |bytes| <= |s|
    ensures |r| == |s|
  {
    s[..at] + bytes + s[at + |bytes|..]
  }

  lemma OverwriteTwice(s: seq<Byte>, at: nat, a: seq<Byte>, b: seq<Byte>)
    requires at + |a| + |b| <= |s|
    ensures Overwrite(Overwrite(s, at, a), at + |a|, b) == Overwrite(s, at, a + b)
  {
  }

  // What strcpy and storing an integer do to the buffer.
  method Store(buf: array<Byte>, at: nat, bytes: seq<Byte>)
    requires at + |bytes| <= buf.Length
    modifies buf
    ensures buf[..] == Overwrite(old(buf[..]), at, bytes)
  {
    for k := 0 to |bytes|
      invariant buf[..at] == old(buf[..at]) && buf[at..at + k] == bytes[..k]
      invariant buf[at + k..] == old(buf[at + k..])
    {
      buf[at + k] := bytes[k];
    }
    assert buf[..] == buf[..at] + buf[at..at + |bytes|] + buf[at + |bytes|..];
  }

  method Clear(buf: array<Byte>)
    modifies buf
    ensures buf[..] == Zeros(buf.Length)
  {
    for k := 0 to buf.Length
      invariant forall j :: 0 <= j < k ==> buf[j] == 0
    {
      buf[k] := 0;
    }
  }

  // The buffer while pairs are being packed: four bytes for the count, the pairs ps, zeros.
  ghost predicate Packed(s: seq<Byte>, ps: seq<Pair>, end: nat) {
    && AllSendable(ps)
    && end == INT_SIZE + PairsSize(ps) <= |s|
    && s[INT_SIZE..] == EncodePairs(ps) + Zeros(|s| - end)
  }

  lemma PackedAppend(ps: seq<Pair>, p: Pair)
    requires AllSendable(ps) && Sendable(p)
    ensures AllSendable(ps + [p])
    ensures EncodePairs(ps + [p]) == EncodePairs(ps) + EncodePair(p)
    ensures PairsSize(ps + [p]) == PairsSize(ps) + PairSize(p)
  {
    assert (ps + [p])[..|ps|] == ps;
  }

  lemma PackedOnePair(s: seq<Byte>, ps: seq<Pair>, end: nat, p: Pair)
    requires Packed(s, ps, end) && Sendable(p) && end + PairSize(p) <= |s|
    ensures Packed(Overwrite(s, end, EncodePair(p)), ps + [p], end + PairSize(p))
  {
    hide EncodePair, EncodePairs, PairsSize, PairSize;
    PackedAppend(ps, p);
    var k, z := |EncodePair(p)|, |s| - end;
    var s' := Overwrite(s, end, EncodePair(p));
    assert s'[INT_SIZE..] == s[INT_SIZE..end] + EncodePair(p) + s[end + k..];
    assert s[INT_SIZE..end] == s[INT_SIZE..][..end - INT_SIZE] == EncodePairs(ps);
    assert s[end + k..] == s[INT_SIZE..][end + k - INT_SIZE..] == Zeros(z - k);
  }

  method PackPair(buf: array<Byte>, p: Pair, at: nat, ghost ps: seq<Pair>) returns (end: nat)
    requires Packed(buf[..], ps, at) && Sendable(p) && at + PairSize(p) <= buf.Length
    modifies buf
    ensures Packed(buf[..], ps + [p], end) && end == at + PairSize(p)
  {
    hide Packed, Overwrite, EncodeInt;
    PackedOnePair(buf[..], ps, at, p);
    OverwriteTwice(buf[..], at, p.word + [0], EncodeInt(p.count));
    Store(buf, at, p.word + [0]);
    Store(buf, at + |p.word| + 1, EncodeInt(p.count));
    end := at + |p.word| + 1 + INT_SIZE;
  }

  lemma PackedToMessage(s: seq<Byte>, ps: seq<Pair>, end: nat)
    requires Packed(s, ps, end) && IsInt(|ps|)
    ensures FitsMessage(ps, |s|) && Overwrite(s, 0, EncodeInt(|ps|)) == EncodeMessage(ps, |s|)
  {
    hide EncodeInt, EncodePairs;
    assert Overwrite(s, 0, EncodeInt(|ps|)) == EncodeInt(|ps|) + s[INT_SIZE..];
  }

  lemma PackedNothing(n: nat)
    requires n >= INT_SIZE
    ensures Packed(Zeros(n), [], INT_SIZE)
  {
    assert Zeros(n)[INT_SIZE..] == Zeros(n - INT_SIZE);
  }

  /** One message: as many pairs from start on as fit. */
  method PackMessage(pairs: seq<Pair>, start: nat, buf: array<Byte>) returns (i: nat)
    requires AllSendable(pairs) && IsInt(|pairs|) && start <= |pairs| && buf.Length >= INT_SIZE
    modifies buf
    ensures i == start + PackCount(pairs, start, buf.Length - INT_SIZE)
    ensures FitsMessage(pairs[start..i], buf.Length) && buf[..] == EncodeMessage(pairs[start..i], buf.Length)
  {
    hide Packed, EncodeInt, Overwrite, EncodeMessage, FitsMessage;
    Clear(buf);
    PackedNothing(buf.Length);
    i := start;
    var bufI := INT_SIZE;
    assert pairs[start..i] == [];
    while i != |pairs|
      invariant start <= i <= |pairs| && Packed(buf[..], pairs[start..i], bufI)
      invariant i + PackCount(pairs, i, buf.Length - bufI) == start + PackCount(pairs, start, buf.Length - INT_SIZE)
    {
      if PairSize(pairs[i]) > buf.Length - bufI {
        break;
      }
      bufI := PackPair(buf, pairs[i], bufI, pairs[start..i]);
      assert pairs[start..i] + [pairs[i]] == pairs[start..i + 1];
      i := i + 1;
    }
    PackedToMessage(buf[..], pairs[start..i], bufI);
    Store(buf, 0, EncodeInt(i - start));
  }

  // The messages for the given batches, end marker included.
  function Messages(batches: seq<seq<Pair>>, size: nat): seq<seq<Byte>>
    requires size >= INT_SIZE && forall b :: b in batches ==> FitsMessage(b, size)
  {
    if batches == [] then [EncodeEof(size)] else [EncodeMessage(batches[0], size)] + Messages(batches[1..], size)
  }

  // Messages already sent, and those still to come.
  ghost predicate Sending(sent: seq<seq<Byte>>, left: seq<seq<Pair>>, all: seq<seq<Pair>>, size: nat) {
    && size >= INT_SIZE
    && (forall b :: b in all ==> FitsMessage(b, size))
    && (forall b :: b in left ==> FitsMessage(b, size))
    && sent + Messages(left, size) == Messages(all, size)
  }

  method SendEof(buf: array<Byte>) returns (message: seq<Byte>)
    requires buf.Length >= INT_SIZE
    modifies buf
    ensures message == EncodeEof(buf.Length)
  {
    Clear(buf);
    Store(buf, 0, EncodeInt(EOF_VALUE));
    message := buf[..];
    assert Zeros(buf.Length)[INT_SIZE..] == Zeros(buf.Length - INT_SIZE);
  }

  lemma {:induction false} BatchesFit(ps: seq<Pair>, i: nat, size: nat)
    requires Packable(ps, size) && i <= |ps| && size >= INT_SIZE
    ensures forall b :: b in Batches(ps, i, size) ==> FitsMessage(b, size)
    decreases |ps| - i
  {
    if i < |ps| {
      PackTakesOne(ps, i, size);
      var c := PackCount(ps, i, size - INT_SIZE);
      PackIsGreedy(ps, i, size - INT_SIZE, c);
      BatchesFit(ps, i + c, size);
    }
  }

  lemma {:induction false} BatchesAsWrittenFit(ps: seq<Pair>, i: nat, size: nat)
    requires Packable(ps, size) && NeighboursFit(ps, size) && i <= |ps| && size >= INT_SIZE
    ensures forall b :: b in BatchesAsWritten(ps, i, size) ==> FitsMessage(b, size)
    decreases |ps| - i
  {
    if i < |ps| {
      PackTakesOne(ps, i, size);
      CursorAdvances(ps, i, size);
      var c := PackCount(ps, i, size - INT_SIZE);
      PackIsGreedy(ps, i, size - INT_SIZE, c);
      BatchesAsWrittenFit(ps, NextCursor(ps, i, size), size);
    }
  }

  lemma SentOne(sent: seq<seq<Byte>>, b: seq<Pair>, left: seq<seq<Pair>>, all: seq<seq<Pair>>, size: nat)
    requires Sending(sent, [b] + left, all, size)
    ensures FitsMessage(b, size) && Sending(sent + [EncodeMessage(b, size)], left, all, size)
  {
    assert ([b] + left)[0] == b && ([b] + left)[1..] == left;
    assert forall x :: x in left ==> x in [b] + left;
  }

  lemma SentAll(sent: seq<seq<Byte>>, all: seq<seq<Pair>>, size: nat)
    requires Sending(sent, [], all, size)
    ensures (forall b :: b in all ==> FitsMessage(b, size)) && sent + [EncodeEof(size)] == Messages(all, size)
  {
  }

  lemma BatchesStep(ps: seq<Pair>, i: nat, size: nat)
    requires Packable(ps, size) && i < |ps|
    ensures var j := i + PackCount(ps, i, size - INT_SIZE);
            i < j && Batches(ps, i, size) == [ps[i..j]] + Batches(ps, j, size)
  {
    PackTakesOne(ps, i, size);
  }

  lemma StartSending(all: seq<seq<Pair>>, size: nat)
    requires size >= INT_SIZE && forall b :: b in all ==> FitsMessage(b, size)
    ensures Sending([], all, all, size)
  {
    assert [] + Messages(all, size) == Messages(all, size);
  }

  method SendNext(pairs: seq<Pair>, i: nat, buf: array<Byte>, sent: seq<seq<Byte>>, ghost all: seq<seq<Pair>>)
      returns (i': nat, sent': seq<seq<Byte>>)
    requires Packable(pairs, buf.Length) && i < |pairs|
    requires Sending(sent, Batches(pairs, i, buf.Length), all, buf.Length)
    modifies buf
    ensures i < i' <= |pairs| && Sending(sent', Batches(pairs, i', buf.Length), all, buf.Length)
  {
    hide PackCount, Batches, Messages, FitsMessage, EncodeMessage;
    BatchesStep(pairs, i, buf.Length);
    i' := PackMessage(pairs, i, buf);
    SentOne(sent, pairs[i..i'], Batches(pairs, i', buf.Length), all, buf.Length);
    sent' := sent + [buf[..]];
  }

  /** The sending loop as meant: the cursor stays on the first pair that did not fit. */
  method SendPairs(pairs: seq<Pair>, size: nat) returns (sent: seq<seq<Byte>>)
    requires Packable(pairs, size) && size >= INT_SIZE
    ensures (forall b :: b in Batches(pairs, 0, size) ==> FitsMessage(b, size))
    ensures sent == Messages(Batches(pairs, 0, size), size)
  {
    hide Sending, EncodeMessage, EncodeEof, FitsMessage, Packable;
    BatchesFit(pairs, 0, size);
    StartSending(Batches(pairs, 0, size), size);
    var buf := new Byte[size];
    sent := [];
    var i := 0;
    while i != |pairs|
      invariant 0 <= i <= |pairs|
      invariant Sending(sent, Batches(pairs, i, size), Batches(pairs, 0, size), size)
      decreases |pairs| - i
    {
      i, sent := SendNext(pairs, i, buf, sent, Batches(pairs, 0, size));
    }
    var eof := SendEof(buf);
    SentAll(sent, Batches(pairs, 0, size), size);
    sent := sent + [eof];
  }

  lemma BatchesAsWrittenStep(ps: seq<Pair>, i: nat, size: nat)
    requires Packable(ps, size) && NeighboursFit(ps, size) && i < |ps|
    ensures var j := i + PackCount(ps, i, size - INT_SIZE); var k := if j == |ps| then j else j - 1;
            i < k && BatchesAsWritten(ps, i, size) == [ps[i..j]] + BatchesAsWritten(ps, k, size)
  {
    CursorAdvances(ps, i, size);
  }

  /** One turn of the sending loop as written, whatever the list: a message is filled, and the cursor goes back by
      one if the message was cut short. */
  method NextMessageAsWritten(pairs: seq<Pair>, i: nat, buf: array<Byte>) returns (i': nat, message: seq<Byte>)
    requires Packable(pairs, buf.Length) && i < |pairs|
    modifies buf
    ensures i' == NextCursor(pairs, i, buf.Length)
    ensures var batch := pairs[i..i + PackCount(pairs, i, buf.Length - INT_SIZE)];
            FitsMessage(batch, buf.Length) && message == EncodeMessage(batch, buf.Length)
  {
    hide PackCount, FitsMessage, EncodeMessage;
    PackTakesOne(pairs, i, buf.Length);
    assert INT_SIZE + PairSize(pairs[i]) <= buf.Length;
    i' := PackMessage(pairs, i, buf);
    message := buf[..];
    if i' != |pairs| {
      i' := i' - 1;
    }
  }

  // The data messages for batches.
  function DataMessages(batches: seq<seq<Pair>>, size: nat): (messages: seq<seq<Byte>>)
    requires forall b :: b in batches ==> FitsMessage(b, size)
    ensures |messages| == |batches|
  {
    seq(|batches|, k requires 0 <= k < |batches| => EncodeMessage(batches[k], size))
  }

  lemma OneMoreBatch(batches: seq<seq<Pair>>, b: seq<Pair>, size: nat)
    requires (forall x :: x in batches ==> FitsMessage(x, size)) && FitsMessage(b, size)
    ensures forall x :: x in batches + [b] ==> FitsMessage(x, size)
    ensures DataMessages(batches + [b], size) == DataMessages(batches, size) + [EncodeMessage(b, size)]
  {
    hide FitsMessage, EncodeMessage;
  }

  /** The sending loop as written, for every list, observed for a number of messages: it is done if its cursor has
      reached the end by then, and otherwise it is still at it. */
  method SendSomeAsWritten(pairs: seq<Pair>, size: nat, limit: nat) returns (sent: seq<seq<Byte>>, done: bool)
    requires Packable(pairs, size) && size >= INT_SIZE
    ensures done <==> Cursor(pairs, size, limit) == |pairs|
    ensures forall b :: b in SentAsWritten(pairs, size, limit) ==> FitsMessage(b, size)
    ensures sent == DataMessages(SentAsWritten(pairs, size, limit), size) + if done then [EncodeEof(size)] else []
  {
    hide FitsMessage, EncodeMessage, EncodeEof, PackCount, NextCursor, Packable;
    var buf := new Byte[size];
    sent := [];
    var i := 0;
    for k := 0 to limit
      invariant i == Cursor(pairs, size, k)
      invariant forall b :: b in SentAsWritten(pairs, size, k) ==> FitsMessage(b, size)
      invariant sent == DataMessages(SentAsWritten(pairs, size, k), size)
    {
      if i != |pairs| {
        ghost var batch := pairs[i..i + PackCount(pairs, i, size - INT_SIZE)];
        var message;
        i, message := NextMessageAsWritten(pairs, i, buf);
        OneMoreBatch(SentAsWritten(pairs, size, k), batch, size);
        sent := sent + [message];
      }
    }
    done := i == |pairs|;
    if done {
      var eof := SendEof(buf);
      sent := sent + [eof];
    }
  }

  method SendNextAsWritten(pairs: seq<Pair>, i: nat, buf: array<Byte>, sent: seq<seq<Byte>>, ghost all: seq<seq<Pair>>)
      returns (i': nat, sent': seq<seq<Byte>>)
    requires Packable(pairs, buf.Length) && NeighboursFit(pairs, buf.Length) && i < |pairs|
    requires Sending(sent, BatchesAsWritten(pairs, i, buf.Length), all, buf.Length)
    modifies buf
    ensures i < i' <= |pairs| && Sending(sent', BatchesAsWritten(pairs, i', buf.Length), all, buf.Length)
  {
    hide PackCount, BatchesAsWritten, Messages, FitsMessage, EncodeMessage;
    BatchesAsWrittenStep(pairs, i, buf.Length);
    var message;
    ghost var end := i + PackCount(pairs, i, buf.Length - INT_SIZE);
    i', message := NextMessageAsWritten(pairs, i, buf);
    SentOne(sent, pairs[i..end], BatchesAsWritten(pairs, i', buf.Length), all, buf.Length);
    sent' := sent + [message];
  }

  /** The sending loop as written, for the lists on which it stops: after a message that was cut short the
      cursor goes back by one. */
  method SendPairsAsWritten(pairs: seq<Pair>, size: nat) returns (sent: seq<seq<Byte>>)
    requires Packable(pairs, size) && size >= INT_SIZE && NeighboursFit(pairs, size)
    ensures (forall b :: b in BatchesAsWritten(pairs, 0, size) ==> FitsMessage(b, size))
    ensures sent == Messages(BatchesAsWritten(pairs, 0, size), size)
  {
    hide Sending, EncodeMessage, EncodeEof, FitsMessage, Packable, NeighboursFit;
    BatchesAsWrittenFit(pairs, 0, size);
    StartSending(BatchesAsWritten(pairs, 0, size), size);
    var buf := new Byte[size];
    sent := [];
    var i := 0;
    while i != |pairs|
      invariant 0 <= i <= |pairs|
      invariant Sending(sent, BatchesAsWritten(pairs, i, size), BatchesAsWritten(pairs, 0, size), size)
      decreases |pairs| - i
    {
      i, sent := SendNextAsWritten(pairs, i, buf, sent, BatchesAsWritten(pairs, 0, size));
    }
    var eof := SendEof(buf);
    SentAll(sent, BatchesAsWritten(pairs, 0, size), size);
    sent := sent + [eof];
  }

  // ---------- Parent ----------

  method Strlen(buf: array<Byte>, at: nat) returns (n: nat)
    requires at <= buf.Length
    ensures n == StringLength(buf[at..])
  {
    n := 0;
    while at + n < buf.Length && buf[at + n] != 0
      invariant at + n <= buf.Length
      invariant StringLength(buf[at..]) == n + StringLength(buf[at + n..])
    {
      assert buf[at + n..][1..] == buf[at + n + 1..];
      n := n + 1;
    }
  }

  // One turn of the unpacking loop: the next pair, and what is left after it.
  lemma {:induction false} DecodeUnfolds(bytes: seq<Byte>, at: nat, n: nat)
    requires n > 0 && at <= |bytes| && DecodePairs(bytes[at..], n).Data?
    ensures var end := at + StringLength(bytes[at..]);
            && end + 1 + INT_SIZE <= |bytes|
            && var count := DecodeInt(bytes[end + 1..end + 1 + INT_SIZE]);
               var ps := DecodePairs(bytes[at..], n).pairs;
               && count > 0
               && |ps| > 0 && ps[0] == Pair(bytes[at..end], count)
               && DecodePairs(bytes[end + 1 + INT_SIZE..], n - 1) == Data(ps[1..])
  {
    hide DecodeInt, StringLength;
    var s, k := bytes[at..], StringLength(bytes[at..]);
    assert s[..k] == bytes[at..at + k];
    assert s[k + 1..k + 1 + INT_SIZE] == bytes[at + k + 1..at + k + 1 + INT_SIZE];
    assert s[k + 1 + INT_SIZE..] == bytes[at + k + 1 + INT_SIZE..];
  }

  lemma {:induction false} DecodeEnds(bytes: seq<Byte>, n: nat)
    requires DecodePairs(bytes, n).Data?
    ensures |DecodePairs(bytes, n).pairs| == n
    decreases n
  {
    hide *;
    if n == 0 {
      DecodeNone(bytes);
    } else {
      assert bytes[0..] == bytes;
      DecodeUnfolds(bytes, 0, n);
      DecodeEnds(bytes[StringLength(bytes) + 1 + INT_SIZE..], n - 1);
    }
  }

  lemma DecodeNone(bytes: seq<Byte>)
    ensures DecodePairs(bytes, 0) == Data([])
  {
  }

  lemma AddOne(ps: seq<Pair>, qs: seq<Pair>, i: nat)
    requires i < |qs|
    ensures AddAll(ps, qs[..i + 1]) == Increment(AddAll(ps, qs[..i]), qs[i].word, qs[i].count)
  {
    assert qs[..i + 1][..i] == qs[..i];
  }

  /** One received message: the end marker, or pairs that are counted in. */
  method ReceiveMessage(buf: array<Byte>, total: WordCountArray) returns (eof: bool)
    requires Decode(buf[..]) != Malformed
    requires total.Valid() && total.pairs.Length > 0
    modifies total, total.pairs
    ensures eof <==> Decode(buf[..]) == Eof
    ensures total.Valid() && total.pairs.Length > 0 && (total.pairs == old(total.pairs) || fresh(total.pairs))
    ensures total.Contents() ==
            match Decode(old(buf[..]))
            case Data(ps) => AddAll(old(total.Contents()), ps)
            case _ => old(total.Contents())
  {
    var incoming := DecodeInt(buf[..INT_SIZE]);
    assert buf[..][..INT_SIZE] == buf[..INT_SIZE];
    if incoming == EOF_VALUE {
      return true;
    }
    eof := false;
    ReceivePairs(buf, incoming, total);
  }

  // The unpacking loop.
  method ReceivePairs(buf: array<Byte>, incoming: nat, total: WordCountArray)
    requires buf.Length >= INT_SIZE && DecodePairs(buf[..][INT_SIZE..], incoming).Data?
    requires total.Valid() && total.pairs.Length > 0
    modifies total, total.pairs
    ensures total.Valid() && total.pairs.Length > 0 && (total.pairs == old(total.pairs) || fresh(total.pairs))
    ensures total.Contents() == AddAll(old(total.Contents()), DecodePairs(old(buf[..])[INT_SIZE..], incoming).pairs)
  {
    hide DecodePairs, DecodeInt, StringLength, Increment, AddAll;
    ghost var bytes := buf[..];
    ghost var ps := DecodePairs(bytes[INT_SIZE..], incoming).pairs;
    DecodeEnds(bytes[INT_SIZE..], incoming);
    AddNothing(total.Contents(), ps);
    var bufI, i := INT_SIZE, 0;
    while i != incoming
      invariant 0 <= i <= incoming == |ps| && INT_SIZE <= bufI <= |bytes| && buf[..] == bytes
      invariant DecodePairs(bytes[bufI..], incoming - i) == Data(ps[i..])
      invariant total.Valid() && total.pairs.Length > 0 && (total.pairs == old(total.pairs) || fresh(total.pairs))
      invariant total.Contents() == AddAll(old(total.Contents()), ps[..i])
    {
      DecodeUnfolds(bytes, bufI, incoming - i);
      AddOne(old(total.Contents()), ps, i);
      var wordLen := Strlen(buf, bufI);
      assert buf[bufI..] == bytes[bufI..];
      var word := buf[bufI..bufI + wordLen];
      bufI := bufI + wordLen + 1;
      var freq := DecodeInt(buf[bufI..bufI + INT_SIZE]);
      bufI := bufI + INT_SIZE;
      total.IncrementWord(word, freq);
      i := i + 1;
    }
    assert ps[..i] == ps;
  }

  lemma AddNothing(ps: seq<Pair>, qs: seq<Pair>)
    ensures AddAll(ps, qs[..0]) == ps
  {
  }
}
