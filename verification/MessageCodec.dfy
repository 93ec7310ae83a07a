/** The messages between child and parent: a four-byte count of pairs, then for every pair its word, a
    zero byte and a four-byte count, then zeros up to the size of a message. Integers are stored with the
    least significant byte first, negative ones in two's complement. */
module MessageCodec {
  import opened WordCounts
  import opened Collections

  const INT_SIZE: nat := 4
  const EOF_VALUE: int := -1

  predicate IsInt(v: int) { -0x8000_0000 <= v < 0x8000_0000 }

  function EncodeInt(v: int): (bytes: seq<Byte>)
    requires IsInt(v)
    ensures |bytes| == INT_SIZE
  {
    var u := if v < 0 then v + 0x1_0000_0000 else v;
    [u % 256, u / 256 % 256, u / 65536 % 256, u / 16777216]
  }

  function DecodeInt(bytes: seq<Byte>): (v: int)
    requires |bytes| == INT_SIZE
    ensures IsInt(v)
  {
    var b0: int, b1: int, b2: int, b3: int := bytes[0], bytes[1], bytes[2], bytes[3];
    var u := b0 + 256 * b1 + 65536 * b2 + 16777216 * b3;
    if u >= 0x8000_0000 then u - 0x1_0000_0000 else u
  }

  lemma IntRoundTrip(v: int)
    requires IsInt(v)
    ensures DecodeInt(EncodeInt(v)) == v
  {
    var u := if v < 0 then v + 0x1_0000_0000 else v;
    assert u == u % 256 + 256 * (u / 256);
    assert u / 256 == u / 256 % 256 + 256 * (u / 65536);
    assert u / 65536 == u / 65536 % 256 + 256 * (u / 16777216);
  }

  /** The four bytes are the digits to base 256 of the number, or of its two's complement, lowest first. */
  lemma IntBytes(v: int)
    requires IsInt(v)
    ensures var b := EncodeInt(v);
            b[0] as int + 256 * b[1] as int + 65536 * b[2] as int + 16777216 * b[3] as int
            == if v < 0 then v + 0x1_0000_0000 else v
  {
    var u := if v < 0 then v + 0x1_0000_0000 else v;
    assert u == u % 256 + 256 * (u / 256);
    assert u / 256 == u / 256 % 256 + 256 * (u / 65536);
    assert u / 65536 == u / 65536 % 256 + 256 * (u / 16777216);
  }

  // ---------- Packing ----------

  // A word can be sent as a string when no byte of it is the terminator.
  predicate Sendable(p: Pair) { 0 !in p.word && |p.word| <= 63 && IsInt(p.count) }

  predicate AllSendable(ps: seq<Pair>) { forall k :: 0 <= k < |ps| ==> Sendable(ps[k]) }

  function PairSize(p: Pair): nat { |p.word| + 1 + INT_SIZE }

  function EncodePair(p: Pair): (bytes: seq<Byte>)
    requires Sendable(p)
    ensures |bytes| == PairSize(p)
  {
    p.word + [0] + EncodeInt(p.count)
  }

  function PairsSize(ps: seq<Pair>): nat {
    if ps == [] then 0 else PairsSize(ps[..|ps| - 1]) + PairSize(ps[|ps| - 1])
  }

  function EncodePairs(ps: seq<Pair>): (bytes: seq<Byte>)
    requires AllSendable(ps)
    ensures |bytes| == PairsSize(ps)
  {
    if ps == [] then [] else EncodePairs(ps[..|ps| - 1]) + EncodePair(ps[|ps| - 1])
  }

  function Zeros(n: nat): (bytes: seq<Byte>)
    ensures |bytes| == n
  {
    seq(n, _ => 0)
  }

  predicate FitsMessage(ps: seq<Pair>, size: nat) {
    AllSendable(ps) && INT_SIZE + PairsSize(ps) <= size && IsInt(|ps|)
  }

  function EncodeMessage(ps: seq<Pair>, size: nat): (message: seq<Byte>)
    requires FitsMessage(ps, size)
    ensures |message| == size
  {
    EncodeInt(|ps|) + EncodePairs(ps) + Zeros(size - INT_SIZE - PairsSize(ps))
  }

  function EncodeEof(size: nat): (message: seq<Byte>)
    requires size >= INT_SIZE
    ensures |message| == size
  {
    EncodeInt(EOF_VALUE) + Zeros(size - INT_SIZE)
  }

  // ---------- Unpacking ----------

  datatype Incoming = Eof | Data(pairs: seq<Pair>) | Malformed

  // The length of the string at the start of bytes, or all of bytes when it is not terminated.
  function StringLength(bytes: seq<Byte>): (n: nat)
    ensures n <= |bytes| && 0 !in bytes[..n] && (n < |bytes| ==> bytes[n] == 0)
  {
    if bytes == [] || bytes[0] == 0 then 0
    else
      var n := StringLength(bytes[1..]);
      assert bytes[..n + 1] == [bytes[0]] + bytes[1..][..n];
      n + 1
  }

  // The next n pairs. Malformed when a string or a count would be read past the end.
  function DecodePairs(bytes: seq<Byte>, n: nat): Incoming {
    if n == 0 then Data([])
    else
      var k := StringLength(bytes);
      if k + 1 + INT_SIZE > |bytes| then Malformed
      else
        var count := DecodeInt(bytes[k + 1..k + 1 + INT_SIZE]);
        if count <= 0 then Malformed
        else match DecodePairs(bytes[k + 1 + INT_SIZE..], n - 1)
          case Data(ps) => Data([Pair(bytes[..k], count)] + ps)
          case _ => Malformed
  }

  function Decode(message: seq<Byte>): Incoming {
    if |message| < INT_SIZE then Malformed
    else
      var n := DecodeInt(message[..INT_SIZE]);
      if n == EOF_VALUE then Eof else if n < 0 then Malformed else DecodePairs(message[INT_SIZE..], n)
  }

  // ---------- Round trip ----------

  lemma {:induction false} StringLengthOf(w: Word, rest: seq<Byte>)
    requires 0 !in w
    ensures StringLength(w + [0] + rest) == |w|
  {
    if w == [] {
      assert ([0] + rest)[0] == 0;
      assert w + [0] + rest == [0] + rest;
    } else {
      assert (w + [0] + rest)[1..] == w[1..] + [0] + rest;
      StringLengthOf(w[1..], rest);
    }
  }

  lemma DecodeFirst(p: Pair, rest: seq<Byte>, n: nat, qs: seq<Pair>)
    requires Sendable(p) && DecodePairs(rest, n) == Data(qs)
    ensures DecodePairs(EncodePair(p) + rest, n + 1) == Data([p] + qs)
  {
    var k := |p.word|;
    var bytes := EncodePair(p) + rest;
    assert bytes == p.word + [0] + (EncodeInt(p.count) + rest);
    StringLengthOf(p.word, EncodeInt(p.count) + rest);
    assert bytes[k + 1..k + 1 + INT_SIZE] == EncodeInt(p.count);
    IntRoundTrip(p.count);
    assert bytes[k + 1 + INT_SIZE..] == rest;
    assert bytes[..k] == p.word;
  }

  // The bytes of the pairs from k on.
  function EncodeFrom(ps: seq<Pair>, k: nat): seq<Byte>
    requires AllSendable(ps) && k <= |ps|
    decreases |ps| - k
  {
    if k == |ps| then [] else EncodePair(ps[k]) + EncodeFrom(ps, k + 1)
  }

  // Decoding in the middle of a message.
  lemma {:induction false} DecodeRest(ps: seq<Pair>, k: nat, tail: seq<Byte>)
    requires AllSendable(ps) && k <= |ps|
    ensures DecodePairs(EncodeFrom(ps, k) + tail, |ps| - k) == Data(ps[k..])
    decreases |ps| - k
  {
    hide *;
    if k == |ps| {
      DecodeNothing(ps, tail);
    } else {
      DecodeRest(ps, k + 1, tail);
      DecodeStep(ps, k, tail);
    }
  }

  lemma DecodeNothing(ps: seq<Pair>, tail: seq<Byte>)
    requires AllSendable(ps)
    ensures DecodePairs(EncodeFrom(ps, |ps|) + tail, 0) == Data(ps[|ps|..])
  {
  }

  lemma DecodeStep(ps: seq<Pair>, k: nat, tail: seq<Byte>)
    requires AllSendable(ps) && k < |ps|
    requires DecodePairs(EncodeFrom(ps, k + 1) + tail, |ps| - (k + 1)) == Data(ps[k + 1..])
    ensures DecodePairs(EncodeFrom(ps, k) + tail, |ps| - k) == Data(ps[k..])
  {
    hide DecodePairs, EncodePair, EncodeFrom;
    DecodeFirst(ps[k], EncodeFrom(ps, k + 1) + tail, |ps| - (k + 1), ps[k + 1..]);
    FromStep(ps, k, tail);
  }

  lemma FromStep(ps: seq<Pair>, k: nat, tail: seq<Byte>)
    requires AllSendable(ps) && k < |ps|
    ensures EncodeFrom(ps, k) + tail == EncodePair(ps[k]) + (EncodeFrom(ps, k + 1) + tail)
    ensures ps[k..] == [ps[k]] + ps[k + 1..]
  {
  }

  lemma {:induction false} EncodeSplit(ps: seq<Pair>, k: nat)
    requires AllSendable(ps) && k <= |ps|
    ensures EncodePairs(ps) == EncodePairs(ps[..k]) + EncodeFrom(ps, k)
    decreases |ps| - k
  {
    if k == |ps| {
      assert ps[..k] == ps;
    } else {
      hide EncodePairs, EncodeFrom, EncodePair;
      EncodeSplit(ps, k + 1);
      EncodeOneMore(ps, k);
    }
  }

  lemma EncodeOneMore(ps: seq<Pair>, k: nat)
    requires AllSendable(ps) && k < |ps|
    ensures EncodePairs(ps[..k + 1]) + EncodeFrom(ps, k + 1) == EncodePairs(ps[..k]) + EncodeFrom(ps, k)
  {
    hide EncodePair;
    assert ps[..k + 1][..k] == ps[..k];
    Associates(EncodePairs(ps[..k]), EncodePair(ps[k]), EncodeFrom(ps, k + 1));
  }

  /** Unpacking a packed message returns exactly the packed pairs, whatever follows the message in the
      receiver's buffer; and unpacking reads nothing past the message. */
  lemma MessageRoundTrip(ps: seq<Pair>, size: nat, tail: seq<Byte>)
    requires FitsMessage(ps, size)
    ensures Decode(EncodeMessage(ps, size) + tail) == Data(ps)
  {
    var m := EncodeMessage(ps, size) + tail;
    var rest := Zeros(size - INT_SIZE - PairsSize(ps)) + tail;
    assert m[..INT_SIZE] == EncodeInt(|ps|);
    IntRoundTrip(|ps|);
    EncodeSplit(ps, 0);
    assert m[INT_SIZE..] == EncodeFrom(ps, 0) + rest;
    DecodeRest(ps, 0, rest);
    assert ps[0..] == ps;
  }

  /** The end marker is recognised, and no data message is taken for it. */
  lemma EofRoundTrip(size: nat, tail: seq<Byte>)
    requires size >= INT_SIZE
    ensures Decode(EncodeEof(size) + tail) == Eof
  {
    assert (EncodeEof(size) + tail)[..INT_SIZE] == EncodeInt(EOF_VALUE);
    IntRoundTrip(EOF_VALUE);
  }

  // ---------- Layout ----------

  // Where pair k starts in a message.
  function PairOffset(ps: seq<Pair>, k: nat): nat
    requires k <= |ps|
  {
    4 + PairsSize(ps[..k])
  }

  lemma NextOffset(ps: seq<Pair>, k: nat)
    requires k < |ps|
    ensures PairOffset(ps, k + 1) == PairOffset(ps, k) + |ps[k].word| + 5
  {
    assert ps[..k + 1][..k] == ps[..k];
  }

  lemma PairInside(message: seq<Byte>, head: seq<Byte>, word: Word, count: seq<Byte>, rest: seq<Byte>)
    requires message == head + ((word + [0] + count) + rest) && |count| == 4
    ensures var at, n := |head|, |word|;
            && at + n + 5 <= |message| && message[at..at + n] == word && message[at + n] == 0
            && message[at + n + 1..at + n + 5] == count
  {
  }

  lemma SplitAtPair(ps: seq<Pair>, k: nat, head: seq<Byte>, rest: seq<Byte>)
    requires AllSendable(ps) && k < |ps|
    ensures head + EncodePairs(ps) + rest
         == (head + EncodePairs(ps[..k])) + (EncodePair(ps[k]) + (EncodeFrom(ps, k + 1) + rest))
  {
    EncodeSplit(ps, k);
    FromStep(ps, k, rest);
    hide EncodePairs, EncodeFrom, EncodePair;
    Associates(head, EncodePairs(ps[..k]), EncodeFrom(ps, k));
    Associates(head + EncodePairs(ps[..k]), EncodeFrom(ps, k), rest);
  }

  /** Pair k of a message is its word at its offset, a zero byte, and the four bytes of its count. */
  lemma PairLayout(ps: seq<Pair>, size: nat, k: nat)
    requires FitsMessage(ps, size) && k < |ps|
    ensures var m, at, n := EncodeMessage(ps, size), PairOffset(ps, k), |ps[k].word|;
            && at + n + 5 <= |m| && m[at..at + n] == ps[k].word && m[at + n] == 0
            && m[at + n + 1..at + n + 5] == EncodeInt(ps[k].count)
  {
    var rest := Zeros(size - INT_SIZE - PairsSize(ps));
    SplitAtPair(ps, k, EncodeInt(|ps|), rest);
    hide EncodeInt, EncodePairs, EncodeFrom, PairsSize;
    PairInside(EncodeMessage(ps, size), EncodeInt(|ps|) + EncodePairs(ps[..k]), ps[k].word, EncodeInt(ps[k].count),
               EncodeFrom(ps, k + 1) + rest);
  }

  /** The number of pairs comes first, and behind the last pair there are zeros. */
  lemma MessageEnds(ps: seq<Pair>, size: nat)
    requires FitsMessage(ps, size)
    ensures var m := EncodeMessage(ps, size);
            && |m| == size && m[..4] == EncodeInt(|ps|) && PairOffset(ps, |ps|) <= size
            && forall j :: PairOffset(ps, |ps|) <= j < size ==> m[j] == 0
  {
    hide EncodeInt, EncodePairs;
    assert ps[..|ps|] == ps;
  }

  /** The end marker is four bytes 255, and zeros. */
  lemma EofLayout(size: nat)
    requires size >= 4
    ensures forall j :: 0 <= j < size ==> EncodeEof(size)[j] == if j < 4 then 255 else 0
  {
    IntBytes(-1);
  }
}
