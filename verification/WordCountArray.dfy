/** The growable array of words and counts, updated in place, proved against lists of pairs. */
module WordCountArray {
  import opened WordCounts

  class WordCountArray {
    var pairs: array<Pair>  // its length is the allocated size
    var usedSize: nat

    ghost predicate Valid()
      reads this
    {
      usedSize <= pairs.Length
    }

    ghost function Contents(): seq<Pair>
      requires Valid()
      reads this, pairs
    {
      pairs[..usedSize]
    }

    constructor ()
      ensures Valid() && fresh(pairs) && pairs.Length == 20 && Contents() == []
    {
      pairs := new Pair[20];
      usedSize := 0;
    }

    // A shrunk, empty array cannot grow again: twice nothing is nothing.
    method ReallocArrayIfFull()
      requires Valid()
      modifies this
      ensures Valid() && usedSize == old(usedSize) && Contents() == old(Contents())
      ensures usedSize < pairs.Length <==> old(pairs.Length) > 0
      ensures pairs == old(pairs) || fresh(pairs)
    {
      if pairs.Length == usedSize {
        var larger := new Pair[2 * pairs.Length];
        for i := 0 to usedSize
          invariant unchanged(this) && pairs[..] == old(pairs[..])
          invariant larger[..i] == pairs[..i]
        {
          larger[i] := pairs[i];
        }
        pairs := larger;
      }
    }

    method TryIncrementExistingWord(word: Word, count: Count) returns (found: bool)
      requires Valid()
      modifies pairs
      ensures Valid() && found == Lists(old(Contents()), word)
      ensures Contents() == if found then Increment(old(Contents()), word, count) else old(Contents())
    {
      var i := 0;
      while i != usedSize
        invariant 0 <= i <= usedSize && pairs[..] == old(pairs[..])
        invariant forall k :: 0 <= k < i ==> pairs[k].word != word
      {
        if pairs[i].word == word {
          IncrementAt(Contents(), i, word, count);
          pairs[i] := Pair(word, pairs[i].count + count);
          assert old(Contents())[i].word == word;
          return true;
        }
        i := i + 1;
      }
      return false;
    }

    method InsertWordPair(word: Word, count: Count)
      requires Valid() && pairs.Length > 0
      modifies this, pairs
      ensures Valid() && (pairs == old(pairs) || fresh(pairs)) && pairs.Length > 0
      ensures Contents() == old(Contents()) + [Pair(word, count)]
    {
      ReallocArrayIfFull();
      pairs[usedSize] := Pair(word, count);
      usedSize := usedSize + 1;
    }

    method IncrementWord(word: Word, count: Count)
      requires Valid() && pairs.Length > 0
      modifies this, pairs
      ensures Valid() && (pairs == old(pairs) || fresh(pairs)) && pairs.Length > 0
      ensures Contents() == Increment(old(Contents()), word, count)
    {
      var found := TryIncrementExistingWord(word, count);
      if !found {
        IncrementNew(Contents(), word, count);
        InsertWordPair(word, count);
      }
    }

    method AddArray(other: WordCountArray)
      requires Valid() && other.Valid() && pairs.Length > 0 && other != this && other.pairs != pairs
      modifies this, pairs
      ensures Valid() && (pairs == old(pairs) || fresh(pairs)) && pairs.Length > 0
      ensures Contents() == AddAll(old(Contents()), old(other.Contents()))
    {
      var i := 0;
      ghost var qs := other.Contents();
      while i != other.usedSize
        invariant 0 <= i <= other.usedSize && unchanged(other) && unchanged(other.pairs)
        invariant Valid() && (pairs == old(pairs) || fresh(pairs)) && pairs.Length > 0
        invariant Contents() == AddAll(old(Contents()), qs[..i])
      {
        IncrementWord(other.pairs[i].word, other.pairs[i].count);
        i := i + 1;
        assert qs[..i][..i - 1] == qs[..i - 1];
      }
      assert qs[..i] == qs;
    }

    method ShrinkToFit()
      requires Valid()
      modifies this
      ensures Valid() && fresh(pairs) && pairs.Length == usedSize && Contents() == old(Contents())
    {
      var exact := new Pair[usedSize];
      for i := 0 to usedSize
        invariant unchanged(this) && pairs[..] == old(pairs[..])
        invariant exact[..i] == pairs[..i]
      {
        exact[i] := pairs[i];
      }
      pairs := exact;
    }
  }

  /** The string w at the start of str is put into upper case in place; its terminator and what lies behind
      stay. */
  method StrToupper(str: array<Byte>, ghost w: Word)
    requires |w| < str.Length && str[..|w|] == w && str[|w|] == 0 && 0 !in w
    modifies str
    ensures |Upper(w)| == |w| && str[..] == Upper(w) + old(str[|w|..])
    ensures forall k :: 0 <= k < |w| ==> str[k] == if 97 <= w[k] <= 122 then w[k] - 32 else w[k]
  {
    forall k | 0 <= k < |w| ensures |Upper(w)| == |w| && Upper(w)[k] == UpperByte(w[k]) { UpperAt(w, k); }
    var c := 0;
    while str[c] != 0
      invariant c <= |w| == |Upper(w)| && (c < |w| ==> str[c] == w[c])
      invariant str[..c] == Upper(w)[..c] && str[c..|w|] == w[c..] && str[|w|..] == old(str[|w|..])
      decreases |w| - c
    {
      assert c + 1 < |w| ==> str[c + 1] == str[c..|w|][1];
      str[c] := UpperByte(str[c]);
      c := c + 1;
    }
    assert str[..] == str[..c] + str[c..];
  }

  // What the scanner leaves in the buffer: the word, a zero byte, and whatever was there before.
  method Scan(word: array<Byte>, token: Word)
    requires word.Length == 64 && Token(token)
    modifies word
    ensures word[..|token|] == token && word[|token|] == 0
  {
    for k := 0 to |token|
      invariant word[..k] == token[..k]
    {
      word[k] := token[k];
    }
    word[|token|] := 0;
  }

  // The counting loop over the words read from a file.
  method ParseInFile(tokens: seq<Word>) returns (a: WordCountArray)
    requires forall k :: 0 <= k < |tokens| ==> Token(tokens[k])
    ensures fresh(a) && fresh(a.pairs) && a.Valid() && a.Contents() == CountWords(tokens)
  {
    a := new WordCountArray();
    var word := new Byte[64];
    for i := 0 to |tokens|
      invariant fresh(a) && fresh(a.pairs) && a.Valid() && a.pairs.Length > 0 && fresh(word)
      invariant a.Contents() == CountWords(tokens[..i])
    {
      Scan(word, tokens[i]);
      StrToupper(word, tokens[i]);
      assert word[..|tokens[i]|] == Upper(tokens[i]);
      a.IncrementWord(word[..|tokens[i]|], 1);
      assert tokens[..i + 1][..i] == tokens[..i];
    }
    assert tokens[..|tokens|] == tokens;
    a.ShrinkToFit();
  }

  lemma {:induction false} IncrementAt(ps: seq<Pair>, k: nat, w: Word, count: Count)
    requires k < |ps| && ps[k].word == w && forall j :: 0 <= j < k ==> ps[j].word != w
    ensures Increment(ps, w, count) == ps[k := Pair(w, ps[k].count + count)]
  {
    if k > 0 {
      IncrementAt(ps[1..], k - 1, w, count);
    }
  }

  lemma {:induction false} IncrementNew(ps: seq<Pair>, w: Word, count: Count)
    requires !Lists(ps, w)
    ensures Increment(ps, w, count) == ps + [Pair(w, count)]
  {
    if ps != [] {
      assert ps == [ps[0]] + ps[1..];
      ListsCons(ps[0], ps[1..], w);
      IncrementNew(ps[1..], w, count);
    }
  }
}
