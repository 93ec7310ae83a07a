/** Words, their order, and lists of words with counts: what the growable array of the program stands
    for, and why its sorted form depends on the counted words only. */
module WordCounts {

  type Byte = b: int | 0 <= b < 256
  type Word = seq<Byte>

  // Counts are positive: every word in a list was seen.
  type Count = c: int | c > 0 witness 1

  datatype Pair = Pair(word: Word, count: Count)

  // The bytes of 'a' to 'z' become those of 'A' to 'Z'.
  function UpperByte(b: Byte): Byte { if 97 <= b <= 122 then b - 32 else b }

  function Upper(w: Word): Word {
    if w == [] then [] else [UpperByte(w[0])] + Upper(w[1..])
  }

  // A word as the scanner yields it: it fits, terminated, into a buffer of 64 bytes.
  predicate Token(w: Word) { 0 !in w && |w| <= 63 }

  lemma {:induction false} UpperAt(w: Word, k: nat)
    requires k < |w|
    ensures |Upper(w)| == |w| && Upper(w)[k] == UpperByte(w[k])
  {
    if |w| > 1 {
      UpperAt(w[1..], if k > 0 then k - 1 else 0);
    }
  }

  // ---------- The order of strcmp ----------

  predicate Less(a: Word, b: Word) {
    b != [] && (a == [] || a[0] < b[0] || (a[0] == b[0] && Less(a[1..], b[1..])))
  }

  lemma {:induction false} LessIsStrict(a: Word, b: Word)
    ensures !(Less(a, b) && Less(b, a))
    ensures !Less(a, a)
  {
    if a != [] && b != [] {
      LessIsStrict(a[1..], b[1..]);
    }
    if a != [] {
      LessIsStrict(a[1..], []);
    }
  }

  lemma {:induction false} LessIsTotal(a: Word, b: Word)
    ensures Less(a, b) || Less(b, a) || a == b
  {
    if a != [] && b != [] {
      LessIsTotal(a[1..], b[1..]);
      assert a == [a[0]] + a[1..] && b == [b[0]] + b[1..];
    }
  }

  lemma {:induction false} LessIsTransitive(a: Word, b: Word, c: Word)
    requires Less(a, b) && Less(b, c)
    ensures Less(a, c)
  {
    if a != [] && a[0] == b[0] == c[0] {
      LessIsTransitive(a[1..], b[1..], c[1..]);
    }
  }

  // ---------- Lists of pairs ----------

  predicate Distinct(ps: seq<Pair>) { forall i, j :: 0 <= i < j < |ps| ==> ps[i].word != ps[j].word }

  predicate Lists(ps: seq<Pair>, w: Word) { exists k :: 0 <= k < |ps| && ps[k].word == w }

  // How often a list says that every word was seen.
  function Bag(ps: seq<Pair>): multiset<Word> {
    if ps == [] then multiset{} else multiset{}[ps[0].word := ps[0].count] + Bag(ps[1..])
  }

  // Count more occurrences of w: in its entry, or in a new one at the end.
  function Increment(ps: seq<Pair>, w: Word, count: Count): seq<Pair> {
    if ps == [] then [Pair(w, count)]
    else if ps[0].word == w then [Pair(w, ps[0].count + count)] + ps[1..]
    else [ps[0]] + Increment(ps[1..], w, count)
  }

  function AddAll(ps: seq<Pair>, qs: seq<Pair>): seq<Pair> {
    if qs == [] then ps
    else var q := qs[|qs| - 1]; Increment(AddAll(ps, qs[..|qs| - 1]), q.word, q.count)
  }

  // The list that counting a file's words builds.
  function CountWords(tokens: seq<Word>): seq<Pair> {
    if tokens == [] then []
    else Increment(CountWords(tokens[..|tokens| - 1]), Upper(tokens[|tokens| - 1]), 1)
  }

  function UpperWords(tokens: seq<Word>): multiset<Word> {
    if tokens == [] then multiset{} else UpperWords(tokens[..|tokens| - 1]) + multiset{Upper(tokens[|tokens| - 1])}
  }

  lemma {:induction false} BagSplit(ps: seq<Pair>, qs: seq<Pair>)
    ensures Bag(ps + qs) == Bag(ps) + Bag(qs)
  {
    if ps == [] {
      assert ps + qs == qs;
    } else {
      assert (ps + qs)[1..] == ps[1..] + qs;
      BagSplit(ps[1..], qs);
    }
  }

  /** Incrementing adds the given occurrences of the word and nothing else, and keeps words distinct. */
  lemma {:induction false} IncrementBag(ps: seq<Pair>, w: Word, count: Count)
    ensures Bag(Increment(ps, w, count)) == Bag(ps) + multiset{}[w := count]
  {
    if ps == [] {
      assert Bag([Pair(w, count)]) == multiset{}[w := count];
    } else if ps[0].word == w {
      assert ([Pair(w, ps[0].count + count)] + ps[1..])[1..] == ps[1..];
    } else {
      IncrementBag(ps[1..], w, count);
      assert ([ps[0]] + Increment(ps[1..], w, count))[1..] == Increment(ps[1..], w, count);
    }
  }

  lemma {:induction false} IncrementLists(ps: seq<Pair>, w: Word, count: Count, x: Word)
    ensures Lists(Increment(ps, w, count), x) <==> Lists(ps, x) || x == w
  {
    if ps == [] {
      assert Increment(ps, w, count)[0].word == w;
    } else {
      var rest := if ps[0].word == w then ps[1..] else Increment(ps[1..], w, count);
      var head := Increment(ps, w, count)[0];
      assert Increment(ps, w, count) == [head] + rest && head.word == ps[0].word;
      ListsCons(head, rest, x);
      ListsCons(ps[0], ps[1..], x);
      assert ps == [ps[0]] + ps[1..];
      if ps[0].word != w {
        IncrementLists(ps[1..], w, count, x);
      }
    }
  }

  lemma ListsCons(p: Pair, ps: seq<Pair>, x: Word)
    ensures Lists([p] + ps, x) <==> p.word == x || Lists(ps, x)
  {
    var all := [p] + ps;
    assert all[0] == p;
    assert forall k :: 0 <= k < |ps| ==> ps[k] == all[k + 1];
    assert forall k :: 0 < k < |all| ==> all[k] == ps[k - 1];
  }

  lemma DistinctCons(p: Pair, ps: seq<Pair>)
    ensures Distinct([p] + ps) <==> Distinct(ps) && !Lists(ps, p.word)
  {
    var all := [p] + ps;
    assert all[0] == p;
    assert forall k :: 0 <= k < |ps| ==> ps[k] == all[k + 1];
    if Distinct(all) {
      forall i, j | 0 <= i < j < |ps| ensures ps[i].word != ps[j].word { assert all[i + 1].word != all[j + 1].word; }
    }
  }

  lemma {:induction false} IncrementDistinct(ps: seq<Pair>, w: Word, count: Count)
    requires Distinct(ps)
    ensures Distinct(Increment(ps, w, count))
  {
    if ps != [] {
      assert ps == [ps[0]] + ps[1..];
      DistinctCons(ps[0], ps[1..]);
      if ps[0].word == w {
        DistinctCons(Pair(w, ps[0].count + count), ps[1..]);
      } else {
        IncrementDistinct(ps[1..], w, count);
        IncrementLists(ps[1..], w, count, ps[0].word);
        DistinctCons(ps[0], Increment(ps[1..], w, count));
      }
    }
  }

  /** Merging adds the counted words of both lists. */
  lemma {:induction false} AddAllBag(ps: seq<Pair>, qs: seq<Pair>)
    requires Distinct(ps)
    ensures Bag(AddAll(ps, qs)) == Bag(ps) + Bag(qs)
    ensures Distinct(AddAll(ps, qs))
  {
    if qs != [] {
      var n := |qs| - 1;
      AddAllBag(ps, qs[..n]);
      BagLast(qs);
      hide Bag, Distinct;
      IncrementBag(AddAll(ps, qs[..n]), qs[n].word, qs[n].count);
      IncrementDistinct(AddAll(ps, qs[..n]), qs[n].word, qs[n].count);
    }
  }

  lemma BagLast(qs: seq<Pair>)
    requires qs != []
    ensures var q := qs[|qs| - 1]; Bag(qs) == Bag(qs[..|qs| - 1]) + multiset{}[q.word := q.count]
  {
    var n := |qs| - 1;
    BagSplit(qs[..n], [qs[n]]);
    assert qs == qs[..n] + [qs[n]];
    assert Bag([qs[n]]) == multiset{}[qs[n].word := qs[n].count];
  }

  /** Counting a file lists exactly its words, in upper case, each as often as it occurs. */
  lemma {:induction false} CountWordsBag(tokens: seq<Word>)
    ensures Bag(CountWords(tokens)) == UpperWords(tokens)
    ensures Distinct(CountWords(tokens))
  {
    if tokens != [] {
      var n := |tokens| - 1;
      var w := Upper(tokens[n]);
      CountWordsBag(tokens[..n]);
      IncrementBag(CountWords(tokens[..n]), w, 1);
      IncrementDistinct(CountWords(tokens[..n]), w, 1);
      assert multiset{}[w := 1] == multiset{w};
    }
  }

  // ---------- Sorted output ----------

  predicate Sorted(ps: seq<Pair>) { forall i, j :: 0 <= i < j < |ps| ==> !Less(ps[j].word, ps[i].word) }

  predicate StrictlySorted(ps: seq<Pair>) { forall i, j :: 0 <= i < j < |ps| ==> Less(ps[i].word, ps[j].word) }

  // What any sort may make of the list before it is written.
  predicate SortOf(out: seq<Pair>, ps: seq<Pair>) { Sorted(out) && multiset(out) == multiset(ps) }

  lemma {:induction false} BagListed(ps: seq<Pair>, w: Word)
    ensures w in Bag(ps) <==> Lists(ps, w)
  {
    if ps != [] {
      BagListed(ps[1..], w);
      ListsCons(ps[0], ps[1..], w);
      assert ps == [ps[0]] + ps[1..];
    }
  }

  // In a strictly sorted list the head has the least of the listed words.
  lemma HeadIsLeast(ps: seq<Pair>, w: Word)
    requires StrictlySorted(ps) && ps != [] && w in Bag(ps)
    ensures w == ps[0].word || Less(ps[0].word, w)
  {
    BagListed(ps, w);
  }

  lemma HeadInBag(ps: seq<Pair>)
    requires StrictlySorted(ps) && ps != []
    ensures ps[0].word in Bag(ps) && Bag(ps)[ps[0].word] == ps[0].count
  {
    if ps[0].word in Bag(ps[1..]) {
      BagListed(ps[1..], ps[0].word);
      var k :| 0 <= k < |ps[1..]| && ps[1..][k].word == ps[0].word;
      LessIsStrict(ps[0].word, ps[k + 1].word);
    }
  }

  /** A strictly sorted list is determined by what it counts. */
  lemma {:induction false} SortedIsUnique(ps: seq<Pair>, qs: seq<Pair>)
    requires StrictlySorted(ps) && StrictlySorted(qs) && Bag(ps) == Bag(qs)
    ensures ps == qs
  {
    if ps == [] {
      if qs != [] { HeadInBag(qs); }
    } else if qs == [] {
      HeadInBag(ps);
    } else {
      HeadInBag(ps);
      HeadInBag(qs);
      HeadIsLeast(ps, qs[0].word);
      HeadIsLeast(qs, ps[0].word);
      LessIsStrict(ps[0].word, qs[0].word);
      TailBag(ps, qs);
      SortedIsUnique(ps[1..], qs[1..]);
      assert ps == [ps[0]] + ps[1..] && qs == [qs[0]] + qs[1..];
    }
  }

  lemma TailBag(ps: seq<Pair>, qs: seq<Pair>)
    requires ps != [] && qs != [] && ps[0] == qs[0] && Bag(ps) == Bag(qs)
    ensures Bag(ps[1..]) == Bag(qs[1..])
  {
    var one := multiset{}[ps[0].word := ps[0].count];
    assert Bag(ps[1..]) == Bag(ps) - one;
    assert Bag(qs[1..]) == Bag(qs) - one;
  }

  // ---------- Sorting keeps what is counted ----------

  lemma {:induction false} BagOfPermutation(ps: seq<Pair>, qs: seq<Pair>)
    requires multiset(ps) == multiset(qs)
    ensures Bag(ps) == Bag(qs)
  {
    if ps == [] {
      assert |multiset(qs)| == |multiset(ps)| == 0;
    } else {
      assert ps[0] in multiset(qs);
      var k :| 0 <= k < |qs| && qs[k] == ps[0];
      hide Bag;
      PermutationRest(ps, qs, k);
      BagOfPermutation(ps[1..], qs[..k] + qs[k + 1..]);
    }
  }

  lemma PermutationRest(ps: seq<Pair>, qs: seq<Pair>, k: nat)
    requires ps != [] && k < |qs| && qs[k] == ps[0] && multiset(ps) == multiset(qs)
    ensures multiset(ps[1..]) == multiset(qs[..k] + qs[k + 1..])
    ensures Bag(ps) == Bag(ps[1..]) + multiset{}[ps[0].word := ps[0].count]
    ensures Bag(qs) == Bag(qs[..k] + qs[k + 1..]) + multiset{}[ps[0].word := ps[0].count]
  {
    hide Bag;
    var rest := qs[..k] + qs[k + 1..];
    TakeOut(qs, k);
    TakeOutFirst(ps);
    SameRest(multiset(ps), multiset(ps[1..]), multiset(rest), ps[0]);
  }

  lemma TakeOutFirst(ps: seq<Pair>)
    requires ps != []
    ensures multiset(ps) == multiset(ps[1..]) + multiset{ps[0]}
    ensures Bag(ps) == Bag(ps[1..]) + multiset{}[ps[0].word := ps[0].count]
  {
    hide Bag;
    TakeOut(ps, 0);
    assert ps[..0] + ps[1..] == ps[1..];
  }

  lemma SameRest<T>(all: multiset<T>, a: multiset<T>, b: multiset<T>, x: T)
    requires all == a + multiset{x} == b + multiset{x}
    ensures a == b
  {
    assert a == all - multiset{x};
    assert b == all - multiset{x};
  }

  lemma TakeOut(ps: seq<Pair>, k: nat)
    requires k < |ps|
    ensures multiset(ps) == multiset(ps[..k] + ps[k + 1..]) + multiset{ps[k]}
    ensures Bag(ps) == Bag(ps[..k] + ps[k + 1..]) + multiset{}[ps[k].word := ps[k].count]
  {
    hide Bag;
    assert ps == ps[..k] + ([ps[k]] + ps[k + 1..]);
    TakeOutBag(ps[..k], ps[k], ps[k + 1..]);
  }

  lemma TakeOutBag(a: seq<Pair>, p: Pair, b: seq<Pair>)
    ensures Bag(a + ([p] + b)) == Bag(a + b) + multiset{}[p.word := p.count]
  {
    BagSplit(a, b);
    BagSplit(a, [p] + b);
    assert ([p] + b)[1..] == b;
  }

  lemma SortIsStrict(out: seq<Pair>, ps: seq<Pair>)
    requires Distinct(ps) && SortOf(out, ps)
    ensures StrictlySorted(out)
  {
    forall i, j | 0 <= i < j < |out| ensures Less(out[i].word, out[j].word) {
      SortKeepsDistinct(out, ps, i, j);
      LessIsTotal(out[i].word, out[j].word);
    }
  }

  lemma SortKeepsDistinct(out: seq<Pair>, ps: seq<Pair>, i: nat, j: nat)
    requires Distinct(ps) && multiset(out) == multiset(ps) && i < j < |out|
    ensures out[i].word != out[j].word
  {
    assert out[i] in multiset(ps) && out[j] in multiset(ps);
    var a :| 0 <= a < |ps| && ps[a] == out[i];
    var b :| 0 <= b < |ps| && ps[b] == out[j];
    if a == b {
      TwiceIn(out, i, j);
      OnceIn(ps, a);
    }
  }

  lemma TwiceIn(out: seq<Pair>, i: nat, j: nat)
    requires i < j < |out| && out[i] == out[j]
    ensures multiset(out)[out[i]] >= 2
  {
    assert out == out[..j] + out[j..];
    assert out[..j][i] == out[i] && out[j..][0] == out[j];
    assert multiset(out) == multiset(out[..j]) + multiset(out[j..]);
  }

  lemma OnceIn(ps: seq<Pair>, a: nat)
    requires Distinct(ps) && a < |ps|
    ensures multiset(ps)[ps[a]] == 1
  {
    TakeOut(ps, a);
    assert ps[a] !in ps[..a] + ps[a + 1..];
  }

  /** Two lists that count the same words are written alike, however they were sorted. */
  lemma OutputIsDetermined(ps: seq<Pair>, qs: seq<Pair>, out: seq<Pair>, out': seq<Pair>)
    requires Distinct(ps) && Distinct(qs) && Bag(ps) == Bag(qs)
    requires SortOf(out, ps) && SortOf(out', qs)
    ensures out == out'
  {
    SortIsStrict(out, ps);
    SortIsStrict(out', qs);
    BagOfPermutation(out, ps);
    BagOfPermutation(out', qs);
    SortedIsUnique(out, out');
  }
}
