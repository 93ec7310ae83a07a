/** What is written for given words, said without the functions that compute it: in which order, with which letters,
    and how often each word was counted. */
module WordCountOutput {
  import opened WordCounts

  // ---------- Order ----------

  predicate ProperPrefix(a: Word, b: Word) { |a| < |b| && b[..|a|] == a }

  predicate SmallerAt(a: Word, b: Word, k: nat) {
    k < |a| && k < |b| && a[..k] == b[..k] && a[k] < b[k]
  }

  // a is a proper prefix of b, or has the smaller byte where they first differ.
  ghost predicate Before(a: Word, b: Word) { ProperPrefix(a, b) || exists k: nat :: SmallerAt(a, b, k) }

  lemma BeforeCons(x: Byte, a: Word, b: Word)
    ensures Before([x] + a, [x] + b) <==> Before(a, b)
  {
    var a', b' := [x] + a, [x] + b;
    assert a'[1..] == a && b'[1..] == b;
    assert ProperPrefix(a', b') <==> ProperPrefix(a, b) by {
      assert |a| < |b| ==> b'[..|a'|] == [x] + b[..|a|];
    }
    forall k: nat ensures SmallerAt(a', b', k + 1) <==> SmallerAt(a, b, k) {
      if k < |a| && k < |b| {
        assert a'[..k + 1] == [x] + a[..k] && b'[..k + 1] == [x] + b[..k];
      }
    }
    forall k: nat | SmallerAt(a', b', k) ensures k > 0 && SmallerAt(a, b, k - 1) {
      assert k > 0;
      assert SmallerAt(a', b', (k - 1) + 1);
    }
  }

  lemma BeforeApart(x: Byte, a: Word, y: Byte, b: Word)
    requires x != y
    ensures Before([x] + a, [y] + b) <==> x < y
  {
    var a', b' := [x] + a, [y] + b;
    assert a'[..0] == b'[..0];
    if x < y {
      assert SmallerAt(a', b', 0);
    } else {
      assert a'[0] != b'[0];
      forall k: nat ensures !SmallerAt(a', b', k) {
        if 0 < k < |a'| && k < |b'| {
          assert a'[..k][0] != b'[..k][0];
        }
      }
      assert |a'| < |b'| ==> b'[..|a'|][0] != a'[0];
    }
  }

  /** The order of the sort, by position. */
  lemma {:induction false} LessByPosition(a: Word, b: Word)
    ensures Less(a, b) <==> Before(a, b)
  {
    if b == [] {
    } else if a == [] {
      assert ProperPrefix(a, b);
    } else {
      assert a == [a[0]] + a[1..] && b == [b[0]] + b[1..];
      if a[0] == b[0] {
        LessByPosition(a[1..], b[1..]);
        BeforeCons(a[0], a[1..], b[1..]);
      } else {
        BeforeApart(a[0], a[1..], b[0], b[1..]);
      }
    }
  }

  // ---------- Letters ----------

  // The same byte, or the small and the capital form of one letter.
  predicate SameLetter(a: Byte, b: Byte) { a == b || (65 <= a <= 90 && b == a + 32) || (65 <= b <= 90 && a == b + 32) }

  predicate SameLetters(v: Word, w: Word) {
    |v| == |w| && forall k :: 0 <= k < |v| ==> SameLetter(v[k], w[k])
  }

  predicate NoSmallLetters(w: Word) { forall k :: 0 <= k < |w| ==> !(97 <= w[k] <= 122) }

  /** In upper case there are no small letters, and nothing but small letters changes. */
  lemma UpperIsCapital(w: Word)
    ensures NoSmallLetters(Upper(w)) && SameLetters(Upper(w), w)
    ensures NoSmallLetters(w) <==> Upper(w) == w
  {
    UpperLength(w);
    forall k | 0 <= k < |w| ensures Upper(w)[k] == UpperByte(w[k]) { UpperAt(w, k); }
  }

  lemma UpperLength(w: Word)
    ensures |Upper(w)| == |w|
  {
    if w != [] {
      UpperAt(w, 0);
    }
  }

  /** Words are equal in upper case exactly when they are spelled with the same letters. */
  lemma UpperIff(v: Word, w: Word)
    ensures Upper(v) == Upper(w) <==> SameLetters(v, w)
  {
    UpperLength(v);
    UpperLength(w);
    forall k | 0 <= k < |v| ensures Upper(v)[k] == UpperByte(v[k]) { UpperAt(v, k); }
    forall k | 0 <= k < |w| ensures Upper(w)[k] == UpperByte(w[k]) { UpperAt(w, k); }
    if Upper(v) == Upper(w) {
      forall k | 0 <= k < |v| ensures SameLetter(v[k], w[k]) { assert UpperByte(v[k]) == UpperByte(w[k]); }
    } else if SameLetters(v, w) {
      forall k | 0 <= k < |v| ensures Upper(v)[k] == Upper(w)[k] { assert SameLetter(v[k], w[k]); }
    }
  }

  // ---------- Counts ----------

  // How many of the words are spelled with the letters of w.
  function Occurrences(tokens: seq<Word>, w: Word): nat {
    if tokens == [] then 0
    else Occurrences(tokens[..|tokens| - 1], w) + if SameLetters(tokens[|tokens| - 1], w) then 1 else 0
  }

  lemma {:induction false} OccurrencesInBag(tokens: seq<Word>, w: Word)
    requires NoSmallLetters(w)
    ensures UpperWords(tokens)[w] == Occurrences(tokens, w)
  {
    if tokens != [] {
      var n := |tokens| - 1;
      hide Upper, SameLetters, NoSmallLetters;
      OccurrencesInBag(tokens[..n], w);
      UpperIff(tokens[n], w);
      UpperIsCapital(w);
    }
  }

  lemma {:induction false} EntryInBag(ps: seq<Pair>, k: nat)
    requires Distinct(ps) && k < |ps|
    ensures Bag(ps)[ps[k].word] == ps[k].count
  {
    assert ps == [ps[0]] + ps[1..];
    DistinctCons(ps[0], ps[1..]);
    if k > 0 {
      EntryInBag(ps[1..], k - 1);
    } else {
      BagListed(ps[1..], ps[0].word);
    }
  }

  lemma {:induction false} OccursIff(tokens: seq<Word>, w: Word)
    ensures Occurrences(tokens, w) > 0 <==> exists k :: 0 <= k < |tokens| && SameLetters(tokens[k], w)
  {
    if tokens != [] {
      var n := |tokens| - 1;
      hide SameLetters;
      OccursIff(tokens[..n], w);
      assert forall k :: 0 <= k < n ==> tokens[..n][k] == tokens[k];
    }
  }

  // Some entry is spelled with the letters of w.
  predicate HasEntry(ps: seq<Pair>, w: Word) { exists k :: 0 <= k < |ps| && SameLetters(w, ps[k].word) }

  /** An entry holds a word without small letters, with the number of words that are spelled with its letters; and
      every word is spelled with the letters of some entry. */
  ghost predicate Counted(tokens: seq<Word>, ps: seq<Pair>) {
    && (forall k :: 0 <= k < |ps| ==>
          NoSmallLetters(ps[k].word) && ps[k].count == Occurrences(tokens, ps[k].word))
    && forall j :: 0 <= j < |tokens| ==> HasEntry(ps, tokens[j])
  }

  lemma EntryIsCounted(tokens: seq<Word>, ps: seq<Pair>, k: nat)
    requires Distinct(ps) && Bag(ps) == UpperWords(tokens) && k < |ps|
    ensures NoSmallLetters(ps[k].word) && ps[k].count == Occurrences(tokens, ps[k].word)
  {
    hide Bag, UpperWords, NoSmallLetters;
    EntryInBag(ps, k);
    CapitalWords(tokens, ps[k].word);
    OccurrencesInBag(tokens, ps[k].word);
  }

  lemma {:induction false} CapitalWords(tokens: seq<Word>, w: Word)
    requires w in UpperWords(tokens)
    ensures NoSmallLetters(w)
  {
    if tokens != [] {
      var n := |tokens| - 1;
      UpperIsCapital(tokens[n]);
      if w in UpperWords(tokens[..n]) {
        CapitalWords(tokens[..n], w);
      }
    }
  }

  lemma WordHasEntry(tokens: seq<Word>, ps: seq<Pair>, j: nat)
    requires Bag(ps) == UpperWords(tokens) && j < |tokens|
    ensures HasEntry(ps, tokens[j])
  {
    hide Bag, UpperWords, SameLetters, NoSmallLetters, Upper;
    var w := Upper(tokens[j]);
    UpperIsCapital(tokens[j]);
    SameLettersBack(tokens[j], w);
    OccursIff(tokens, w);
    OccurrencesInBag(tokens, w);
    BagListed(ps, w);
  }

  lemma SameLettersBack(v: Word, w: Word)
    requires SameLetters(w, v)
    ensures SameLetters(v, w)
  {
  }

  /** A list of distinct words with the right bag is counted right; so two words spelled with the same letters share
      one entry, and both are counted in it. */
  lemma BagIsCounted(tokens: seq<Word>, ps: seq<Pair>)
    requires Distinct(ps) && Bag(ps) == UpperWords(tokens)
    ensures Counted(tokens, ps)
  {
    hide Bag, UpperWords, Distinct;
    forall k | 0 <= k < |ps| ensures NoSmallLetters(ps[k].word) && ps[k].count == Occurrences(tokens, ps[k].word) {
      EntryIsCounted(tokens, ps, k);
    }
    forall j | 0 <= j < |tokens| ensures HasEntry(ps, tokens[j]) {
      WordHasEntry(tokens, ps, j);
    }
  }

  // ---------- Output ----------

  // Each line comes before the next one.
  ghost predicate InOrder(out: seq<Pair>) { forall i :: 0 <= i < |out| - 1 ==> Before(out[i].word, out[i + 1].word) }

  /** What is written after counting the words: the right counts, in order. */
  lemma WrittenRight(tokens: seq<Word>, out: seq<Pair>)
    requires SortOf(out, CountWords(tokens))
    ensures Counted(tokens, out) && InOrder(out)
  {
    CountWordsBag(tokens);
    SortIsStrict(out, CountWords(tokens));
    BagOfPermutation(out, CountWords(tokens));
    StrictIsDistinct(out);
    hide CountWords, Bag, Less, Sorted;
    BagIsCounted(tokens, out);
    forall i | 0 <= i < |out| - 1 ensures Before(out[i].word, out[i + 1].word) {
      LessByPosition(out[i].word, out[i + 1].word);
    }
  }

  lemma StrictIsDistinct(out: seq<Pair>)
    requires StrictlySorted(out)
    ensures Distinct(out)
  {
    forall i, j | 0 <= i < j < |out| ensures out[i].word != out[j].word { LessIsStrict(out[i].word, out[j].word); }
  }

  lemma {:induction false} FirstIsBeforeAll(out: seq<Pair>, i: nat, j: nat)
    requires InOrder(out) && i < j < |out|
    ensures Before(out[i].word, out[j].word)
    decreases j
  {
    hide Less, Before;
    LessByPosition(out[i].word, out[j].word);
    LessByPosition(out[j - 1].word, out[j].word);
    if i < j - 1 {
      FirstIsBeforeAll(out, i, j - 1);
      LessByPosition(out[i].word, out[j - 1].word);
      LessIsTransitive(out[i].word, out[j - 1].word, out[j].word);
    }
  }

  /** And nothing else can be: right counts in order determine the output. */
  lemma RightIsWritten(tokens: seq<Word>, out: seq<Pair>, out': seq<Pair>)
    requires SortOf(out, CountWords(tokens)) && Counted(tokens, out') && InOrder(out')
    ensures out' == out
  {
    WrittenRight(tokens, out);
    OrderIsStrict(out);
    OrderIsStrict(out');
    SameWords(tokens, out, out');
    SameWords(tokens, out', out);
    hide Less, CountWords, Counted, InOrder, SortOf;
    SameEntries(out, out');
  }

  lemma OrderIsStrict(out: seq<Pair>)
    requires InOrder(out)
    ensures StrictlySorted(out)
  {
    hide Less, Before;
    forall i, j | 0 <= i < j < |out| ensures Less(out[i].word, out[j].word) {
      FirstIsBeforeAll(out, i, j);
      LessByPosition(out[i].word, out[j].word);
    }
  }

  // Every entry of one is an entry of the other.
  lemma SameWords(tokens: seq<Word>, out: seq<Pair>, out': seq<Pair>)
    requires Counted(tokens, out) && Counted(tokens, out')
    ensures forall p :: p in out ==> p in out'
  {
    hide Occurrences, SameLetters, NoSmallLetters, Upper;
    forall p | p in out ensures p in out' {
      var i :| 0 <= i < |out| && out[i] == p;
      OccursIff(tokens, p.word);
      var j :| 0 <= j < |tokens| && SameLetters(tokens[j], p.word);
      assert HasEntry(out', tokens[j]);
      var k :| 0 <= k < |out'| && SameLetters(tokens[j], out'[k].word);
      UpperIff(tokens[j], p.word);
      UpperIff(tokens[j], out'[k].word);
      UpperIsCapital(p.word);
      UpperIsCapital(out'[k].word);
      assert out'[k] == p;
    }
  }

  lemma {:induction false} SameEntries(out: seq<Pair>, out': seq<Pair>)
    requires StrictlySorted(out) && StrictlySorted(out')
    requires (forall p :: p in out ==> p in out') && forall p :: p in out' ==> p in out
    ensures out == out'
  {
    if out == [] {
      if out' != [] { FirstIsIn(out'); }
    } else if out' == [] {
      FirstIsIn(out);
    } else {
      hide Less;
      SameFirst(out, out');
      SameRest(out, out');
      SameEntries(out[1..], out'[1..]);
      assert out == [out[0]] + out[1..] && out' == [out'[0]] + out'[1..];
    }
  }

  lemma FirstIsIn(out: seq<Pair>)
    requires out != []
    ensures out[0] in out
  {
  }

  lemma SameFirst(out: seq<Pair>, out': seq<Pair>)
    requires out != [] && out' != [] && StrictlySorted(out) && StrictlySorted(out') && out[0] in out' && out'[0] in out
    ensures out[0] == out'[0]
  {
    hide Less;
    var i :| 0 <= i < |out'| && out'[i] == out[0];
    var j :| 0 <= j < |out| && out[j] == out'[0];
    LessIsStrict(out[0].word, out'[0].word);
  }

  lemma SameRest(out: seq<Pair>, out': seq<Pair>)
    requires out != [] && out' != [] && out[0] == out'[0] && StrictlySorted(out) && StrictlySorted(out')
    requires (forall p :: p in out ==> p in out') && forall p :: p in out' ==> p in out
    ensures StrictlySorted(out[1..]) && StrictlySorted(out'[1..])
    ensures (forall p :: p in out[1..] ==> p in out'[1..]) && forall p :: p in out'[1..] ==> p in out[1..]
  {
    hide Less;
    NotAgain(out);
    NotAgain(out');
    forall p | p in out[1..] ensures p in out'[1..] {
      assert p in out;
      assert out' == [out'[0]] + out'[1..];
    }
    forall p | p in out'[1..] ensures p in out[1..] {
      assert p in out';
      assert out == [out[0]] + out[1..];
    }
  }

  lemma NotAgain(out: seq<Pair>)
    requires out != [] && StrictlySorted(out)
    ensures out[0] !in out[1..]
  {
    hide Less;
    LessIsStrict(out[0].word, out[0].word);
  }
}
