/** What the two word count programs write, and when it is right. */
module WordCountTheorems {
  import opened WordCounts
  import opened WordCountOutput
  import opened WordCountArray
  import opened MessageCodec
  import opened MessagePacker
  import opened WordCountPrograms

  // ---------- Files ----------

  // A file as the scanner yields it: words of at most 63 bytes, none of them zero.
  predicate Readable(tokens: seq<Word>) {
    |tokens| < 0x8000_0000 && forall k :: 0 <= k < |tokens| ==> Token(tokens[k])
  }

  predicate AllReadable(files: seq<seq<Word>>) { forall i :: 0 <= i < |files| ==> Readable(files[i]) }

  function AllWords(files: seq<seq<Word>>): multiset<Word> {
    if files == [] then multiset{} else AllWords(files[..|files| - 1]) + UpperWords(files[|files| - 1])
  }

  predicate Short(p: Pair, n: nat) { 0 !in p.word && |p.word| <= 63 && p.count <= n }

  // A list with short words, at most n entries and no count above n.
  predicate Small(ps: seq<Pair>, n: nat) { |ps| <= n && forall p :: p in ps ==> Short(p, n) }

  lemma {:induction false} UpperIsShort(w: Word)
    ensures |Upper(w)| == |w| && (0 !in w ==> 0 !in Upper(w))
  {
    if w != [] {
      UpperIsShort(w[1..]);
    }
  }

  lemma {:induction false} IncrementIsSmall(ps: seq<Pair>, w: Word, n: nat)
    requires (forall p :: p in ps ==> Short(p, n)) && 0 !in w && |w| <= 63
    ensures |Increment(ps, w, 1)| <= |ps| + 1
    ensures forall p :: p in Increment(ps, w, 1) ==> Short(p, n + 1)
  {
    if ps != [] {
      var r := Increment(ps, w, 1);
      IncrementIsSmall(ps[1..], w, n);
      assert Short(ps[0], n);
      assert r == [r[0]] + r[1..];
      forall p | p in r[1..] ensures Short(p, n + 1) {
        if p in ps[1..] {
          assert Short(p, n);
        }
      }
    }
  }

  lemma {:induction false} CountsAreSmall(tokens: seq<Word>)
    requires Readable(tokens)
    ensures Small(CountWords(tokens), |tokens|)
  {
    if tokens != [] {
      var n := |tokens| - 1;
      CountsAreSmall(tokens[..n]);
      UpperIsShort(tokens[n]);
      IncrementIsSmall(CountWords(tokens[..n]), Upper(tokens[n]), n);
    }
  }

  /** What a child counts can be sent, for every message size the program accepts. */
  lemma CountsArePackable(tokens: seq<Word>, size: nat)
    requires Readable(tokens) && size >= 128
    ensures Packable(CountWords(tokens), size)
  {
    CountsAreSmall(tokens);
    var ps := CountWords(tokens);
    assert forall k :: 0 <= k < |ps| ==> ps[k] in ps;
  }

  // ---------- Scripts of the child processes ----------

  function ChildBatches(tokens: seq<Word>, size: nat): seq<seq<Pair>>
    requires Readable(tokens) && size >= 128
  {
    CountsArePackable(tokens, size);
    Batches(CountWords(tokens), 0, size)
  }

  function ChildScript(tokens: seq<Word>, size: nat): seq<Incoming>
    requires Readable(tokens) && size >= 128
  {
    ScriptOf(ChildBatches(tokens, size))
  }

  function ChildScripts(files: seq<seq<Word>>, size: nat): seq<seq<Incoming>>
    requires AllReadable(files) && size >= 128
  {
    if files == [] then []
    else ChildScripts(files[..|files| - 1], size) + [ChildScript(files[|files| - 1], size)]
  }

  // The same with the packer as written, for files on which it stops.
  predicate Stops(tokens: seq<Word>, size: nat) {
    Readable(tokens) && size >= 128 && NeighboursFit(CountWords(tokens), size)
  }

  function ChildBatchesAsWritten(tokens: seq<Word>, size: nat): seq<seq<Pair>>
    requires Stops(tokens, size)
  {
    CountsArePackable(tokens, size);
    BatchesAsWritten(CountWords(tokens), 0, size)
  }

  function ChildScriptAsWritten(tokens: seq<Word>, size: nat): seq<Incoming>
    requires Stops(tokens, size)
  {
    ScriptOf(ChildBatchesAsWritten(tokens, size))
  }

  function ChildScriptsAsWritten(files: seq<seq<Word>>, size: nat): seq<seq<Incoming>>
    requires AllStop(files, size)
  {
    if files == [] then []
    else ChildScriptsAsWritten(files[..|files| - 1], size) + [ChildScriptAsWritten(files[|files| - 1], size)]
  }

  lemma SumAssociates<T>(a: multiset<T>, b: multiset<T>, c: multiset<T>)
    ensures (a + b) + c == a + (b + c)
  {
  }

  lemma {:induction false} TrafficBagSplit(a: seq<Incoming>, b: seq<Incoming>)
    ensures TrafficBag(a + b) == TrafficBag(a) + TrafficBag(b)
  {
    hide TrafficBag, MessageBag;
    if b == [] {
      TrafficBagNil(a);
    } else {
      var front, last := b[..|b| - 1], b[|b| - 1];
      TrafficBagSplit(a, front);
      TrafficBagSplitStep(a, front, last);
      assert front + [last] == b;
    }
  }

  lemma TrafficBagNil(a: seq<Incoming>)
    ensures TrafficBag(a + []) == TrafficBag(a) + TrafficBag([])
  {
    assert a + [] == a;
  }

  lemma TrafficBagSplitStep(a: seq<Incoming>, b: seq<Incoming>, x: Incoming)
    requires TrafficBag(a + b) == TrafficBag(a) + TrafficBag(b)
    ensures TrafficBag(a + (b + [x])) == TrafficBag(a) + TrafficBag(b + [x])
  {
    hide TrafficBag;
    TrafficBagLast(a + b, x);
    TrafficBagLast(b, x);
    assert a + (b + [x]) == (a + b) + [x];
    SumAssociates(TrafficBag(a), TrafficBag(b), MessageBag(x));
  }

  lemma TrafficBagLast(s: seq<Incoming>, x: Incoming)
    ensures TrafficBag(s + [x]) == TrafficBag(s) + MessageBag(x)
  {
    assert (s + [x])[..|s|] == s;
  }

  lemma {:induction false} ScriptBag(batches: seq<seq<Pair>>)
    ensures TrafficBag(ScriptOf(batches)) == Bag(Flat(batches))
  {
    if batches == [] {
      assert TrafficBag([Eof]) == TrafficBag([Eof][..0]) + multiset{};
    } else {
      ScriptBag(batches[1..]);
      TrafficBagSplit([Data(batches[0])], ScriptOf(batches[1..]));
      assert TrafficBag([Data(batches[0])]) == TrafficBag([Data(batches[0])][..0]) + Bag(batches[0]);
      BagSplit(batches[0], Flat(batches[1..]));
    }
  }

  lemma {:induction false} ChildScriptsCarryAll(files: seq<seq<Word>>, size: nat)
    requires AllReadable(files) && size >= 128
    ensures Scripts(ChildScripts(files, size)) && |ChildScripts(files, size)| == |files|
    ensures ScriptBags(ChildScripts(files, size)) == AllWords(files)
  {
    if files != [] {
      var n := |files| - 1;
      var ps := CountWords(files[n]);
      ChildScriptsCarryAll(files[..n], size);
      CountsArePackable(files[n], size);
      ScriptOfIsScript(Batches(ps, 0, size));
      ScriptBag(Batches(ps, 0, size));
      BatchesCarryAll(ps, 0, size);
      assert ps[0..] == ps;
      CountWordsBag(files[n]);
      assert ChildScripts(files, size)[..n] == ChildScripts(files[..n], size);
    }
  }

  // ---------- Threads and one sequential count ----------

  function ThreadTotal(files: seq<seq<Word>>): seq<Pair> {
    if files == [] then [] else AddAll(ThreadTotal(files[..|files| - 1]), CountWords(files[|files| - 1]))
  }

  lemma {:induction false} ThreadTotalBag(files: seq<seq<Word>>)
    ensures Bag(ThreadTotal(files)) == AllWords(files) && Distinct(ThreadTotal(files))
  {
    if files != [] {
      var n := |files| - 1;
      ThreadTotalBag(files[..n]);
      AddAllBag(ThreadTotal(files[..n]), CountWords(files[n]));
      CountWordsBag(files[n]);
    }
  }

  function Join(files: seq<seq<Word>>): seq<Word> {
    if files == [] then [] else Join(files[..|files| - 1]) + files[|files| - 1]
  }

  lemma {:induction false} UpperWordsSplit(a: seq<Word>, b: seq<Word>)
    ensures UpperWords(a + b) == UpperWords(a) + UpperWords(b)
  {
    hide UpperWords, Upper;
    if b == [] {
      UpperWordsNil(a);
    } else {
      var front, last := b[..|b| - 1], b[|b| - 1];
      UpperWordsSplit(a, front);
      UpperWordsSplitStep(a, front, last);
      assert front + [last] == b;
    }
  }

  lemma UpperWordsNil(a: seq<Word>)
    ensures UpperWords(a + []) == UpperWords(a) + UpperWords([])
  {
    assert a + [] == a;
  }

  lemma UpperWordsSplitStep(a: seq<Word>, b: seq<Word>, x: Word)
    requires UpperWords(a + b) == UpperWords(a) + UpperWords(b)
    ensures UpperWords(a + (b + [x])) == UpperWords(a) + UpperWords(b + [x])
  {
    hide UpperWords;
    UpperWordsLast(a + b, x);
    UpperWordsLast(b, x);
    assert a + (b + [x]) == (a + b) + [x];
    SumAssociates(UpperWords(a), UpperWords(b), multiset{Upper(x)});
  }

  lemma UpperWordsLast(s: seq<Word>, x: Word)
    ensures UpperWords(s + [x]) == UpperWords(s) + multiset{Upper(x)}
  {
    assert (s + [x])[..|s|] == s;
  }

  lemma {:induction false} JoinWords(files: seq<seq<Word>>)
    ensures UpperWords(Join(files)) == AllWords(files)
  {
    if files != [] {
      var n := |files| - 1;
      JoinWords(files[..n]);
      UpperWordsSplit(Join(files[..n]), files[n]);
    }
  }

  // ---------- The programs agree ----------

  /** With the packer as meant, for every interleaving of the children on a queue of any capacity: the
      sorted output of the process version, of the thread version and of one sequential count of all the
      files are the same, however each was sorted. */
  lemma ProgramsAgree(files: seq<seq<Word>>, size: nat, capacity: nat, moves: seq<Move>,
                      byProcesses: seq<Pair>, byThreads: seq<Pair>, sequential: seq<Pair>)
    requires AllReadable(files) && size >= 128
    requires RunExchange(ChildScripts(files, size), capacity, moves).Some?
    requires var s := RunExchange(ChildScripts(files, size), capacity, moves).value;
             Stopped(ChildScripts(files, size), s) && SortOf(byProcesses, Merge(Received(ChildScripts(files, size), s)))
    requires SortOf(byThreads, ThreadTotal(files))
    requires SortOf(sequential, CountWords(Join(files)))
    ensures byProcesses == byThreads == sequential
    ensures Counted(Join(files), byProcesses) && InOrder(byProcesses)
  {
    var scripts := ChildScripts(files, size);
    var total := Merge(Received(scripts, RunExchange(scripts, capacity, moves).value));
    ChildScriptsCarryAll(files, size);
    ParentCountsAll(scripts, capacity, moves);
    ThreadTotalBag(files);
    CountWordsBag(Join(files));
    JoinWords(files);
    OutputIsDetermined(total, ThreadTotal(files), byProcesses, byThreads);
    OutputIsDetermined(ThreadTotal(files), CountWords(Join(files)), byThreads, sequential);
    hide *;
    WrittenRight(Join(files), sequential);
  }

  // ---------- The process version as written ----------

  predicate FitsOne(tokens: seq<Word>, size: nat) { OneMessage(CountWords(tokens), size) }

  predicate AllFit(files: seq<seq<Word>>, size: nat) { forall i :: 0 <= i < |files| ==> FitsOne(files[i], size) }

  predicate AllStop(files: seq<seq<Word>>, size: nat) { forall i :: 0 <= i < |files| ==> Stops(files[i], size) }

  // What a child sends twice.
  function RepeatedWords(tokens: seq<Word>, size: nat): multiset<Word>
    requires Stops(tokens, size)
  {
    Bag(Repeated(ChildBatchesAsWritten(tokens, size)))
  }

  function AllRepeatedWords(files: seq<seq<Word>>, size: nat): multiset<Word>
    requires AllStop(files, size)
  {
    if files == [] then multiset{}
    else AllRepeatedWords(files[..|files| - 1], size) + RepeatedWords(files[|files| - 1], size)
  }

  // The words, those repeated, and nothing else; and repeated ones exactly unless all is well.
  predicate Carried(bag: multiset<Word>, words: multiset<Word>, repeated: multiset<Word>, fits: bool) {
    bag == words + repeated && (repeated == multiset{} <==> fits)
  }

  lemma CarriedSum(a: multiset<Word>, v: multiset<Word>, r: multiset<Word>, f: bool,
                   b: multiset<Word>, w: multiset<Word>, q: multiset<Word>, g: bool)
    requires Carried(a, v, r, f) && Carried(b, w, q, g)
    ensures Carried(a + b, v + w, r + q, f && g)
  {
    assert r + q == multiset{} ==> |r| + |q| == 0;
  }

  /** As written, the children together send the words of all files and those that the packer repeats, which
      are none if and only if every file fits into one message. */
  lemma {:induction false} AsWrittenCarries(files: seq<seq<Word>>, size: nat)
    requires AllStop(files, size)
    ensures var scripts := ChildScriptsAsWritten(files, size);
            && Scripts(scripts) && |scripts| == |files|
            && Carried(ScriptBags(scripts), AllWords(files), AllRepeatedWords(files, size), AllFit(files, size))
  {
    if files != [] {
      var n := |files| - 1;
      AsWrittenCarries(files[..n], size);
      AsWrittenStep(files, size);
    }
  }

  lemma AsWrittenStep(files: seq<seq<Word>>, size: nat)
    requires files != [] && AllStop(files, size)
    requires var scripts, init := ChildScriptsAsWritten(files[..|files| - 1], size), files[..|files| - 1];
             && Scripts(scripts) && |scripts| == |init|
             && Carried(ScriptBags(scripts), AllWords(init), AllRepeatedWords(init, size), AllFit(init, size))
    ensures var scripts := ChildScriptsAsWritten(files, size);
            && Scripts(scripts) && |scripts| == |files|
            && Carried(ScriptBags(scripts), AllWords(files), AllRepeatedWords(files, size), AllFit(files, size))
  {
    var n := |files| - 1;
    var before, last := ChildScriptsAsWritten(files[..n], size), ChildScriptAsWritten(files[n], size);
    var repeated, more := AllRepeatedWords(files[..n], size), RepeatedWords(files[n], size);
    OneAsWritten(files[n], size);
    AllFitSplit(files, size);
    AllWordsLast(files);
    assert ChildScriptsAsWritten(files, size) == before + [last];
    assert AllRepeatedWords(files, size) == repeated + more;
    hide *;
    ScriptBagsAppend(before, last);
    CarriedSum(ScriptBags(before), AllWords(files[..n]), repeated, AllFit(files[..n], size),
               TrafficBag(last), UpperWords(files[n]), more, FitsOne(files[n], size));
  }

  lemma AllWordsLast(files: seq<seq<Word>>)
    requires files != []
    ensures AllWords(files) == AllWords(files[..|files| - 1]) + UpperWords(files[|files| - 1])
  {
  }

  lemma ScriptBagsAppend(scripts: seq<seq<Incoming>>, script: seq<Incoming>)
    ensures ScriptBags(scripts + [script]) == ScriptBags(scripts) + TrafficBag(script)
    ensures Scripts(scripts) && Script(script) ==> Scripts(scripts + [script])
  {
    hide Script;
    assert (scripts + [script])[..|scripts|] == scripts;
  }

  lemma AllFitSplit(files: seq<seq<Word>>, size: nat)
    requires files != []
    ensures AllFit(files, size) <==> AllFit(files[..|files| - 1], size) && FitsOne(files[|files| - 1], size)
  {
    hide FitsOne;
    var n := |files| - 1;
    if AllFit(files[..n], size) {
      forall i | 0 <= i < n ensures FitsOne(files[i], size) { assert files[..n][i] == files[i]; }
    }
  }

  lemma OneAsWritten(tokens: seq<Word>, size: nat)
    requires Stops(tokens, size)
    ensures Script(ChildScriptAsWritten(tokens, size))
    ensures Carried(TrafficBag(ChildScriptAsWritten(tokens, size)), UpperWords(tokens), RepeatedWords(tokens, size),
                    FitsOne(tokens, size))
  {
    hide Script, TrafficBag, Bag, BatchesAsWritten, ScriptOf, UpperWords, CountWords, OneMessage, Repeated, Flat;
    var ps, sent := CountWords(tokens), ChildBatchesAsWritten(tokens, size);
    CountsArePackable(tokens, size);
    ScriptOfIsScript(sent);
    ScriptBag(sent);
    CountWordsBag(tokens);
    AsWrittenDelivers(ps, 0, size);
    RepeatedIff(ps, size);
    assert ps[0..] == ps;
    BagIsEmptyIff(Repeated(sent));
  }

  /** The process version as written, on files for which its packer stops, writes what one sequential
      count writes if and only if the words of every single file fit into one message. */
  lemma AsWrittenIsRightIff(files: seq<seq<Word>>, size: nat, capacity: nat, moves: seq<Move>,
                            byProcesses: seq<Pair>, sequential: seq<Pair>)
    requires AllStop(files, size)
    requires RunExchange(ChildScriptsAsWritten(files, size), capacity, moves).Some?
    requires var s := RunExchange(ChildScriptsAsWritten(files, size), capacity, moves).value;
             && Stopped(ChildScriptsAsWritten(files, size), s)
             && SortOf(byProcesses, Merge(Received(ChildScriptsAsWritten(files, size), s)))
    requires SortOf(sequential, CountWords(Join(files)))
    ensures byProcesses == sequential <==> AllFit(files, size)
  {
    var scripts := ChildScriptsAsWritten(files, size);
    var total := Merge(Received(scripts, RunExchange(scripts, capacity, moves).value));
    AsWrittenCarries(files, size);
    ParentCountsAll(scripts, capacity, moves);
    hide RunExchange, Received, Merge, Stopped, AllFit, SortOf, Bag;
    SameOutputIff(files, size, total, byProcesses, sequential);
  }

  lemma SameOutputIff(files: seq<seq<Word>>, size: nat, total: seq<Pair>, byProcesses: seq<Pair>, sequential: seq<Pair>)
    requires AllStop(files, size) && Distinct(total)
    requires Carried(Bag(total), AllWords(files), AllRepeatedWords(files, size), AllFit(files, size))
    requires SortOf(byProcesses, total) && SortOf(sequential, CountWords(Join(files)))
    ensures byProcesses == sequential <==> AllFit(files, size)
  {
    hide Bag, AllFit, AllWords, AllRepeatedWords, AllStop, UpperWords, Join, CountWords, Distinct, Sorted;
    CountWordsBag(Join(files));
    JoinWords(files);
    if AllFit(files, size) {
      OutputIsDetermined(total, CountWords(Join(files)), byProcesses, sequential);
    } else {
      BagOfPermutation(byProcesses, total);
      BagOfPermutation(sequential, CountWords(Join(files)));
    }
  }

  // ---------- Files on which the packer as written fails ----------

  // Sixty-three times the same letter.
  function LongWord(letter: Byte): Word { seq(63, _ => letter) }

  lemma LongWordIsToken(letter: Byte)
    requires 65 <= letter <= 90
    ensures Token(LongWord(letter)) && Upper(LongWord(letter)) == LongWord(letter)
  {
    var w := LongWord(letter);
    UpperAt(w, 0);
    forall k | 0 <= k < |w| ensures Upper(w)[k] == w[k] { UpperAt(w, k); }
  }

  lemma CountNew(tokens: seq<Word>, w: Word)
    requires Upper(w) == w && !Lists(CountWords(tokens), w)
    ensures CountWords(tokens + [w]) == CountWords(tokens) + [Pair(w, 1)]
  {
    assert (tokens + [w])[..|tokens|] == tokens;
    IncrementNew(CountWords(tokens), w, 1);
  }

  function LongWords(n: nat): (tokens: seq<Word>)
    requires n <= 4
    ensures |tokens| == n
  {
    seq(n, k requires 0 <= k < n => LongWord(65 + k))
  }

  lemma {:induction false} LongWordsCounted(n: nat)
    requires n <= 4
    ensures Readable(LongWords(n)) && |CountWords(LongWords(n))| == n
    ensures forall k :: 0 <= k < n ==> CountWords(LongWords(n))[k] == Pair(LongWord(65 + k), 1)
  {
    if n > 0 {
      LongWordsCounted(n - 1);
      LongWordIsToken(64 + n);
      var w := LongWord(64 + n);
      var ps := CountWords(LongWords(n - 1));
      forall k | 0 <= k < |ps| ensures ps[k].word != w { assert LongWord(65 + k)[0] != w[0]; }
      CountNew(LongWords(n - 1), w);
      assert LongWords(n) == LongWords(n - 1) + [w];
    }
  }

  /** A file of two different words of 63 letters keeps the packer busy forever with messages of 128 bytes. */
  lemma SomeFileHangs()
    ensures var tokens := LongWords(2);
            Readable(tokens) && Packable(CountWords(tokens), 128) && !Terminates(CountWords(tokens), 128)
  {
    LongWordsCounted(2);
    var ps := CountWords(LongWords(2));
    SmallMessagesHang(ps[0], ps[1]);
    assert ps == [ps[0], ps[1]];
  }

  /** A file of four such words is delivered with a fifth one, the third again, in messages of 256 bytes. */
  lemma SomeFileIsMiscounted()
    ensures var tokens := LongWords(4);
            && Stops(tokens, 256) && !FitsOne(tokens, 256)
            && RepeatedWords(tokens, 256) == multiset{LongWord(67)}
            && Bag(Flat(ChildBatchesAsWritten(tokens, 256))) != UpperWords(tokens)
  {
    LongWordsCounted(4);
    var ps := CountWords(LongWords(4));
    CountsArePackable(LongWords(4), 256);
    FourPairs(ps);
    CountWordsBag(LongWords(4));
    AsWrittenDelivers(ps, 0, 256);
    assert ps[0..] == ps;
    assert Bag([ps[2]]) == multiset{LongWord(67)};
    RepeatedIff(ps, 256);
  }

  lemma FourPairs(ps: seq<Pair>)
    requires |ps| == 4 && Packable(ps, 256) && forall k :: 0 <= k < 4 ==> |ps[k].word| == 63
    ensures NeighboursFit(ps, 256) && BatchesAsWritten(ps, 0, 256) == [ps[0..3], ps[2..4]]
    ensures Repeated(BatchesAsWritten(ps, 0, 256)) == [ps[2]]
  {
    assert PackCount(ps, 3, 48) == 0 && PackCount(ps, 2, 116) == 1 && PackCount(ps, 1, 184) == 2;
    assert PackCount(ps, 4, 116) == 0 && PackCount(ps, 3, 184) == 1;
    AsWrittenUnfolds(ps, 0, 256);
    AsWrittenUnfolds(ps, 2, 256);
    assert BatchesAsWritten(ps, 4, 256) == [];
    assert [ps[0..3], ps[2..4]][1..] == [ps[2..4]];
    assert LastOf(ps[0..3]) == [ps[2]];
  }

  /** So on that file the process version writes something else than a sequential count, in every run. */
  lemma SomeOutputIsWrong(capacity: nat, moves: seq<Move>, byProcesses: seq<Pair>, sequential: seq<Pair>)
    requires Stops(LongWords(4), 256)  // as it does, by the lemma above
    requires RunExchange(ChildScriptsAsWritten([LongWords(4)], 256), capacity, moves).Some?
    requires var scripts := ChildScriptsAsWritten([LongWords(4)], 256);
             var s := RunExchange(scripts, capacity, moves).value;
             Stopped(scripts, s) && SortOf(byProcesses, Merge(Received(scripts, s)))
    requires SortOf(sequential, CountWords(Join([LongWords(4)])))
    ensures byProcesses != sequential
  {
    hide FitsOne, RunExchange, Stopped, SortOf, Merge, Received, Stops, LongWords, ChildScriptsAsWritten, RepeatedWords;
    var files := [LongWords(4)];
    SomeFileIsMiscounted();
    assert !FitsOne(files[0], 256);
    AsWrittenIsRightIff(files, 256, capacity, moves, byProcesses, sequential);
  }
}
