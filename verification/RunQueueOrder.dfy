/** The run queue as a sequence: which element is picked. */
module RunQueueOrder {

  // Position of the first smallest key; the loop keeps the earlier one on a tie.
  function SmallestIndex(keys: seq<real>): (k: nat)
    requires keys != []
    ensures k < |keys|
    ensures forall j :: 0 <= j < |keys| ==> keys[k] <= keys[j]
    ensures forall j :: 0 <= j < k ==> keys[k] < keys[j]
  {
    var n := |keys| - 1;
    if n == 0 then 0
    else
      var m := SmallestIndex(keys[..n]);
      if keys[m] > keys[n] then n else m
  }

  // m is the first smallest among the first k keys, or 0 before any was looked at.
  ghost predicate SmallestSoFar(keys: seq<real>, k: nat, m: nat) {
    m < |keys| && k <= |keys| && m == if k == 0 then 0 else SmallestIndex(keys[..k])
  }

  lemma SmallestExtends(keys: seq<real>, k: nat, m: nat)
    requires k < |keys| && SmallestSoFar(keys, k, m)
    ensures SmallestSoFar(keys, k + 1, if keys[m] > keys[k] then k else m)
  {
    assert keys[..k + 1][..k] == keys[..k];
  }

  lemma SmallestOfAll(keys: seq<real>, m: nat)
    requires keys != [] && SmallestSoFar(keys, |keys|, m)
    ensures m == SmallestIndex(keys)
  {
    assert keys[..|keys|] == keys;
  }
}
