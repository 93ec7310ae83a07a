/** What several parts need of sequences and sets. */
module Collections {

  datatype Option<T> = None | Some(value: T)

  function Min(a: int, b: int): int { if a < b then a else b }

  predicate NoDup<T(==)>(s: seq<T>) { forall i, j :: 0 <= i < j < |s| ==> s[i] != s[j] }

  // Without the first occurrence of x.
  function Remove<T(==)>(s: seq<T>, x: T): seq<T> {
    if s == [] then [] else if s[0] == x then s[1..] else [s[0]] + Remove(s[1..], x)
  }

  lemma {:induction false} RemoveProperties<T>(s: seq<T>, x: T)
    requires NoDup(s)
    ensures NoDup(Remove(s, x))
    ensures forall y :: y in Remove(s, x) <==> y in s && y != x
    ensures |Remove(s, x)| == if x in s then |s| - 1 else |s|
  {
    if s != [] && s[0] != x {
      assert s == [s[0]] + s[1..];
      RemoveProperties(s[1..], x);
      assert s[0] !in s[1..];
    } else if s != [] {
      assert s == [s[0]] + s[1..];
    }
  }

  lemma {:induction false} RemoveAppend<T>(s: seq<T>, t: seq<T>, x: T)
    ensures Remove(s + t, x) == if x in s then Remove(s, x) + t else s + Remove(t, x)
  {
    hide Remove;
    if s == [] {
      assert s + t == t;
      assert [] + Remove(t, x) == Remove(t, x);
    } else {
      RemoveAppend(s[1..], t, x);
      RemoveAppendCons(s[0], s[1..], t, x);
      assert s == [s[0]] + s[1..];
    }
  }

  lemma RemoveAppendCons<T>(y: T, s: seq<T>, t: seq<T>, x: T)
    requires Remove(s + t, x) == if x in s then Remove(s, x) + t else s + Remove(t, x)
    ensures var s' := [y] + s; Remove(s' + t, x) == if x in s' then Remove(s', x) + t else s' + Remove(t, x)
  {
    RemoveCons(y, s, x);
    RemoveCons(y, s + t, x);
    InCons(y, s, x);
    Associates([y], s, t);
    hide Remove;
    if y != x {
      Associates([y], Remove(s, x), t);
      Associates([y], s, Remove(t, x));
    }
  }

  lemma InCons<T>(y: T, s: seq<T>, x: T)
    ensures x in [y] + s <==> x == y || x in s
  {
  }

  lemma Associates<T>(a: seq<T>, b: seq<T>, c: seq<T>)
    ensures (a + b) + c == a + (b + c)
  {
  }

  lemma RemoveCons<T>(y: T, s: seq<T>, x: T)
    ensures Remove([y] + s, x) == if y == x then s else [y] + Remove(s, x)
  {
    assert ([y] + s)[1..] == s;
  }

  // Without the element at position k.
  function Cut<T>(s: seq<T>, k: nat): (r: seq<T>)
    requires k < |s|
    ensures |r| == |s| - 1
    ensures forall j :: 0 <= j < |r| ==> r[j] == s[if j < k then j else j + 1]
  {
    s[..k] + s[k + 1..]
  }

  // The first n numbers.
  function Below(n: nat): (r: set<nat>)
    ensures |r| == n && forall i: nat :: i in r <==> i < n
  {
    if n == 0 then {} else Below(n - 1) + {n - 1}
  }

  lemma SubsetCount<T>(a: set<T>, b: set<T>)
    requires a <= b
    ensures |a| <= |b|
    ensures |a| == |b| ==> a == b
  {
    assert b == a + (b - a);
    assert |b| == |a| + |b - a|;
  }

  /** Different numbers from lo up to hi are at most hi - lo many. */
  lemma {:induction false} NoDupInRange(s: seq<int>, lo: int, hi: int)
    requires NoDup(s) && lo <= hi && forall x :: x in s ==> lo <= x < hi
    ensures |s| <= hi - lo
    decreases hi - lo
  {
    if s != [] {
      assert s[0] in s && lo <= s[0] < hi;
      RemoveProperties(s, hi - 1);
      NoDupInRange(Remove(s, hi - 1), lo, hi - 1);
    }
  }
}
