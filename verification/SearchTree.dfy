/** A search tree of linked nodes, grown in place by descending from its root, and the program that fills
    it with distinct random numbers. */
module SearchTree {

  class TreeNode {
    var val: int
    var left: TreeNode?
    var right: TreeNode?

    constructor (val: int)
      ensures this.val == val && left == null && right == null
    {
      this.val, left, right := val, null, null;
    }
  }

  // The tree that linked nodes form, with the values they hold.
  datatype Tree = Leaf | Branch(left: Tree, node: TreeNode, val: int, right: Tree)

  function Nodes(t: Tree): set<TreeNode> {
    match t case Leaf => {} case Branch(l, x, _, r) => Nodes(l) + {x} + Nodes(r)
  }

  function Root(t: Tree): TreeNode? {
    if t == Leaf then null else t.node
  }

  // No node is reached twice.
  predicate Separate(t: Tree) {
    match t
    case Leaf => true
    case Branch(l, x, _, r) =>
      x !in Nodes(l) && x !in Nodes(r) && Nodes(l) !! Nodes(r) && Separate(l) && Separate(r)
  }

  // All branches of t, itself included.
  function Branches(t: Tree): (bs: set<Tree>)
    ensures forall b :: b in bs ==> b.Branch? && b.node in Nodes(t)
  {
    match t case Leaf => {} case Branch(l, _, _, r) => Branches(l) + {t} + Branches(r)
  }

  predicate Links(b: Tree)
    requires b.Branch?
    reads b.node
  {
    b.node.val == b.val && b.node.left == Root(b.left) && b.node.right == Root(b.right)
  }

  // The nodes reached from root are those of t, with its values, and linked as in t.
  ghost predicate Shape(root: TreeNode?, t: Tree)
    reads Nodes(t)
  {
    root == Root(t) && Separate(t) && forall b :: b in Branches(t) ==> Links(b)
  }

  // The values from left to right.
  function Values(t: Tree): seq<int> {
    match t case Leaf => [] case Branch(l, _, v, r) => Values(l) + [v] + Values(r)
  }

  // Smaller and equal values are on the left, larger ones on the right.
  predicate Ordered(t: Tree) {
    match t
    case Leaf => true
    case Branch(l, _, v, r) =>
      && Ordered(l) && Ordered(r)
      && (forall a :: a in Values(l) ==> a <= v)
      && forall a :: a in Values(r) ==> v < a
  }

  // The tree with a new node for val where the search for it ends.
  function Inserted(t: Tree, x: TreeNode, val: int): Tree {
    match t
    case Leaf => Branch(Leaf, x, val, Leaf)
    case Branch(l, y, v, r) =>
      if v < val then Branch(l, y, v, Inserted(r, x, val)) else Branch(Inserted(l, x, val), y, v, r)
  }

  // The node under which it is linked.
  function Parent(t: Tree, val: int): (y: TreeNode)
    requires t.Branch?
    ensures y in Nodes(t)
  {
    var next := if t.val < val then t.right else t.left;
    if next == Leaf then t.node else Parent(next, val)
  }

  // ---------- Order ----------

  predicate Ascending(s: seq<int>) { forall i, j :: 0 <= i < j < |s| ==> s[i] <= s[j] }

  // val in front of the first value that is not smaller.
  function InsertSorted(s: seq<int>, val: int): seq<int> {
    if s == [] || val <= s[0] then [val] + s else [s[0]] + InsertSorted(s[1..], val)
  }

  lemma {:induction false} InsertLeft(s: seq<int>, rest: seq<int>, val: int)
    requires rest != [] && val <= rest[0]
    ensures InsertSorted(s + rest, val) == InsertSorted(s, val) + rest
  {
    if s != [] {
      assert (s + rest)[1..] == s[1..] + rest;
      InsertLeft(s[1..], rest, val);
    } else {
      assert s + rest == rest;
    }
  }

  lemma InsertCons(a: int, s: seq<int>, val: int)
    requires a < val
    ensures InsertSorted([a] + s, val) == [a] + InsertSorted(s, val)
  {
    assert ([a] + s)[1..] == s;
  }

  lemma {:induction false} InsertRight(s: seq<int>, rest: seq<int>, val: int)
    requires forall a :: a in s ==> a < val
    ensures InsertSorted(s + rest, val) == s + InsertSorted(rest, val)
  {
    if s != [] {
      assert s[0] in s && forall a :: a in s[1..] ==> a in s;
      assert s + rest == [s[0]] + (s[1..] + rest);
      InsertCons(s[0], s[1..] + rest, val);
      hide InsertSorted;
      InsertRight(s[1..], rest, val);
    } else {
      assert s + rest == rest;
    }
  }

  /** The descent puts the value exactly where insertion into the sorted sequence puts it. */
  lemma {:induction false} InsertedValues(t: Tree, x: TreeNode, val: int)
    requires Ordered(t)
    ensures Values(Inserted(t, x, val)) == InsertSorted(Values(t), val)
  {
    if t.Branch? {
      var l, r := Values(t.left), Values(t.right);
      assert l + [t.val] + r == l + ([t.val] + r);
      if t.val < val {
        InsertedValues(t.right, x, val);
        InsertRight(l + [t.val], r, val);
      } else {
        InsertedValues(t.left, x, val);
        InsertLeft(l, [t.val] + r, val);
      }
    }
  }

  /** It adds that one value, and nothing else changes. */
  lemma {:induction false} InsertSortedBag(s: seq<int>, val: int)
    ensures multiset(InsertSorted(s, val)) == multiset(s) + multiset{val}
  {
    if s != [] && s[0] < val {
      InsertSortedBag(s[1..], val);
      assert s == [s[0]] + s[1..];
    }
  }

  lemma InsertSortedMembers(s: seq<int>, val: int, a: int)
    ensures a in InsertSorted(s, val) <==> a in s || a == val
  {
    InsertSortedBag(s, val);
    assert a in InsertSorted(s, val) <==> a in multiset(InsertSorted(s, val));
    assert a in s <==> a in multiset(s);
  }

  /** The order survives, with equal values still on the left. */
  lemma {:induction false} InsertedOrdered(t: Tree, x: TreeNode, val: int)
    requires Ordered(t)
    ensures Ordered(Inserted(t, x, val))
  {
    if t.Branch? {
      var next := if t.val < val then t.right else t.left;
      InsertedOrdered(next, x, val);
      InsertedValues(next, x, val);
      forall a ensures a in Values(Inserted(next, x, val)) <==> a in Values(next) || a == val {
        InsertSortedMembers(Values(next), val, a);
      }
    }
  }

  lemma {:induction false} OrderedIsSorted(t: Tree)
    requires Ordered(t)
    ensures Ascending(Values(t))
  {
    if t.Branch? {
      OrderedIsSorted(t.left);
      OrderedIsSorted(t.right);
      var l, r := Values(t.left), Values(t.right);
      assert forall i :: 0 <= i < |l| ==> l[i] in l;
      assert forall i :: 0 <= i < |r| ==> r[i] in r;
    }
  }

  // ---------- Nodes ----------

  lemma {:induction false} InsertedNodes(t: Tree, x: TreeNode, val: int)
    ensures Nodes(Inserted(t, x, val)) == Nodes(t) + {x}
    ensures Separate(t) && x !in Nodes(t) ==> Separate(Inserted(t, x, val))
  {
    if t.Branch? {
      InsertedNodes(t.left, x, val);
      InsertedNodes(t.right, x, val);
    }
  }

  /** One link is all that tells the new tree from the old one: every branch but the new one has the links
      of an old branch, except that the parent now leads to the new node. */
  lemma {:induction false} OneLinkChanges(t: Tree, x: TreeNode, val: int, b': Tree) returns (b: Tree)
    requires t.Branch? && Separate(t)
    requires b' in Branches(Inserted(t, x, val)) && b' != Branch(Leaf, x, val, Leaf)
    ensures b in Branches(t) && b.node == b'.node && b.val == b'.val
    ensures Root(b'.left) == if b.node == Parent(t, val) && val <= b.val then x else Root(b.left)
    ensures Root(b'.right) == if b.node == Parent(t, val) && b.val < val then x else Root(b.right)
  {
    var next, other := if t.val < val then t.right else t.left, if t.val < val then t.left else t.right;
    if b' == Inserted(t, x, val) {
      b := t;
    } else if b' in Branches(other) {
      b := b';
    } else if next.Branch? {
      b := OneLinkChanges(next, x, val, b');
    } else {
      assert false;
    }
  }

  // The value kept by node y, and its links, once x hangs under it.
  ghost predicate Hung(t: Tree, x: TreeNode, val: int)
    requires t.Branch?
    reads x, Nodes(t)
  {
    && x.val == val && x.left == x.right == null
    && forall b :: b in Branches(t) ==>
         && b.node.val == b.val
         && b.node.left == (if b.node == Parent(t, val) && val <= b.val then x else Root(b.left))
         && b.node.right == (if b.node == Parent(t, val) && b.val < val then x else Root(b.right))
  }

  lemma HungShape(root: TreeNode, t: Tree, x: TreeNode, val: int)
    requires t.Branch? && root == Root(t) && Separate(t) && x !in Nodes(t) && Hung(t, x, val)
    ensures Shape(root, Inserted(t, x, val))
  {
    InsertedNodes(t, x, val);
    forall b' | b' in Branches(Inserted(t, x, val)) ensures Links(b') {
      if b' != Branch(Leaf, x, val, Leaf) {
        var b := OneLinkChanges(t, x, val, b');
      }
    }
  }

  lemma ShapeOfChildren(t: Tree)
    requires t.Branch? && Shape(t.node, t)
    ensures Links(t) && Shape(t.node.left, t.left) && Shape(t.node.right, t.right)
  {
    assert t in Branches(t);
  }

  lemma ShapeOfOne(x: TreeNode, val: int)
    requires x.val == val && x.left == x.right == null
    ensures Shape(x, Branch(Leaf, x, val, Leaf))
  {
    assert Branches(Branch(Leaf, x, val, Leaf)) == {Branch(Leaf, x, val, Leaf)};
  }

  lemma NodesAllocated(t: Tree)
    ensures forall y :: y in Nodes(t) ==> allocated(y)
  {
  }

  method InsertBstNode(root: TreeNode?, val: int, ghost t: Tree) returns (ghost t': Tree)
    requires Shape(root, t)
    modifies if t == Leaf then {} else {Parent(t, val)}
    ensures Shape(root, t')
    ensures root == null ==> t' == t
    ensures root != null ==> exists x: TreeNode :: fresh(x) && t' == Inserted(t, x, val)
  {
    t' := t;
    ghost var s := t;
    var node := root;
    while node != null
      invariant Shape(root, t) && Shape(node, s) && t' == t
      invariant node == null <==> root == null
      invariant node != null ==> Parent(s, val) == Parent(t, val)
      decreases s
    {
      ShapeOfChildren(s);
      if node.val < val {
        if node.right == null {
          t' := LinkRight(root, node, val, t);
          return;
        }
        node, s := node.right, s.right;
      } else {
        if node.left == null {
          t' := LinkLeft(root, node, val, t);
          return;
        }
        node, s := node.left, s.left;
      }
    }
  }

  // The assignments of a new node to a link that leads nowhere.
  method LinkRight(ghost root: TreeNode, node: TreeNode, val: int, ghost t: Tree) returns (ghost t': Tree)
    requires t.Branch? && Shape(root, t) && node == Parent(t, val) && node.val < val
    modifies node
    ensures Shape(root, t') && exists x: TreeNode :: fresh(x) && t' == Inserted(t, x, val)
  {
    NodesAllocated(t);
    var x := new TreeNode(val);
    node.right := x;
    HungShape(root, t, x, val);
    t' := Inserted(t, x, val);
  }

  method LinkLeft(ghost root: TreeNode, node: TreeNode, val: int, ghost t: Tree) returns (ghost t': Tree)
    requires t.Branch? && Shape(root, t) && node == Parent(t, val) && val <= node.val
    modifies node
    ensures Shape(root, t') && exists x: TreeNode :: fresh(x) && t' == Inserted(t, x, val)
  {
    NodesAllocated(t);
    var x := new TreeNode(val);
    node.left := x;
    HungShape(root, t, x, val);
    t' := Inserted(t, x, val);
  }

  method TraverseInorder(root: TreeNode?, ghost t: Tree) returns (printed: seq<int>)
    requires Shape(root, t)
    ensures printed == Values(t)
    decreases t
  {
    if root == null {
      return [];
    }
    ShapeOfChildren(t);
    NodesAllocated(t.right);
    var before := TraverseInorder(root.left, t.left);
    var after := TraverseInorder(root.right, t.right);
    printed := before + [root.val] + after;
  }

  // ---------- The program ----------

  predicate StrictlyAscending(s: seq<int>) { forall i, j :: 0 <= i < j < |s| ==> s[i] < s[j] }

  function Used(table: seq<bool>): nat {
    if table == [] then 0 else (if table[0] then 1 else 0) + Used(table[1..])
  }

  // The tree holds every number marked in the table, once.
  ghost predicate Holds(t: Tree, table: seq<bool>) {
    && Ordered(t) && StrictlyAscending(Values(t)) && |Values(t)| == Used(table)
    && forall v :: v in Values(t) <==> 0 <= v < |table| && table[v]
  }

  lemma {:induction false} MarkOne(table: seq<bool>, k: nat)
    requires k < |table| && !table[k]
    ensures Used(table[k := true]) == Used(table) + 1
  {
    if k > 0 {
      MarkOne(table[1..], k - 1);
      assert table[k := true][1..] == table[1..][k - 1 := true];
    } else {
      assert table[k := true][1..] == table[1..];
    }
  }

  /** While fewer numbers are used than there are, one is left to draw. */
  lemma {:induction false} SomeUnused(table: seq<bool>)
    requires Used(table) < |table|
    ensures exists k :: 0 <= k < |table| && !table[k]
  {
    if table[0] {
      SomeUnused(table[1..]);
      var k :| 0 <= k < |table[1..]| && !table[1..][k];
      assert !table[k + 1];
    }
  }

  lemma {:induction false} NoneUsed(table: seq<bool>)
    requires forall k :: 0 <= k < |table| ==> !table[k]
    ensures Used(table) == 0
  {
    if table != [] {
      NoneUsed(table[1..]);
    }
  }

  lemma {:induction false} InsertStrict(s: seq<int>, val: int)
    requires StrictlyAscending(s) && val !in s
    ensures StrictlyAscending(InsertSorted(s, val)) && |InsertSorted(s, val)| == |s| + 1
  {
    if s != [] && s[0] < val {
      InsertStrict(s[1..], val);
      var rest := InsertSorted(s[1..], val);
      forall i | 0 <= i < |rest| ensures s[0] < rest[i] {
        InsertSortedMembers(s[1..], val, rest[i]);
      }
    }
  }

  /** Drawing an unused number, marking and inserting it keeps tree and table in step. */
  lemma HoldsStep(t: Tree, table: seq<bool>, x: TreeNode, v: nat)
    requires Holds(t, table) && v < |table| && !table[v]
    ensures Holds(Inserted(t, x, v), table[v := true]) && Used(table[v := true]) == Used(table) + 1
    ensures multiset(Values(Inserted(t, x, v))) == multiset(Values(t)) + multiset{v}
  {
    hide Ordered, Inserted, InsertSorted, Values, Used;
    InsertSortedBag(Values(t), v);
    InsertedOrdered(t, x, v);
    InsertedValues(t, x, v);
    InsertStrict(Values(t), v);
    MarkOne(table, v);
    forall a ensures a in InsertSorted(Values(t), v) <==> a in Values(t) || a == v {
      InsertSortedMembers(Values(t), v, a);
    }
  }

  function UpTo(n: nat): seq<int> { seq(n, i => i) }

  lemma {:induction false} AtLeastIndex(s: seq<int>, i: nat)
    requires StrictlyAscending(s) && i < |s| && forall a :: a in s ==> 0 <= a < |s|
    ensures i <= s[i] && s[|s| - 1 - i] <= |s| - 1 - i
  {
    if i > 0 {
      AtLeastIndex(s, i - 1);
    } else {
      assert s[0] in s && s[|s| - 1] in s;
    }
  }

  /** When all numbers are used, the tree read from left to right is 0, 1, and so on up to the last. */
  lemma HoldsAll(t: Tree, table: seq<bool>)
    requires Holds(t, table) && Used(table) == |table|
    ensures Values(t) == UpTo(|table|)
  {
    var s := Values(t);
    forall i | 0 <= i < |s| ensures s[i] == i {
      AtLeastIndex(s, i);
      AtLeastIndex(s, |s| - 1 - i);
    }
  }

  lemma HoldsFirst(x: TreeNode, table: seq<bool>, v: nat)
    requires v < |table| && forall k :: 0 <= k < |table| ==> !table[k]
    ensures var t, marked := Branch(Leaf, x, v, Leaf), table[v := true];
            Holds(t, marked) && Used(marked) == 1 && Values(t) == [v]
  {
    NoneUsed(table);
    MarkOne(table, v);
    assert Values(Leaf) == [];
    assert Values(Branch(Leaf, x, v, Leaf)) == [v];
  }

  // One turn of the filling loop.
  method DrawAndInsert(root: TreeNode, table: array<bool>, ghost t: Tree)
      returns (randomNumber: nat, ghost t': Tree)
    requires Shape(root, t) && Holds(t, table[..]) && Used(table[..]) < table.Length
    modifies Nodes(t), table
    ensures Shape(root, t') && forall y :: y in Nodes(t') && y !in Nodes(t) ==> fresh(y)
    ensures Holds(t', table[..]) && Used(table[..]) == Used(old(table[..])) + 1
    ensures multiset(Values(t')) == multiset(Values(t)) + multiset{randomNumber as int}
  {
    hide Holds, Used, Shape, Inserted, Values;
    SomeUnused(table[..]);
    randomNumber :| 0 <= randomNumber < table.Length && !table[randomNumber];
    t' := InsertBstNode(root, randomNumber, t);
    ghost var x :| fresh(x) && t' == Inserted(t, x, randomNumber);
    HoldsStep(t, table[..], x, randomNumber);
    InsertedNodes(t, x, randomNumber);
    NodesAllocated(t');
    table[randomNumber] := true;
    assert table[..] == old(table[..])[randomNumber := true];
  }

  /** The whole program for n numbers: the middle one first, then n - 1 draws in any order. */
  method PopulateAndTraverse(n: nat) returns (drawn: seq<nat>, printed: seq<int>)
    requires n > 0
    ensures |drawn| == n - 1 && multiset([n / 2] + drawn) == multiset(printed)
    ensures printed == UpTo(n) && |printed| == n && forall k :: 0 <= k < n ==> printed[k] == k
  {
    hide Holds, Used, Values;
    var table := new bool[n](_ => false);
    var root := new TreeNode(n / 2);
    ghost var t := Branch(Leaf, root, n / 2, Leaf);
    HoldsFirst(root, table[..], n / 2);
    ghost var empty := table[..];
    table[n / 2] := true;
    assert table[..] == empty[n / 2 := true];
    ShapeOfOne(root, n / 2);
    drawn := [];
    for i := 0 to n - 1
      invariant Shape(root, t) && fresh(Nodes(t))
      invariant Holds(t, table[..]) && Used(table[..]) == i + 1 == |drawn| + 1
      invariant multiset([n / 2] + drawn) == multiset(Values(t))
    {
      ghost var before := [n / 2] + drawn;
      var randomNumber;
      randomNumber, t := DrawAndInsert(root, table, t);
      drawn := drawn + [randomNumber];
      assert [n / 2] + drawn == before + [randomNumber];
    }
    HoldsAll(t, table[..]);
    printed := TraverseInorder(root, t);
  }
}
