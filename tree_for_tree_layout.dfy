/**
  The tree-access contract the layout engine is written against.

  A node is its identity `id` together with its ordered children; the caller's
  tree is given by its root node. The contract's queries (leaf test, child-of
  test, children forward and backward, first and last child) are functions on
  these values, and the structural notions the engine relies on (the ids of a
  subtree, "every node occurs once", depth and height) are defined here too.
*/
module TreeForTreeLayout {

  /** A tree node: its identity and its children from first to last. */
  datatype Tree<N> = Node(id: N, kids: seq<Tree<N>>)

  /** True iff the node has no children. */
  predicate IsLeaf<N>(node: Tree<N>)
  {
    |node.kids| == 0
  }

  /** True iff `node` is one of the children of `parentNode`. */
  predicate IsChildOfParent<N(==)>(node: Tree<N>, parentNode: Tree<N>)
  {
    node in parentNode.kids
  }

  /** The children of a node, from first to last (empty for a leaf). */
  function GetChildren<N>(parentNode: Tree<N>): seq<Tree<N>>
  {
    parentNode.kids
  }

  /** A sequence read from last to first. */
  function Reversed<T>(s: seq<T>): (r: seq<T>)
    ensures |r| == |s|
    ensures forall i :: 0 <= i < |s| ==> r[i] == s[|s| - 1 - i]
  {
    if s == [] then [] else Reversed(s[1..]) + [s[0]]
  }

  /** The children of a node, from last to first. */
  function GetChildrenReverse<N>(parentNode: Tree<N>): (r: seq<Tree<N>>)
    ensures |r| == |GetChildren(parentNode)|
    ensures forall i :: 0 <= i < |r| ==> r[i] == GetChildren(parentNode)[|r| - 1 - i]
  {
    Reversed(parentNode.kids)
  }

  /** The first child of a node that is not a leaf. */
  function GetFirstChild<N(==)>(parentNode: Tree<N>): (c: Tree<N>)
    requires !IsLeaf(parentNode)
    ensures IsChildOfParent(c, parentNode)
    ensures c == GetChildren(parentNode)[0]
  {
    parentNode.kids[0]
  }

  /** The last child of a node that is not a leaf. */
  function GetLastChild<N(==)>(parentNode: Tree<N>): (c: Tree<N>)
    requires !IsLeaf(parentNode)
    ensures IsChildOfParent(c, parentNode)
    ensures c == GetChildren(parentNode)[|GetChildren(parentNode)| - 1]
  {
    parentNode.kids[|parentNode.kids| - 1]
  }

  /** The interface's documented promises hold of these queries, for every node. */
  lemma MeetsInterfaceContract<N>(node: Tree<N>)
    ensures IsLeaf(node) <==> GetChildren(node) == []
    ensures forall c :: IsChildOfParent(c, node) <==> c in GetChildren(node)
    ensures !IsLeaf(node) ==> GetChildrenReverse(node)[0] == GetLastChild(node)
    ensures !IsLeaf(node) ==>
      GetChildrenReverse(node)[|GetChildren(node)| - 1] == GetFirstChild(node)
    ensures Reversed(GetChildrenReverse(node)) == GetChildren(node)
  {
    ReversedTwice(node.kids);
  }

  lemma {:induction false} ReversedTwice<T>(s: seq<T>)
    ensures Reversed(Reversed(s)) == s
  {
    var r := Reversed(Reversed(s));
    assert |r| == |s|;
    forall i | 0 <= i < |s| ensures r[i] == s[i] {
      assert Reversed(s)[|s| - 1 - i] == s[i];
    }
  }

  // ------------------------------------------------------------------------
  // Structure of a tree

  /** The ids of all nodes of a subtree. */
  function Ids<N>(t: Tree<N>): set<N>
    decreases t, 1
  {
    {t.id} + KidsIds(t, |t.kids|)
  }

  /** The ids of the subtrees of the first `n` children of `t`. */
  function KidsIds<N>(t: Tree<N>, n: nat): set<N>
    requires n <= |t.kids|
    decreases t, 0, n
  {
    if n == 0 then {} else KidsIds(t, n - 1) + Ids(t.kids[n - 1])
  }

  /** Every node of the subtree occurs exactly once: the source's "each node
      must only exist once" requirement on a tree. */
  predicate UniqueIds<N(==)>(t: Tree<N>)
    decreases t, 1
  {
    t.id !in KidsIds(t, |t.kids|) && KidsUnique(t, |t.kids|)
  }

  /** The subtrees of the first `n` children of `t` each hold every node
      once, and share no node with each other. */
  predicate KidsUnique<N(==)>(t: Tree<N>, n: nat)
    requires n <= |t.kids|
    decreases t, 0, n
  {
    n == 0 || (KidsUnique(t, n - 1) && UniqueIds(t.kids[n - 1]) && KidsIds(t, n - 1) !! Ids(t.kids[n - 1]))
  }

  /** Membership in the ids below the first `n` children. */
  lemma {:induction false} KidsIdsSpec<N>(t: Tree<N>, n: nat, x: N)
    requires n <= |t.kids|
    ensures x in KidsIds(t, n) <==> exists i :: 0 <= i < n && x in Ids(t.kids[i])
  {
    if n > 0 {
      KidsIdsSpec(t, n - 1, x);
    }
  }

  /** What the recursive definition of `UniqueIds` says of each child: its
      subtree is unique, lies below `t`, and shares no node with a sibling's. */
  lemma {:induction false} KidsUniqueSpec<N>(t: Tree<N>, n: nat)
    requires n <= |t.kids| && KidsUnique(t, n)
    ensures forall i :: 0 <= i < n ==> UniqueIds(t.kids[i]) && Ids(t.kids[i]) <= KidsIds(t, n)
    ensures forall i, j :: 0 <= i < j < n ==> Ids(t.kids[i]) !! Ids(t.kids[j])
  {
    if n > 0 {
      KidsUniqueSpec(t, n - 1);
      forall i, j | 0 <= i < j < n ensures Ids(t.kids[i]) !! Ids(t.kids[j]) {
        if j == n - 1 {
          assert Ids(t.kids[i]) <= KidsIds(t, n - 1);
        }
      }
    }
  }

  /** Pairwise distinct ids of a list of siblings. */
  predicate DistinctIds<N(==)>(ts: seq<Tree<N>>)
  {
    forall i, j :: 0 <= i < j < |ts| ==> ts[i].id != ts[j].id
  }

  lemma UniqueIdsSiblings<N>(t: Tree<N>)
    requires UniqueIds(t)
    ensures DistinctIds(t.kids)
    ensures forall i :: 0 <= i < |t.kids| ==> t.kids[i].id != t.id && UniqueIds(t.kids[i])
    ensures forall i :: 0 <= i < |t.kids| ==> t.kids[i].id in Ids(t.kids[i])
  {
    KidsUniqueSpec(t, |t.kids|);
    forall i, j | 0 <= i < j < |t.kids| ensures t.kids[i].id != t.kids[j].id {
      assert t.kids[i].id in Ids(t.kids[i]);
      assert t.kids[j].id in Ids(t.kids[j]);
    }
    forall i | 0 <= i < |t.kids| ensures t.kids[i].id != t.id {
      assert t.kids[i].id in Ids(t.kids[i]);
    }
  }

  /** Number of levels below `t`: 0 for a leaf. */
  function Height<N>(t: Tree<N>): nat
    decreases t, |t.kids| + 1
  {
    if t.kids == [] then 0 else 1 + MaxHeight(t, |t.kids|)
  }

  /** The largest height among the first `n` children of `t`. */
  function MaxHeight<N>(t: Tree<N>, n: nat): nat
    requires n <= |t.kids|
    decreases t, n
  {
    if n == 0 then 0
    else
      var h := Height(t.kids[n - 1]);
      var rest := MaxHeight(t, n - 1);
      if rest < h then h else rest
  }

  lemma {:induction false} MaxHeightBounds<N>(t: Tree<N>, n: nat, i: nat)
    requires i < n <= |t.kids|
    ensures Height(t.kids[i]) <= MaxHeight(t, n)
  {
    if i < n - 1 {
      MaxHeightBounds(t, n - 1, i);
    }
  }

  lemma {:induction false} MaxHeightAttained<N>(t: Tree<N>, n: nat) returns (i: nat)
    requires 0 < n <= |t.kids|
    ensures i < n && Height(t.kids[i]) == MaxHeight(t, n)
  {
    if n == 1 || MaxHeight(t, n - 1) <= Height(t.kids[n - 1]) {
      i := n - 1;
    } else {
      i := MaxHeightAttained(t, n - 1);
    }
  }

  /** Every child is at least one level lower than its parent. */
  lemma KidHeight<N>(t: Tree<N>, i: nat)
    requires i < |t.kids|
    ensures Height(t.kids[i]) + 1 <= Height(t)
  {
    MaxHeightBounds(t, |t.kids|, i);
  }

  /** `s` occurs in `t` exactly `d` levels below its root. */
  predicate AtDepth<N(==)>(t: Tree<N>, s: Tree<N>, d: nat)
    decreases t
  {
    if d == 0 then s == t
    else exists i :: 0 <= i < |t.kids| && AtDepth(t.kids[i], s, d - 1)
  }

  /** Nothing lies deeper than the tree's height. */
  lemma {:induction false} AtDepthBelowHeight<N>(t: Tree<N>, s: Tree<N>, d: nat)
    requires AtDepth(t, s, d)
    ensures d <= Height(t)
    decreases t
  {
    if d > 0 {
      var i :| 0 <= i < |t.kids| && AtDepth(t.kids[i], s, d - 1);
      AtDepthBelowHeight(t.kids[i], s, d - 1);
      KidHeight(t, i);
    }
  }

  /** Every depth up to the height holds at least one node. */
  lemma {:induction false} SomeNodeAtEveryDepth<N>(t: Tree<N>, d: nat) returns (s: Tree<N>)
    requires d <= Height(t)
    ensures AtDepth(t, s, d)
    decreases t
  {
    if d == 0 {
      s := t;
    } else {
      var i := MaxHeightAttained(t, |t.kids|);
      s := SomeNodeAtEveryDepth(t.kids[i], d - 1);
    }
  }
}
