/** The list-backed adapter of the tree interface: a tree given by its root,
    a children-list function and a parent function. The two abstract methods
    a subclass supplies become function-valued fields. */
module AbstractTreeForTreeLayout {
  import opened Wrappers
  import TreeForTreeLayout

  /** A subclass of the adapter: `childrenList` and `parentOf` are its two
      abstract methods (None standing for a null parent). */
  datatype ListTree<!N> = ListTree(root: N, childrenList: N -> seq<N>, parentOf: N -> Option<N>)

  const NotImplemented := "Not implemented method"

  /** The parent function and the children lists describe the same edges. */
  ghost predicate Consistent<N(!new)>(t: ListTree<N>)
  {
    forall node: N, parentNode: N ::
      t.parentOf(node) == Some(parentNode) <==> node in t.childrenList(parentNode)
  }

  /** The adapter built around `root` hands it back unchanged. */
  function GetRoot<N>(t: ListTree<N>): (r: N)
    ensures r == t.root
    ensures ListTree(r, t.childrenList, t.parentOf) == t
  {
    t.root
  }

  predicate IsLeaf<N>(t: ListTree<N>, node: N)
    ensures IsLeaf(t, node) <==> t.childrenList(node) == []
  {
    |t.childrenList(node)| == 0
  }

  predicate IsChildOfParent<N(==)>(t: ListTree<N>, node: N, parentNode: N)
  {
    t.parentOf(node) == Some(parentNode)
  }

  function GetChildren<N>(t: ListTree<N>, node: N): seq<N>
  {
    t.childrenList(node)
  }

  /** As written, the reverse iteration is not implemented: it fails for
      every node. */
  function GetChildrenReverse<N>(t: ListTree<N>, node: N): (r: Result<seq<N>, string>)
    ensures r == Failure(NotImplemented)
  {
    Failure(NotImplemented)
  }

  /** The reverse iteration the interface asks for, which the commented-out
      line of the source would have returned. */
  function GetChildrenReverseCorrected<N>(t: ListTree<N>, node: N): (r: Result<seq<N>, string>)
    ensures r.Success?
    ensures |r.value| == |GetChildren(t, node)|
    ensures forall i :: 0 <= i < |r.value| ==>
      r.value[i] == GetChildren(t, node)[|r.value| - 1 - i]
  {
    Success(TreeForTreeLayout.Reversed(t.childrenList(node)))
  }

  function GetFirstChild<N(==,!new)>(t: ListTree<N>, parentNode: N): (c: N)
    requires !IsLeaf(t, parentNode)
    ensures c in GetChildren(t, parentNode)
    ensures Consistent(t) ==> IsChildOfParent(t, c, parentNode)
  {
    t.childrenList(parentNode)[0]
  }

  function GetLastChild<N(==,!new)>(t: ListTree<N>, parentNode: N): (c: N)
    requires !IsLeaf(t, parentNode)
    ensures c in GetChildren(t, parentNode)
    ensures Consistent(t) ==> IsChildOfParent(t, c, parentNode)
  {
    var cs := t.childrenList(parentNode);
    cs[|cs| - 1]
  }

  /** With consistent parent and children functions the adapter satisfies
      the interface's contract: child-of agrees with the children list, and
      the first and last child sit at the two ends of it. */
  lemma AdapterMeetsInterface<N(!new)>(t: ListTree<N>, parentNode: N)
    requires Consistent(t)
    ensures forall node: N :: IsChildOfParent(t, node, parentNode) <==> node in GetChildren(t, parentNode)
    ensures !IsLeaf(t, parentNode) ==>
      && GetFirstChild(t, parentNode) == GetChildren(t, parentNode)[0]
      && GetLastChild(t, parentNode) == GetChildren(t, parentNode)[|GetChildren(t, parentNode)| - 1]
  {
  }

  /** The as-written reverse iteration breaks the interface for every
      non-leaf: the corrected one returns the last child first, the
      as-written one returns nothing. */
  lemma ReverseIterationNotImplemented<N(!new)>(t: ListTree<N>, parentNode: N)
    requires !IsLeaf(t, parentNode)
    ensures GetChildrenReverse(t, parentNode).Failure?
    ensures GetChildrenReverseCorrected(t, parentNode).value[0] == GetLastChild(t, parentNode)
    ensures TreeForTreeLayout.Reversed(GetChildrenReverseCorrected(t, parentNode).value)
      == GetChildren(t, parentNode)
  {
    TreeForTreeLayout.ReversedTwice(t.childrenList(parentNode));
  }
}
