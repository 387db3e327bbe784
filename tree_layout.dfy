/**
  The tree layout engine: a port of the Reingold–Tilford algorithm in the
  linear-time form of Buchheim, Jünger and Leipert.

  A `TreeLayout` keeps per-node side tables (`mod`, `thread`, `prelim`,
  `change`, `shift`, `ancestor`, `number`, `positions`), keyed by node id,
  and fills them in three passes: `FirstWalk` (post-order, relative
  placement of siblings), `CalcSizeOfLevels` (the thickest node of each
  depth) and `SecondWalk` (pre-order, absolute coordinates and the running
  bounds). The pure functions first in this module state what those passes
  compute; the lemmas after them prove what the layout promises of it.
*/
module TreeLayout {
  import opened Wrappers
  import opened TreeForTreeLayout
  import opened Configuration
  import Geometry

  // ------------------------------------------------------------------------
  // Node extents and orientation

  /** Width and height of each node. */
  datatype NodeExtentProvider<!N> = NodeExtentProvider(width: N -> real, height: N -> real)

  /** The extent provider's contract: no node has a negative width or height. */
  ghost predicate ExtentsConform<N(!new)>(p: NodeExtentProvider<N>)
  {
    forall n: N :: p.width(n) >= 0.0 && p.height(n) >= 0.0
  }

  /** Levels follow each other along the y axis when the root is at the top
      or the bottom. */
  predicate IsLevelChangeInYAxis(rootLocation: Location)
  {
    rootLocation == Top || rootLocation == Bottom
  }

  /** Levels grow towards smaller coordinates when the root is at the bottom
      or on the right. */
  function LevelChangeSign(rootLocation: Location): (sign: real)
    ensures sign == 1.0 || sign == -1.0
    ensures sign == -1.0 <==> rootLocation == Bottom || rootLocation == Right
  {
    if rootLocation == Bottom || rootLocation == Right then -1.0 else 1.0
  }

  /** The extent of a node across its level: its height when levels change
      along y, its width otherwise. */
  function NodeThickness<N>(rootLocation: Location, ext: NodeExtentProvider<N>, node: N): real
  {
    if IsLevelChangeInYAxis(rootLocation) then ext.height(node) else ext.width(node)
  }

  /** The extent of a node along its level: the other dimension. */
  function NodeSize<N>(rootLocation: Location, ext: NodeExtentProvider<N>, node: N): real
  {
    if IsLevelChangeInYAxis(rootLocation) then ext.width(node) else ext.height(node)
  }

  /** Thickness and size are the two extents of a node, one each, and
      turning the root a quarter swaps them. */
  lemma ThicknessAndSizeAreTheTwoExtents<N>(ext: NodeExtentProvider<N>, node: N)
    ensures forall loc: Location ::
      {NodeThickness(loc, ext, node), NodeSize(loc, ext, node)} == {ext.width(node), ext.height(node)}
    ensures NodeSize(Top, ext, node) == NodeThickness(Left, ext, node) == ext.width(node)
    ensures NodeSize(Left, ext, node) == NodeThickness(Top, ext, node) == ext.height(node)
  {
  }

  /** The distance between the centres of two neighbours of a level: half of
      both sizes plus the configured gap. */
  function Distance<N(!new)>(cfg: Configuration<N>, ext: NodeExtentProvider<N>, v: N, w: N): (d: real)
    requires Conforms(cfg)
    ensures d >= (NodeSize(cfg.rootLocation, ext, v) + NodeSize(cfg.rootLocation, ext, w)) / 2.0
    ensures d - GetGapBetweenNodes(cfg, v, w) ==
      (NodeSize(cfg.rootLocation, ext, v) + NodeSize(cfg.rootLocation, ext, w)) / 2.0
  {
    var sizeOfNodes := NodeSize(cfg.rootLocation, ext, v) + NodeSize(cfg.rootLocation, ext, w);
    sizeOfNodes / 2.0 + GetGapBetweenNodes(cfg, v, w)
  }

  /** A node placed at `Distance` to the right of its neighbour `w` does not
      overlap it: the configured gap separates their extents. */
  lemma NeighboursDoNotOverlap<N(!new)>(cfg: Configuration<N>, ext: NodeExtentProvider<N>,
                                       v: N, w: N, centreV: real, centreW: real)
    requires Conforms(cfg)
    requires centreV == centreW + Distance(cfg, ext, v, w)
    ensures centreW + NodeSize(cfg.rootLocation, ext, w) / 2.0 + GetGapBetweenNodes(cfg, v, w)
         == centreV - NodeSize(cfg.rootLocation, ext, v) / 2.0
    ensures centreW + NodeSize(cfg.rootLocation, ext, w) / 2.0 <= centreV - NodeSize(cfg.rootLocation, ext, v) / 2.0
  {
  }

  // ------------------------------------------------------------------------
  // Side tables

  /** A numeric side-table entry; a node without an entry reads as 0. */
  function ValueOrZero<N>(table: map<N, real>, id: N): real
  {
    if id in table then table[id] else 0.0
  }

  function Max(a: real, b: real): real
  {
    if a < b then b else a
  }

  function MaxNat(a: nat, b: nat): nat
  {
    if a < b then b else a
  }

  // ------------------------------------------------------------------------
  // Sibling numbers

  /** The numbers the first `n` children of a parent get, 1 to n in order;
      a later child overwrites an earlier one with the same id. */
  function Numbered<N>(kids: seq<Tree<N>>, n: nat): (numbers: map<N, int>)
    requires n <= |kids|
    ensures forall id :: id in numbers ==> 1 <= numbers[id] <= n
  {
    if n == 0 then map[] else Numbered(kids, n - 1)[kids[n - 1].id := n]
  }

  /** Numbering the children of a parent covers exactly their ids, and with
      distinct ids each child gets its position counted from 1. */
  lemma {:induction false} NumberedSpec<N>(kids: seq<Tree<N>>, n: nat)
    requires n <= |kids|
    ensures forall id :: id in Numbered(kids, n) <==> exists i :: 0 <= i < n && kids[i].id == id
    ensures DistinctIds(kids) ==> forall i :: 0 <= i < n ==> Numbered(kids, n)[kids[i].id] == i + 1
  {
    forall id ensures id in Numbered(kids, n) <==> exists i :: 0 <= i < n && kids[i].id == id {
      NumberedKey(kids, n, id);
    }
    if n > 0 {
      NumberedSpec(kids, n - 1);
    }
  }

  lemma {:induction false} NumberedKey<N>(kids: seq<Tree<N>>, n: nat, id: N)
    requires n <= |kids|
    ensures id in Numbered(kids, n) <==> exists i :: 0 <= i < n && kids[i].id == id
  {
    if n > 0 {
      NumberedKey(kids, n - 1, id);
    }
  }

  /** The number table after looking up `node` among the children of
      `parentNode`: unchanged when the node is numbered already, otherwise
      every child of the parent is (re)numbered. */
  function NumbersAfter<N>(number: map<N, int>, node: Tree<N>, parentNode: Tree<N>): map<N, int>
  {
    if node.id in number then number else number + Numbered(parentNode.kids, |parentNode.kids|)
  }

  /** The number that lookup returns, if the node has one afterwards. */
  function NumberOf<N>(number: map<N, int>, node: Tree<N>, parentNode: Tree<N>): Option<int>
  {
    var after := NumbersAfter(number, node, parentNode);
    if node.id in after then Some(after[node.id]) else None
  }

  /** A cached number is returned as it is; the first lookup of a child of a
      parent with distinct child ids returns its position counted from 1;
      and a node that is no child of the parent and has no number gets none. */
  lemma NumberOfSpec<N>(number: map<N, int>, node: Tree<N>, parentNode: Tree<N>)
    ensures node.id in number ==> NumberOf(number, node, parentNode) == Some(number[node.id])
    ensures node.id !in number && DistinctIds(parentNode.kids) ==>
      forall i :: 0 <= i < |parentNode.kids| && parentNode.kids[i] == node ==>
        NumberOf(number, node, parentNode) == Some(i + 1)
    ensures node.id !in number && (forall c :: c in parentNode.kids ==> c.id != node.id) ==>
      NumberOf(number, node, parentNode) == None
  {
    NumberedSpec(parentNode.kids, |parentNode.kids|);
  }

  // ------------------------------------------------------------------------
  // Moving a subtree

  /** The `change` table after a subtree moved by `shift` over `subtrees`
      sibling gaps: `wPlus` loses and `wMinus` gains the same share. */
  function ChangeAfterMove<N>(change: map<N, real>, wMinus: N, wPlus: N, shift: real, subtrees: real): map<N, real>
    requires subtrees != 0.0
  {
    var c1 := change[wPlus := ValueOrZero(change, wPlus) - shift / subtrees];
    c1[wMinus := ValueOrZero(c1, wMinus) + shift / subtrees]
  }

  /** Adds `delta` to the entry of `id`. */
  function Added<N>(table: map<N, real>, id: N, delta: real): (r: map<N, real>)
    ensures ValueOrZero(r, id) == ValueOrZero(table, id) + delta
  {
    table[id := ValueOrZero(table, id) + delta]
  }

  /** Adding to one entry leaves every other entry as it was. */
  lemma AddedElsewhere<N>(table: map<N, real>, id: N, delta: real, k: N)
    requires k != id
    ensures ValueOrZero(Added(table, id, delta), k) == ValueOrZero(table, k)
  {
  }

  /** From `before` to `after` only the entry of `id` changed, and it did not
      decrease. */
  ghost predicate GrownOnlyAt<N(!new)>(before: map<N, real>, after: map<N, real>, id: N)
  {
    && ValueOrZero(before, id) <= ValueOrZero(after, id)
    && forall k :: k != id ==> ValueOrZero(after, k) == ValueOrZero(before, k)
  }

  /** Adding a non-negative amount at `id` keeps a table grown only at
      `id`. */
  lemma AddedGrownOnlyAt<N(!new)>(start: map<N, real>, table: map<N, real>, id: N, delta: real)
    requires delta >= 0.0
    requires GrownOnlyAt(start, table, id)
    ensures GrownOnlyAt(start, Added(table, id, delta), id)
  {
    forall k | k != id
      ensures ValueOrZero(Added(table, id, delta), k) == ValueOrZero(start, k)
    {
      AddedElsewhere(table, id, delta, k);
    }
  }

  /** Moving a subtree keeps the sum of the two `change` entries, and
      touches no other entry. */
  lemma MoveKeepsChangeSum<N>(change: map<N, real>, wMinus: N, wPlus: N, shift: real, subtrees: real)
    requires subtrees != 0.0 && wMinus != wPlus
    ensures var r := ChangeAfterMove(change, wMinus, wPlus, shift, subtrees);
      && ValueOrZero(r, wPlus) + ValueOrZero(r, wMinus) == ValueOrZero(change, wPlus) + ValueOrZero(change, wMinus)
      && ValueOrZero(r, wPlus) == ValueOrZero(change, wPlus) - shift / subtrees
      && (forall k :: k != wMinus && k != wPlus ==> ValueOrZero(r, k) == ValueOrZero(change, k))
  {
  }

  // ------------------------------------------------------------------------
  // Executing the shifts

  /** The running (shift, change) pair after the first `k` children of
      `rev` (the children from last to first) were visited. */
  function Accumulated<N>(rev: seq<Tree<N>>, shiftTable: map<N, real>, changeTable: map<N, real>, k: nat): (real, real)
    requires k <= |rev|
  {
    if k == 0 then (0.0, 0.0)
    else
      var prev := Accumulated(rev, shiftTable, changeTable, k - 1);
      var change := prev.1 + ValueOrZero(changeTable, rev[k - 1].id);
      (prev.0 + ValueOrZero(shiftTable, rev[k - 1].id) + change, change)
  }

  /** A side table after the first `k` visited children were each moved by
      the running shift they were reached with. */
  function ShiftsApplied<N>(table: map<N, real>, rev: seq<Tree<N>>, shiftTable: map<N, real>,
                            changeTable: map<N, real>, k: nat): map<N, real>
    requires k <= |rev|
  {
    if k == 0 then table
    else
      var prev := ShiftsApplied(table, rev, shiftTable, changeTable, k - 1);
      Added(prev, rev[k - 1].id, Accumulated(rev, shiftTable, changeTable, k - 1).0)
  }

  /** `prelim` and `mod` receive the same additions, so the difference of a
      node's two entries is what it was. */
  lemma {:induction false} ShiftsKeepPrelimMinusMod<N>(prelim: map<N, real>, mod: map<N, real>, rev: seq<Tree<N>>,
                                                      shiftTable: map<N, real>, changeTable: map<N, real>, k: nat, id: N)
    requires k <= |rev|
    ensures ValueOrZero(ShiftsApplied(prelim, rev, shiftTable, changeTable, k), id)
          - ValueOrZero(ShiftsApplied(mod, rev, shiftTable, changeTable, k), id)
         == ValueOrZero(prelim, id) - ValueOrZero(mod, id)
  {
    if k > 0 {
      ShiftsKeepPrelimMinusMod(prelim, mod, rev, shiftTable, changeTable, k - 1, id);
    }
  }

  /** With distinct ids, the `j`-th visited child is moved by exactly the
      running shift it was reached with, and children not yet visited are
      not moved. */
  lemma {:induction false} ShiftsAppliedAt<N>(table: map<N, real>, rev: seq<Tree<N>>, shiftTable: map<N, real>,
                                             changeTable: map<N, real>, k: nat, j: nat)
    requires k <= |rev| && j < |rev| && DistinctIds(rev)
    ensures ValueOrZero(ShiftsApplied(table, rev, shiftTable, changeTable, k), rev[j].id)
         == ValueOrZero(table, rev[j].id) + (if j < k then Accumulated(rev, shiftTable, changeTable, j).0 else 0.0)
  {
    if k > 0 {
      ShiftsAppliedAt(table, rev, shiftTable, changeTable, k - 1, j);
      if j != k - 1 {
        assert rev[j].id != rev[k - 1].id;
      }
    }
  }

  /** The last child (visited first) keeps its place. */
  lemma LastChildUnmoved<N>(table: map<N, real>, rev: seq<Tree<N>>, shiftTable: map<N, real>, changeTable: map<N, real>)
    requires |rev| > 0 && DistinctIds(rev)
    ensures ValueOrZero(ShiftsApplied(table, rev, shiftTable, changeTable, |rev|), rev[0].id) == ValueOrZero(table, rev[0].id)
  {
    ShiftsAppliedAt(table, rev, shiftTable, changeTable, |rev|, 0);
  }

  // ------------------------------------------------------------------------
  // Level sizes

  /** The size of depth `d` below `t`: the largest thickness of its nodes,
      and at least 0 (0 for a depth with no node). */
  function LevelSize<N>(loc: Location, ext: NodeExtentProvider<N>, t: Tree<N>, d: nat): (size: real)
    ensures size >= 0.0
    decreases t, 1
  {
    if d == 0 then Max(0.0, NodeThickness(loc, ext, t.id))
    else KidsLevelSize(loc, ext, t, d - 1, |t.kids|)
  }

  /** The size of depth `e` below the first `n` children of `t`. */
  function KidsLevelSize<N>(loc: Location, ext: NodeExtentProvider<N>, t: Tree<N>, e: nat, n: nat): (size: real)
    requires n <= |t.kids|
    ensures size >= 0.0
    decreases t, 0, n
  {
    if n == 0 then 0.0 else Max(KidsLevelSize(loc, ext, t, e, n - 1), LevelSize(loc, ext, t.kids[n - 1], e))
  }

  /** No node at depth `d` is thicker than the level size. */
  lemma {:induction false} LevelSizeBounds<N>(loc: Location, ext: NodeExtentProvider<N>, t: Tree<N>, s: Tree<N>, d: nat)
    requires AtDepth(t, s, d)
    ensures NodeThickness(loc, ext, s.id) <= LevelSize(loc, ext, t, d)
    decreases t
  {
    if d > 0 {
      var i :| 0 <= i < |t.kids| && AtDepth(t.kids[i], s, d - 1);
      LevelSizeBounds(loc, ext, t.kids[i], s, d - 1);
      KidsLevelSizeCovers(loc, ext, t, d - 1, |t.kids|, i);
    }
  }

  lemma {:induction false} KidsLevelSizeCovers<N>(loc: Location, ext: NodeExtentProvider<N>, t: Tree<N>, e: nat, n: nat, i: nat)
    requires i < n <= |t.kids|
    ensures LevelSize(loc, ext, t.kids[i], e) <= KidsLevelSize(loc, ext, t, e, n)
    decreases n
  {
    if i < n - 1 {
      KidsLevelSizeCovers(loc, ext, t, e, n - 1, i);
    }
  }

  /** A positive level size is the thickness of some node at that depth. */
  lemma {:induction false} LevelSizeAttained<N>(loc: Location, ext: NodeExtentProvider<N>, t: Tree<N>, d: nat)
    returns (s: Tree<N>)
    requires LevelSize(loc, ext, t, d) > 0.0
    ensures AtDepth(t, s, d) && NodeThickness(loc, ext, s.id) == LevelSize(loc, ext, t, d)
    decreases t, 1
  {
    if d == 0 {
      s := t;
    } else {
      var i := KidsLevelSizeAttained(loc, ext, t, d - 1, |t.kids|);
      s := LevelSizeAttained(loc, ext, t.kids[i], d - 1);
    }
  }

  lemma {:induction false} KidsLevelSizeAttained<N>(loc: Location, ext: NodeExtentProvider<N>, t: Tree<N>, e: nat, n: nat)
    returns (i: nat)
    requires n <= |t.kids| && KidsLevelSize(loc, ext, t, e, n) > 0.0
    ensures i < n && LevelSize(loc, ext, t.kids[i], e) == KidsLevelSize(loc, ext, t, e, n)
    decreases t, 0, n
  {
    if KidsLevelSize(loc, ext, t, e, n - 1) < LevelSize(loc, ext, t.kids[n - 1], e) {
      i := n - 1;
    } else {
      i := KidsLevelSizeAttained(loc, ext, t, e, n - 1);
    }
  }

  /** Below the height of the tree every level is empty. */
  lemma {:induction false} LevelSizeBeyondHeight<N>(loc: Location, ext: NodeExtentProvider<N>, t: Tree<N>, d: nat)
    requires d > Height(t)
    ensures LevelSize(loc, ext, t, d) == 0.0
    decreases t, 1
  {
    if t.kids != [] {
      KidsLevelSizeBeyondHeight(loc, ext, t, d - 1, |t.kids|);
    }
  }

  lemma {:induction false} KidsLevelSizeBeyondHeight<N>(loc: Location, ext: NodeExtentProvider<N>, t: Tree<N>, e: nat, n: nat)
    requires n <= |t.kids| && (n == 0 || e > MaxHeight(t, n))
    ensures KidsLevelSize(loc, ext, t, e, n) == 0.0
    decreases t, 0, n
  {
    if n > 0 {
      MaxHeightBounds(t, n, n - 1);
      LevelSizeBeyondHeight(loc, ext, t.kids[n - 1], e);
      if n > 1 {
        assert MaxHeight(t, n - 1) <= MaxHeight(t, n);
        KidsLevelSizeBeyondHeight(loc, ext, t, e, n - 1);
      }
    }
  }

  /** `sizes[d]` merged with a new candidate `v` for that depth. */
  function Merged(sizes: seq<real>, d: nat, v: real): real
  {
    if d < |sizes| then Max(sizes[d], v) else v
  }

  predicate SizesNonNegative(sizes: seq<real>)
  {
    forall d :: 0 <= d < |sizes| ==> sizes[d] >= 0.0
  }

  // ------------------------------------------------------------------------
  // Placement across levels

  /** Where a node's centre lies across its level: `levelStart` is the side of
      the level facing the root, `sign` the direction levels grow in. A node
      aligned towards the root touches the level's start, one aligned away
      from the root touches its end, and a centred one sits in the middle. */
  function DepthCoordinate(alignment: AlignmentInLevel, sign: real, levelStart: real,
                           levelSize: real, thickness: real): (c: real)
    ensures alignment == TowardsRoot ==> c - sign * (thickness / 2.0) == levelStart
    ensures alignment == AwayFromRoot ==> c + sign * (thickness / 2.0) == levelStart + sign * levelSize
    ensures alignment == Center ==> c - levelStart == (levelStart + sign * levelSize) - c
  {
    match alignment
    case Center => levelStart + sign * (levelSize / 2.0)
    case TowardsRoot => levelStart + sign * (thickness / 2.0)
    case AwayFromRoot => levelStart + sign * (levelSize - thickness / 2.0)
  }

  /** The same placement as the source writes it: for AwayFromRoot the level
      size is added without the sign, which moves the node by
      `(1 - sign) * levelSize` from the intended place, that is by twice the
      level size when levels grow towards smaller coordinates. */
  function DepthCoordinateAsWritten(alignment: AlignmentInLevel, sign: real, levelStart: real,
                                    levelSize: real, thickness: real): (c: real)
    ensures c == DepthCoordinate(alignment, sign, levelStart, levelSize, thickness)
      + (if alignment == AwayFromRoot then (1.0 - sign) * levelSize else 0.0)
  {
    match alignment
    case Center => levelStart + sign * (levelSize / 2.0)
    case TowardsRoot => levelStart + sign * (thickness / 2.0)
    case AwayFromRoot => levelStart + levelSize - sign * (thickness / 2.0)
  }

  /** The band a level occupies: from `levelStart`, `levelSize` deep in the
      direction of `sign`. */
  predicate InLevelBand(sign: real, levelStart: real, levelSize: real, c: real)
  {
    if sign < 0.0 then levelStart - levelSize <= c <= levelStart
    else levelStart <= c <= levelStart + levelSize
  }

  /** Every alignment keeps a node no thicker than its level inside the
      level's band, on either side of the root. */
  lemma NodeInsideLevelBand(alignment: AlignmentInLevel, sign: real, levelStart: real,
                            levelSize: real, thickness: real)
    requires sign == 1.0 || sign == -1.0
    requires 0.0 <= thickness <= levelSize
    ensures var c := DepthCoordinate(alignment, sign, levelStart, levelSize, thickness);
      && InLevelBand(sign, levelStart, levelSize, c - thickness / 2.0)
      && InLevelBand(sign, levelStart, levelSize, c + thickness / 2.0)
  {
    if sign == -1.0 {
      assert sign * (levelSize / 2.0) == -(levelSize / 2.0);
      assert sign * (thickness / 2.0) == -(thickness / 2.0);
      assert sign * (levelSize - thickness / 2.0) == thickness / 2.0 - levelSize;
    }
  }

  /** The two placements agree when levels grow towards larger coordinates. */
  lemma AsWrittenAgreesForRootTopOrLeft(alignment: AlignmentInLevel, levelStart: real,
                                        levelSize: real, thickness: real)
    ensures DepthCoordinateAsWritten(alignment, 1.0, levelStart, levelSize, thickness)
         == DepthCoordinate(alignment, 1.0, levelStart, levelSize, thickness)
  {
  }

  /** The placement as written keeps a node no thicker than its level inside
      the level's band, except for AwayFromRoot when levels grow towards
      smaller coordinates (root at the bottom or on the right). */
  lemma AsWrittenInsideLevelBand(alignment: AlignmentInLevel, sign: real, levelStart: real,
                                 levelSize: real, thickness: real)
    requires sign == 1.0 || sign == -1.0
    requires 0.0 <= thickness <= levelSize
    requires sign == 1.0 || alignment != AwayFromRoot
    ensures var c := DepthCoordinateAsWritten(alignment, sign, levelStart, levelSize, thickness);
      && InLevelBand(sign, levelStart, levelSize, c - thickness / 2.0)
      && InLevelBand(sign, levelStart, levelSize, c + thickness / 2.0)
  {
    NodeInsideLevelBand(alignment, sign, levelStart, levelSize, thickness);
  }

  /** With the root at the bottom, a level 10 deep starting at 0 and a node
      10 thick aligned away from the root, the source puts the centre at 15,
      outside the level's band [-10, 0]; the intended centre is -5. */
  lemma AwayFromRootAsWrittenLeavesBand()
    ensures LevelChangeSign(Bottom) == -1.0
    ensures DepthCoordinateAsWritten(AwayFromRoot, -1.0, 0.0, 10.0, 10.0) == 15.0
    ensures !InLevelBand(-1.0, 0.0, 10.0, 15.0)
    ensures DepthCoordinate(AwayFromRoot, -1.0, 0.0, 10.0, 10.0) == -5.0
    ensures InLevelBand(-1.0, 0.0, 10.0, -5.0)
  {
  }

  // ------------------------------------------------------------------------
  // Duplicate-node check

  /** The ids met by a pre-order traversal from `t`. */
  function Preorder<N>(t: Tree<N>): seq<N>
    decreases t, 1
  {
    [t.id] + PreorderKids(t, |t.kids|)
  }

  /** The ids met by traversing the first `n` children of `t`. */
  function PreorderKids<N>(t: Tree<N>, n: nat): seq<N>
    requires n <= |t.kids|
    decreases t, 0, n
  {
    if n == 0 then [] else PreorderKids(t, n - 1) + Preorder(t.kids[n - 1])
  }

  /** Traversing `s` after `seen` reaches no id a second time. */
  predicate FirstVisits<N(==)>(seen: set<N>, s: seq<N>)
  {
    && (forall i :: 0 <= i < |s| ==> s[i] !in seen)
    && (forall i, j :: 0 <= i < j < |s| ==> s[i] != s[j])
  }

  function Elems<N>(s: seq<N>): set<N>
  {
    set x | x in s
  }

  lemma FirstVisitsConcat<N>(seen: set<N>, a: seq<N>, b: seq<N>)
    ensures FirstVisits(seen, a + b) <==> FirstVisits(seen, a) && FirstVisits(seen + Elems(a), b)
  {
    var ab := a + b;
    if FirstVisits(seen, a) && FirstVisits(seen + Elems(a), b) {
      forall i, j | 0 <= i < j < |ab| ensures ab[i] != ab[j] {
        if j < |a| {
          assert ab[i] == a[i] && ab[j] == a[j];
        } else if i >= |a| {
          assert ab[i] == b[i - |a|] && ab[j] == b[j - |a|];
        } else {
          assert ab[i] == a[i] && a[i] in Elems(a);
          assert ab[j] == b[j - |a|];
        }
      }
      forall i | 0 <= i < |ab| ensures ab[i] !in seen {
        if i < |a| { assert ab[i] == a[i]; } else { assert ab[i] == b[i - |a|]; }
      }
    }
    if FirstVisits(seen, ab) {
      forall i | 0 <= i < |a| ensures a[i] !in seen {
        assert a[i] == ab[i];
      }
      forall i, j | 0 <= i < j < |a| ensures a[i] != a[j] {
        assert a[i] == ab[i] && a[j] == ab[j];
      }
      forall i | 0 <= i < |b| ensures b[i] !in seen + Elems(a) {
        assert b[i] == ab[|a| + i];
        forall k | 0 <= k < |a| ensures a[k] != b[i] {
          assert ab[k] == a[k];
        }
      }
      forall i, j | 0 <= i < j < |b| ensures b[i] != b[j] {
        assert b[i] == ab[|a| + i] && b[j] == ab[|a| + j];
      }
    }
  }

  /** The traversal meets exactly the ids of the tree. */
  lemma {:induction false} PreorderElems<N>(t: Tree<N>)
    ensures Elems(Preorder(t)) == Ids(t)
    decreases t, 1
  {
    PreorderKidsElems(t, |t.kids|);
    assert Elems(Preorder(t)) == {t.id} + Elems(PreorderKids(t, |t.kids|));
  }

  lemma {:induction false} PreorderKidsElems<N>(t: Tree<N>, n: nat)
    requires n <= |t.kids|
    ensures Elems(PreorderKids(t, n)) == KidsIds(t, n)
    decreases t, 0, n
  {
    if n > 0 {
      PreorderKidsElems(t, n - 1);
      PreorderElems(t.kids[n - 1]);
      assert Elems(PreorderKids(t, n)) == Elems(PreorderKids(t, n - 1)) + Elems(Preorder(t.kids[n - 1]));
    }
  }

  /** The traversal reaches no node twice exactly when every node occurs
      once in the tree. */
  lemma {:induction false} NoRepeatIffUniqueIds<N>(t: Tree<N>)
    ensures FirstVisits({}, Preorder(t)) <==> UniqueIds(t)
    decreases t, 1
  {
    var rest := PreorderKids(t, |t.kids|);
    FirstVisitsConcat({}, [t.id], rest);
    KidsNoRepeat(t, |t.kids|);
    PreorderKidsElems(t, |t.kids|);
    FreshAfter({t.id}, rest);
    assert {} + Elems([t.id]) == {t.id};
  }

  lemma {:induction false} KidsNoRepeat<N>(t: Tree<N>, n: nat)
    requires n <= |t.kids|
    ensures FirstVisits({}, PreorderKids(t, n)) <==> KidsUnique(t, n)
    decreases t, 0, n
  {
    if n > 0 {
      var front := PreorderKids(t, n - 1);
      var last := Preorder(t.kids[n - 1]);
      KidsNoRepeat(t, n - 1);
      NoRepeatIffUniqueIds(t.kids[n - 1]);
      FirstVisitsConcat({}, front, last);
      PreorderKidsElems(t, n - 1);
      PreorderElems(t.kids[n - 1]);
      FreshAfter(Elems(front), last);
    }
  }

  lemma FreshAfter<N>(seen: set<N>, s: seq<N>)
    ensures FirstVisits({} + seen, s) <==> FirstVisits({}, s) && seen !! Elems(s)
  {
    assert {} + seen == seen;
    if FirstVisits({}, s) && seen !! Elems(s) {
      forall i | 0 <= i < |s| ensures s[i] !in seen {
        assert s[i] in Elems(s);
      }
    }
  }

  // ------------------------------------------------------------------------
  // The layout

  /** `Number.MAX_SAFE_INTEGER`: the bounds start at plus and minus this. */
  const MaxSafeInteger: real := 9007199254740991.0

  const LevelNegative := "level must be >= 0"
  const LevelTooLarge := "level must be < levelCount"

  /** A node's centre relative to the root's, before normalisation. */
  datatype Position = Position(xRelativeToRoot: real, yRelativeToRoot: real)

  /** The layout of one tree: built by the constructor, read through the
      level sizes, the bounds and the node bounds. */
  class TreeLayout<N(==, !new)> {
    const tree: Tree<N>
    const nodeExtentProvider: NodeExtentProvider<N>
    const configuration: Configuration<N>

    var mod: map<N, real>
    var thread: map<N, Tree<N>>
    var prelim: map<N, real>
    var change: map<N, real>
    var shift: map<N, real>
    var ancestor: map<N, Tree<N>>
    var number: map<N, int>
    var positions: map<N, Position>

    var boundsLeft: real
    var boundsRight: real
    var boundsTop: real
    var boundsBottom: real

    var sizeOfLevel: seq<real>

    var nodeBounds: Option<map<N, Geometry.Rectangle>>

    /** What a constructed layout keeps: the configuration and the extents
        meet their contracts, there is one level size per depth, exactly the
        nodes of the tree are positioned, each inside the bounds, and the
        bounds enclose a rectangle. */
    ghost predicate Valid()
      reads this
    {
      && Conforms(configuration) && ExtentsConform(nodeExtentProvider)
      && |sizeOfLevel| == Height(tree) + 1
      && positions.Keys == Ids(tree)
      && AllCovered()
      && boundsLeft <= boundsRight && boundsTop <= boundsBottom
    }

    /** Lays out `tree`: relative placement, level sizes, then positions. */
    constructor(tree: Tree<N>, nodeExtentProvider: NodeExtentProvider<N>, configuration: Configuration<N>)
      requires Conforms(configuration)
      requires ExtentsConform(nodeExtentProvider)
      ensures this.tree == tree && this.nodeExtentProvider == nodeExtentProvider
      ensures this.configuration == configuration
      ensures |sizeOfLevel| == Height(tree) + 1
      ensures forall d :: 0 <= d < |sizeOfLevel| ==>
        sizeOfLevel[d] == LevelSize(configuration.rootLocation, nodeExtentProvider, tree, d)
      ensures positions.Keys == Ids(tree)
      ensures AllCovered()
      ensures boundsLeft <= boundsRight && boundsTop <= boundsBottom
      ensures nodeBounds.None?
      ensures Valid()
      ensures UniqueIds(tree) ==> PlacedSubtree(positions, prelim, mod, sizeOfLevel, tree, -ValueOrZero(prelim, tree.id), 0, 0.0)
      ensures UniqueIds(tree) ==> Along(positions[tree.id]) == 0.0
    {
      this.tree := tree;
      this.nodeExtentProvider := nodeExtentProvider;
      this.configuration := configuration;
      mod := map[];
      thread := map[];
      prelim := map[];
      change := map[];
      shift := map[];
      ancestor := map[];
      number := map[];
      positions := map[];
      boundsLeft := MaxSafeInteger;
      boundsRight := -MaxSafeInteger;
      boundsTop := MaxSafeInteger;
      boundsBottom := -MaxSafeInteger;
      sizeOfLevel := [];
      nodeBounds := None;
      new;
      Layout();
    }

    /** The three passes over a fresh layout. */
    method Layout()
      requires Conforms(configuration) && ExtentsConform(nodeExtentProvider)
      requires sizeOfLevel == [] && positions == map[]
      modifies this`mod, this`thread, this`prelim, this`change, this`shift, this`ancestor, this`number
      modifies this`sizeOfLevel, this`positions, this`boundsLeft, this`boundsRight, this`boundsTop, this`boundsBottom
      ensures forall d :: 0 <= d < |sizeOfLevel| ==>
        sizeOfLevel[d] == LevelSize(configuration.rootLocation, nodeExtentProvider, tree, d)
      ensures Valid()
      ensures UniqueIds(tree) ==> PlacedSubtree(positions, prelim, mod, sizeOfLevel, tree, -ValueOrZero(prelim, tree.id), 0, 0.0)
      ensures UniqueIds(tree) ==> Along(positions[tree.id]) == 0.0
    {
      FirstWalk(tree, None);
      MeasureLevels();
      PlaceTree();
    }

    /** The size of every level of the tree, from an empty list. */
    method MeasureLevels()
      requires sizeOfLevel == []
      modifies this`sizeOfLevel
      ensures |sizeOfLevel| == Height(tree) + 1
      ensures forall d :: 0 <= d < |sizeOfLevel| ==>
        sizeOfLevel[d] == LevelSize(configuration.rootLocation, nodeExtentProvider, tree, d)
    {
      CalcSizeOfLevels(tree, 0);
      LevelsFromEmpty(sizeOfLevel);
    }

    /** The second walk from the root, started with minus the root's
        preliminary coordinate: every node of the tree gets its place and
        the bounds enclose them all. */
    method PlaceTree()
      requires Conforms(configuration) && ExtentsConform(nodeExtentProvider)
      requires |sizeOfLevel| == Height(tree) + 1
      requires positions == map[]
      modifies this`positions, this`boundsLeft, this`boundsRight, this`boundsTop, this`boundsBottom
      ensures Valid()
      ensures UniqueIds(tree) ==> PlacedSubtree(positions, prelim, mod, sizeOfLevel, tree, -ValueOrZero(prelim, tree.id), 0, 0.0)
      ensures UniqueIds(tree) ==> Along(positions[tree.id]) == 0.0
    {
      SecondWalk(tree, -ValueOrZero(prelim, tree.id), 0, 0.0);
      CoveredBoundsOrdered(tree.id);
      if UniqueIds(tree) {
        RootAtOrigin(positions);
      }
    }

    /** The second walk starts with minus the root's preliminary coordinate,
        which puts the root at 0 along its level. */
    lemma RootAtOrigin(pos: map<N, Position>)
      requires Conforms(configuration)
      requires PlacedSubtree(pos, prelim, mod, sizeOfLevel, tree, -ValueOrZero(prelim, tree.id), 0, 0.0)
      ensures tree.id in pos && Along(pos[tree.id]) == 0.0
    {
    }

    /** Level sizes merged into an empty list are the level sizes of the
        tree. */
    lemma LevelsFromEmpty(sizes: seq<real>)
      requires |sizes| == MaxNat(0, Height(tree) + 1)
      requires forall d :: 0 <= d < |sizes| ==>
        sizes[d] == Merged([], d, LevelSize(configuration.rootLocation, nodeExtentProvider, tree, d - 0))
      ensures |sizes| == Height(tree) + 1
      ensures forall d :: 0 <= d < |sizes| ==>
        sizes[d] == LevelSize(configuration.rootLocation, nodeExtentProvider, tree, d)
    {
    }

    /** Once a node of non-negative extent lies inside the bounds, they
        enclose a rectangle: left <= right and top <= bottom. */
    lemma CoveredBoundsOrdered(id: N)
      requires id in positions && AllCovered()
      requires ExtentsConform(nodeExtentProvider)
      ensures boundsLeft <= boundsRight && boundsTop <= boundsBottom
    {
      assert Covered(id, positions[id]);
    }

    // ----------------------------------------------------------------------
    // Extents and side tables

    function Thickness(node: N): real
    {
      NodeThickness(configuration.rootLocation, nodeExtentProvider, node)
    }

    /** The thread of a node, if it has one. */
    function GetThread(node: Tree<N>): Option<Tree<N>>
      reads this
    {
      if node.id in thread then Some(thread[node.id]) else None
    }

    /** The ancestor of a node; a node without an entry is its own. */
    function GetAncestor(node: Tree<N>): Tree<N>
      reads this
    {
      if node.id in ancestor then ancestor[node.id] else node
    }

    /** The `mod` entry of a node that may be absent; absent reads as 0. */
    function ModOf(node: Option<Tree<N>>): real
      reads this
    {
      if node.None? then 0.0 else ValueOrZero(mod, node.value.id)
    }

    /** The next node of the left contour: the first child, or the thread of
        a leaf. */
    function NextLeft(v: Tree<N>): (r: Option<Tree<N>>)
      reads this
      ensures !IsLeaf(v) ==> r == Some(GetFirstChild(v)) && IsChildOfParent(r.value, v)
      ensures IsLeaf(v) ==> r == GetThread(v)
    {
      if IsLeaf(v) then GetThread(v) else Some(GetFirstChild(v))
    }

    /** The next node of the right contour: the last child, or the thread of
        a leaf. */
    function NextRight(v: Tree<N>): (r: Option<Tree<N>>)
      reads this
      ensures !IsLeaf(v) ==> r == Some(GetLastChild(v)) && IsChildOfParent(r.value, v)
      ensures IsLeaf(v) ==> r == GetThread(v)
    {
      if IsLeaf(v) then GetThread(v) else Some(GetLastChild(v))
    }

    function NextLeftOf(v: Option<Tree<N>>): Option<Tree<N>>
      reads this
    {
      if v.None? then None else NextLeft(v.value)
    }

    function NextRightOf(v: Option<Tree<N>>): Option<Tree<N>>
      reads this
    {
      if v.None? then None else NextRight(v.value)
    }

    // ----------------------------------------------------------------------
    // First walk

    /** The number of `node` among the children of `parentNode`; the first
        query numbers all of the parent's children 1, 2, ... in order. */
    method GetNumber(node: Tree<N>, parentNode: Tree<N>) returns (n: Option<int>)
      modifies this`number
      ensures number == NumbersAfter(old(number), node, parentNode)
      ensures n == NumberOf(old(number), node, parentNode)
    {
      if node.id !in number {
        var i := 1;
        var children := GetChildren(parentNode);
        for k := 0 to |children|
          invariant i == k + 1
          invariant number == old(number) + Numbered(children, k)
        {
          number := number[children[k].id := i];
          i := i + 1;
        }
      }
      n := if node.id in number then Some(number[node.id]) else None;
    }

    /** The greatest distinct ancestor of `vIMinus` and its right neighbour
        `v`: the ancestor of `vIMinus` when it is a sibling of `v`, otherwise
        the default ancestor. */
    function AncestorFct(vIMinus: Tree<N>, v: Tree<N>, parentOfV: Tree<N>, defaultAncestor: Tree<N>): (r: Tree<N>)
      reads this
      ensures r == defaultAncestor || (r == GetAncestor(vIMinus) && IsChildOfParent(r, parentOfV))
      ensures IsChildOfParent(GetAncestor(vIMinus), parentOfV) ==> r == GetAncestor(vIMinus)
    {
      var anc := GetAncestor(vIMinus);
      if IsChildOfParent(anc, parentOfV) then anc else defaultAncestor
    }

    /** Moves the subtree of `wPlus` by `shift` and spreads the move over the
        siblings between `wMinus` and `wPlus` through `change`. Nothing moves
        when either node has no number, or when both numbers are equal (the
        source divides by zero there). */
    method MoveSubtree(wMinus: Tree<N>, wPlus: Tree<N>, parent: Tree<N>, shift: real)
      modifies this`number, this`change, this`shift, this`prelim, this`mod
      ensures number == NumbersAfter(NumbersAfter(old(number), wPlus, parent), wMinus, parent)
      ensures
        var nr1 := NumberOf(old(number), wPlus, parent);
        var nr2 := NumberOf(NumbersAfter(old(number), wPlus, parent), wMinus, parent);
        if nr1.None? || nr2.None? || nr1.value == nr2.value then
          && change == old(change) && this.shift == old(this.shift)
          && prelim == old(prelim) && mod == old(mod)
        else
          var subtrees := (nr1.value - nr2.value) as real;
          && change == ChangeAfterMove(old(change), wMinus.id, wPlus.id, shift, subtrees)
          && this.shift == Added(old(this.shift), wPlus.id, shift)
          && prelim == Added(old(prelim), wPlus.id, shift)
          && mod == Added(old(mod), wPlus.id, shift)
    {
      var nr1 := GetNumber(wPlus, parent);
      var nr2 := GetNumber(wMinus, parent);
      if nr1.None? || nr2.None? || nr1.value == nr2.value {
        return;
      }
      var subtrees := (nr1.value - nr2.value) as real;
      change := ChangeAfterMove(change, wMinus.id, wPlus.id, shift, subtrees);
      this.shift := Added(this.shift, wPlus.id, shift);
      prelim := Added(prelim, wPlus.id, shift);
      mod := Added(mod, wPlus.id, shift);
    }

    /** Pushes the subtree of `v` away from the subtrees of its left
        siblings along their facing contours, threading the shorter contour;
        returns the (possibly new) default ancestor. The contour walk is
        bounded by the height of the tree plus one. */
    method Apportion(v: Tree<N>, defaultAncestor: Tree<N>, leftSibling: Option<Tree<N>>, parentOfV: Tree<N>)
      returns (r: Tree<N>)
      requires Conforms(configuration)
      requires !IsLeaf(parentOfV)
      modifies this`ancestor, this`thread, this`mod, this`number, this`change, this`shift, this`prelim
      ensures leftSibling.None? ==>
        && r == defaultAncestor
        && ancestor == old(ancestor) && thread == old(thread) && mod == old(mod) && number == old(number)
        && change == old(change) && shift == old(shift) && prelim == old(prelim)
      ensures r == defaultAncestor || r == v
      ensures GrownOnlyAt(old(prelim), prelim, v.id) && GrownOnlyAt(old(shift), shift, v.id)
      ensures forall k :: k in ancestor ==> (k in old(ancestor) && ancestor[k] == old(ancestor)[k]) || ancestor[k] == v
    {
      if leftSibling.None? {
        return defaultAncestor;
      }
      var w := leftSibling.value;
      var vOPlus: Option<Tree<N>> := Some(v);
      var vIPlus := v;
      var vIMinus := w;
      var vOMinus: Option<Tree<N>> := Some(GetFirstChild(parentOfV));
      var sIPlus := ValueOrZero(mod, vIPlus.id);
      var sOPlus := ModOf(vOPlus);
      var sIMinus := ValueOrZero(mod, vIMinus.id);
      var sOMinus := ModOf(vOMinus);
      var nextRightVIMinus := NextRight(vIMinus);
      var nextLeftVIPlus := NextLeft(vIPlus);
      var fuel := Height(tree) + 1;
      while nextRightVIMinus.Some? && nextLeftVIPlus.Some? && fuel > 0
        invariant GrownOnlyAt(old(prelim), prelim, v.id) && GrownOnlyAt(old(shift), shift, v.id)
        invariant forall k :: k in ancestor ==> (k in old(ancestor) && ancestor[k] == old(ancestor)[k]) || ancestor[k] == v
        decreases fuel
      {
        vIMinus := nextRightVIMinus.value;
        vIPlus := nextLeftVIPlus.value;
        vOMinus := NextLeftOf(vOMinus);
        vOPlus := NextRightOf(vOPlus);
        if vOPlus.Some? {
          ancestor := ancestor[vOPlus.value.id := v];
        }
        var s := (ValueOrZero(prelim, vIMinus.id) + sIMinus) - (ValueOrZero(prelim, vIPlus.id) + sIPlus)
          + Distance(configuration, nodeExtentProvider, vIMinus.id, vIPlus.id);
        if s > 0.0 {
          ghost var prelimBefore, shiftBefore := prelim, shift;
          MoveSubtree(AncestorFct(vIMinus, v, parentOfV, defaultAncestor), v, parentOfV, s);
          if prelim != prelimBefore || shift != shiftBefore {
            AddedGrownOnlyAt(old(prelim), prelimBefore, v.id, s);
            AddedGrownOnlyAt(old(shift), shiftBefore, v.id, s);
          }
          sIPlus := sIPlus + s;
          sOPlus := sOPlus + s;
        }
        sIMinus := sIMinus + ValueOrZero(mod, vIMinus.id);
        sIPlus := sIPlus + ValueOrZero(mod, vIPlus.id);
        sOMinus := sOMinus + ModOf(vOMinus);
        sOPlus := sOPlus + ModOf(vOPlus);
        nextRightVIMinus := NextRight(vIMinus);
        nextLeftVIPlus := NextLeft(vIPlus);
        fuel := fuel - 1;
      }
      if nextRightVIMinus.Some? && NextRightOf(vOPlus).None? {
        if vOPlus.Some? {
          thread := thread[vOPlus.value.id := nextRightVIMinus.value];
          mod := mod[vOPlus.value.id := ValueOrZero(mod, vOPlus.value.id) + sIMinus - sOPlus];
        }
      }
      r := defaultAncestor;
      if nextLeftVIPlus.Some? && NextLeftOf(vOMinus).None? {
        if vOMinus.Some? {
          thread := thread[vOMinus.value.id := nextLeftVIPlus.value];
          mod := mod[vOMinus.value.id := ValueOrZero(mod, vOMinus.value.id) + sIPlus - sOMinus];
        }
        r := v;
      }
    }

    /** Applies the moves recorded in `shift` and `change` to the children of
        `v`, visiting them from last to first. */
    method ExecuteShifts(v: Tree<N>)
      modifies this`prelim, this`mod
      ensures prelim == ShiftsApplied(old(prelim), GetChildrenReverse(v), shift, change, |v.kids|)
      ensures mod == ShiftsApplied(old(mod), GetChildrenReverse(v), shift, change, |v.kids|)
    {
      var shiftSum := 0.0;
      var changeSum := 0.0;
      var children := GetChildrenReverse(v);
      for i := 0 to |children|
        invariant (shiftSum, changeSum) == Accumulated(children, shift, change, i)
        invariant prelim == ShiftsApplied(old(prelim), children, shift, change, i)
        invariant mod == ShiftsApplied(old(mod), children, shift, change, i)
      {
        var w := children[i];
        changeSum := changeSum + ValueOrZero(change, w.id);
        prelim := Added(prelim, w.id, shiftSum);
        mod := Added(mod, w.id, shiftSum);
        shiftSum := shiftSum + ValueOrZero(shift, w.id) + changeSum;
      }
    }

    /** The middle between the first and the last child of `v`. */
    function Midpoint(v: Tree<N>): real
      requires !IsLeaf(v)
      reads this
    {
      (ValueOrZero(prelim, GetFirstChild(v).id) + ValueOrZero(prelim, GetLastChild(v).id)) / 2.0
    }

    /** The post-order pass: places every subtree relative to its parent. A
        node is put at `Distance` right of its left sibling; a first child
        with children is centred over them, and a later one records in `mod`
        how far its children must move to be centred under it. */
    method FirstWalk(v: Tree<N>, leftSibling: Option<Tree<N>>)
      requires Conforms(configuration)
      modifies this`mod, this`thread, this`prelim, this`change, this`shift, this`ancestor, this`number
      ensures IsLeaf(v) && leftSibling.None? ==> prelim == old(prelim) && mod == old(mod)
      ensures leftSibling.Some? && leftSibling.value.id != v.id && (IsLeaf(v) || UniqueIds(v)) ==>
        ValueOrZero(prelim, v.id) == ValueOrZero(prelim, leftSibling.value.id)
          + Distance(configuration, nodeExtentProvider, v.id, leftSibling.value.id)
      ensures !IsLeaf(v) && UniqueIds(v) && leftSibling.None? ==> ValueOrZero(prelim, v.id) == Midpoint(v)
      ensures !IsLeaf(v) && UniqueIds(v) && leftSibling.Some? && leftSibling.value.id != v.id ==>
        ValueOrZero(mod, v.id) == ValueOrZero(prelim, v.id) - Midpoint(v)
      decreases v
    {
      if IsLeaf(v) {
        if leftSibling.Some? {
          var w := leftSibling.value;
          prelim := prelim[v.id := ValueOrZero(prelim, w.id) + Distance(configuration, nodeExtentProvider, v.id, w.id)];
        }
      } else {
        var defaultAncestor := GetFirstChild(v);
        var previousChild: Option<Tree<N>> := None;
        var children := GetChildren(v);
        for i := 0 to |children| {
          var w := children[i];
          FirstWalk(w, previousChild);
          defaultAncestor := Apportion(w, defaultAncestor, previousChild, v);
          previousChild := Some(w);
        }
        ExecuteShifts(v);
        var midpoint := (ValueOrZero(prelim, GetFirstChild(v).id) + ValueOrZero(prelim, GetLastChild(v).id)) / 2.0;
        if UniqueIds(v) {
          UniqueIdsSiblings(v);
        }
        if leftSibling.Some? {
          var w := leftSibling.value;
          prelim := prelim[v.id := ValueOrZero(prelim, w.id) + Distance(configuration, nodeExtentProvider, v.id, w.id)];
          mod := mod[v.id := ValueOrZero(prelim, v.id) - midpoint];
        } else {
          prelim := prelim[v.id := midpoint];
        }
      }
    }

    // ----------------------------------------------------------------------
    // Level sizes

    /** Records the thickness of every node of the subtree `node`, which
        lies at depth `level`, in the size of its level. */
    method CalcSizeOfLevels(node: Tree<N>, level: nat)
      requires level <= |sizeOfLevel|
      requires SizesNonNegative(sizeOfLevel)
      modifies this`sizeOfLevel
      ensures |sizeOfLevel| == MaxNat(|old(sizeOfLevel)|, level + Height(node) + 1)
      ensures SizesNonNegative(sizeOfLevel)
      ensures forall d :: 0 <= d < level ==> sizeOfLevel[d] == old(sizeOfLevel)[d]
      ensures forall d :: level <= d < |sizeOfLevel| ==>
        sizeOfLevel[d] == Merged(old(sizeOfLevel), d, LevelSize(configuration.rootLocation, nodeExtentProvider, node, d - level))
      decreases node, 1
    {
      var oldSize: real;
      if |sizeOfLevel| <= level {
        sizeOfLevel := sizeOfLevel + [0.0];
        oldSize := 0.0;
      } else {
        oldSize := sizeOfLevel[level];
      }
      var size := Thickness(node.id);
      if oldSize < size {
        sizeOfLevel := sizeOfLevel[level := size];
      }
      ghost var own := sizeOfLevel;
      if !IsLeaf(node) {
        CalcSizeOfKidLevels(node, level);
      }
      LevelsOfNode(node, level, old(sizeOfLevel), own, sizeOfLevel);
    }

    /** Records the levels of the children of `node`, which lies at depth
        `level`, below that level. */
    method CalcSizeOfKidLevels(node: Tree<N>, level: nat)
      requires level < |sizeOfLevel|
      requires SizesNonNegative(sizeOfLevel)
      modifies this`sizeOfLevel
      ensures SizesNonNegative(sizeOfLevel)
      ensures |sizeOfLevel| == MaxNat(|old(sizeOfLevel)|, level + 1 + (if IsLeaf(node) then 0 else 1 + MaxHeight(node, |node.kids|)))
      ensures forall d :: 0 <= d <= level ==> sizeOfLevel[d] == old(sizeOfLevel)[d]
      ensures forall d :: level < d < |sizeOfLevel| ==>
        sizeOfLevel[d] == Merged(old(sizeOfLevel), d, KidsLevelSize(configuration.rootLocation, nodeExtentProvider, node, d - level - 1, |node.kids|))
      decreases node, 0
    {
      var children := GetChildren(node);
      for i := 0 to |children|
        invariant level < |sizeOfLevel|
        invariant SizesNonNegative(sizeOfLevel)
        invariant |sizeOfLevel| == MaxNat(|old(sizeOfLevel)|, level + 1 + (if i == 0 then 0 else 1 + MaxHeight(node, i)))
        invariant forall d :: 0 <= d <= level ==> sizeOfLevel[d] == old(sizeOfLevel)[d]
        invariant forall d :: level < d < |sizeOfLevel| ==>
          sizeOfLevel[d] == Merged(old(sizeOfLevel), d, KidsLevelSize(configuration.rootLocation, nodeExtentProvider, node, d - level - 1, i))
      {
        ghost var before := sizeOfLevel;
        CalcSizeOfLevels(children[i], level + 1);
        LevelsAfterKid(node, level, i, old(sizeOfLevel), before, sizeOfLevel);
      }
    }

    /** One child's recursive call extends the invariant over the children. */
    lemma LevelsAfterKid(node: Tree<N>, level: nat, i: nat, own: seq<real>, before: seq<real>, after: seq<real>)
      requires i < |node.kids| && level < |own|
      requires SizesNonNegative(own)
      requires |before| == MaxNat(|own|, level + 1 + (if i == 0 then 0 else 1 + MaxHeight(node, i)))
      requires forall d :: level < d < |before| ==>
        before[d] == Merged(own, d, KidsLevelSize(configuration.rootLocation, nodeExtentProvider, node, d - level - 1, i))
      requires |after| == MaxNat(|before|, level + 1 + Height(node.kids[i]) + 1)
      requires forall d :: level + 1 <= d < |after| ==>
        after[d] == Merged(before, d, LevelSize(configuration.rootLocation, nodeExtentProvider, node.kids[i], d - level - 1))
      ensures |after| == MaxNat(|own|, level + 1 + 1 + MaxHeight(node, i + 1))
      ensures forall d :: level < d < |after| ==>
        after[d] == Merged(own, d, KidsLevelSize(configuration.rootLocation, nodeExtentProvider, node, d - level - 1, i + 1))
    {
      var loc, ext := configuration.rootLocation, nodeExtentProvider;
      forall d | level < d < |after|
        ensures after[d] == Merged(own, d, KidsLevelSize(loc, ext, node, d - level - 1, i + 1))
      {
        var e := d - level - 1;
        if d >= |before| {
          if i > 0 {
            KidsLevelSizeBeyondHeight(loc, ext, node, e, i);
          }
        }
      }
    }

    /** The levels of a node after its own entry and those of its children. */
    lemma LevelsOfNode(node: Tree<N>, level: nat, start: seq<real>, own: seq<real>, after: seq<real>)
      requires level <= |start| && SizesNonNegative(start)
      requires |own| == MaxNat(|start|, level + 1)
      requires forall d :: 0 <= d < |own| && d != level ==> own[d] == start[d]
      requires own[level] == Merged(start, level, LevelSize(configuration.rootLocation, nodeExtentProvider, node, 0))
      requires IsLeaf(node) ==> after == own
      requires !IsLeaf(node) ==>
        && |after| == MaxNat(|own|, level + 1 + 1 + MaxHeight(node, |node.kids|))
        && (forall d :: 0 <= d <= level ==> after[d] == own[d])
        && (forall d :: level < d < |after| ==>
             after[d] == Merged(own, d, KidsLevelSize(configuration.rootLocation, nodeExtentProvider, node, d - level - 1, |node.kids|)))
      ensures |after| == MaxNat(|start|, level + Height(node) + 1)
      ensures forall d :: 0 <= d < level ==> after[d] == start[d]
      ensures forall d :: level <= d < |after| ==>
        after[d] == Merged(start, d, LevelSize(configuration.rootLocation, nodeExtentProvider, node, d - level))
    {
      var loc, ext := configuration.rootLocation, nodeExtentProvider;
      if IsLeaf(node) {
        forall d | level < d < |after|
          ensures after[d] == Merged(start, d, LevelSize(loc, ext, node, d - level))
        {
          LevelSizeBeyondHeight(loc, ext, node, d - level);
        }
      }
    }

    /** The number of levels. */
    function GetLevelCount(): (count: nat)
      reads this
      ensures count == |sizeOfLevel|
      ensures Valid() ==> count == Height(tree) + 1 && count >= 1
    {
      |sizeOfLevel|
    }

    /** The size of a level, or why `level` names no level. */
    function GetSizeOfLevel(level: int): (r: Result<real, string>)
      reads this
      ensures r.Success? <==> 0 <= level < GetLevelCount()
      ensures Valid() ==> (r.Success? <==> 0 <= level <= Height(tree))
      ensures r.Success? ==> r.value == sizeOfLevel[level]
      ensures level < 0 ==> r == Failure(LevelNegative)
      ensures level >= 0 && r.Failure? ==> r == Failure(LevelTooLarge)
    {
      if level < 0 then Failure(LevelNegative)
      else if level >= GetLevelCount() then Failure(LevelTooLarge)
      else Success(sizeOfLevel[level])
    }

    // ----------------------------------------------------------------------
    // Second walk and bounds

    /** The rectangle of the node at `p` lies inside the bounds. */
    ghost predicate Covered(id: N, p: Position)
      reads this
    {
      var w := nodeExtentProvider.width(id);
      var h := nodeExtentProvider.height(id);
      && boundsLeft <= p.xRelativeToRoot - w / 2.0 && p.xRelativeToRoot + w / 2.0 <= boundsRight
      && boundsTop <= p.yRelativeToRoot - h / 2.0 && p.yRelativeToRoot + h / 2.0 <= boundsBottom
    }

    /** Every positioned node lies inside the bounds. */
    ghost predicate AllCovered()
      reads this
    {
      forall id :: id in positions ==> Covered(id, positions[id])
    }

    /** Widens the bounds to the rectangle of `node` centred at
        (`centerX`, `centerY`). */
    method UpdateBounds(node: N, centerX: real, centerY: real)
      modifies this`boundsLeft, this`boundsRight, this`boundsTop, this`boundsBottom
      ensures Covered(node, Position(centerX, centerY))
      ensures boundsLeft <= old(boundsLeft) && boundsTop <= old(boundsTop)
      ensures boundsRight >= old(boundsRight) && boundsBottom >= old(boundsBottom)
      ensures boundsLeft == old(boundsLeft) || boundsLeft == centerX - nodeExtentProvider.width(node) / 2.0
      ensures boundsRight == old(boundsRight) || boundsRight == centerX + nodeExtentProvider.width(node) / 2.0
      ensures boundsTop == old(boundsTop) || boundsTop == centerY - nodeExtentProvider.height(node) / 2.0
      ensures boundsBottom == old(boundsBottom) || boundsBottom == centerY + nodeExtentProvider.height(node) / 2.0
    {
      var width := nodeExtentProvider.width(node);
      var height := nodeExtentProvider.height(node);
      var left := centerX - width / 2.0;
      var right := centerX + width / 2.0;
      var top := centerY - height / 2.0;
      var bottom := centerY + height / 2.0;
      if boundsLeft > left {
        boundsLeft := left;
      }
      if boundsRight < right {
        boundsRight := right;
      }
      if boundsTop > top {
        boundsTop := top;
      }
      if boundsBottom < bottom {
        boundsBottom := bottom;
      }
    }

    /** The coordinate of `p` along the levels, `x` when levels change along
        the y axis. */
    function Along(p: Position): real
    {
      if IsLevelChangeInYAxis(configuration.rootLocation) then p.xRelativeToRoot else p.yRelativeToRoot
    }

    /** The coordinate of `p` across the levels, `y` when levels change along
        the y axis. */
    function Across(p: Position): real
    {
      if IsLevelChangeInYAxis(configuration.rootLocation) then p.yRelativeToRoot else p.xRelativeToRoot
    }

    /** Where the second walk puts `v`, at depth `level` starting at
        `levelStart`, with `m` the sum of its ancestors' `mod`, given the
        preliminary coordinates `prelims` and the level sizes `sizes`: along
        the level at its preliminary coordinate plus `m`, across it by the
        source's own formula, `DepthCoordinateAsWritten`. */
    function PlacedAt(prelims: map<N, real>, sizes: seq<real>, v: Tree<N>, m: real, level: nat, levelStart: real)
      : (p: Position)
      requires level < |sizes|
      ensures Along(p) == ValueOrZero(prelims, v.id) + m
      ensures Across(p) == DepthCoordinateAsWritten(configuration.alignmentInLevel,
        LevelChangeSign(configuration.rootLocation), levelStart, sizes[level], Thickness(v.id))
    {
      var x := ValueOrZero(prelims, v.id) + m;
      var y := DepthCoordinateAsWritten(configuration.alignmentInLevel, LevelChangeSign(configuration.rootLocation),
                                        levelStart, sizes[level], Thickness(v.id));
      if IsLevelChangeInYAxis(configuration.rootLocation) then Position(x, y) else Position(y, x)
    }

    /** A placed node lies inside the band of its level whenever it is no
        thicker than the level, except for AwayFromRoot with the root at the
        bottom or on the right (the first finding). */
    lemma PlacedInsideLevelBand(prelims: map<N, real>, sizes: seq<real>, v: Tree<N>, m: real, level: nat,
                                levelStart: real)
      requires level < |sizes|
      requires 0.0 <= Thickness(v.id) <= sizes[level]
      requires LevelChangeSign(configuration.rootLocation) == 1.0 || configuration.alignmentInLevel != AwayFromRoot
      ensures var p := PlacedAt(prelims, sizes, v, m, level, levelStart);
        var sign := LevelChangeSign(configuration.rootLocation);
        && InLevelBand(sign, levelStart, sizes[level], Across(p) - Thickness(v.id) / 2.0)
        && InLevelBand(sign, levelStart, sizes[level], Across(p) + Thickness(v.id) / 2.0)
    {
      AsWrittenInsideLevelBand(configuration.alignmentInLevel, LevelChangeSign(configuration.rootLocation),
                               levelStart, sizes[level], Thickness(v.id));
    }

    /** Where the level after `level` starts: past all of `level` and the gap
        after it, in the direction the levels grow in. */
    function NextLevelStart(sizes: seq<real>, level: nat, levelStart: real): (r: real)
      requires Conforms(configuration)
      requires level < |sizes|
      ensures LevelChangeSign(configuration.rootLocation) == 1.0 ==> r >= levelStart + sizes[level]
      ensures LevelChangeSign(configuration.rootLocation) == -1.0 ==> r <= levelStart - sizes[level]
    {
      levelStart + (sizes[level] + GetGapBetweenLevels(configuration, level + 1))
                   * LevelChangeSign(configuration.rootLocation)
    }

    /** Every node of the subtree `t` is at its place in `pos`: `t` at
        `PlacedAt`, and each child one level further on, with `t`'s `mod`
        added to `m`. */
    ghost predicate PlacedSubtree(pos: map<N, Position>, prelims: map<N, real>, mods: map<N, real>, sizes: seq<real>,
                                  t: Tree<N>, m: real, level: nat, levelStart: real)
      requires Conforms(configuration)
      decreases t
    {
      && level < |sizes|
      && t.id in pos && pos[t.id] == PlacedAt(prelims, sizes, t, m, level, levelStart)
      && forall i :: 0 <= i < |t.kids| ==>
           PlacedSubtree(pos, prelims, mods, sizes, t.kids[i], m + ValueOrZero(mods, t.id), level + 1,
                         NextLevelStart(sizes, level, levelStart))
    }

    /** A placed subtree stays placed in any table that agrees on its ids. */
    lemma {:induction false} PlacedSubtreeAgree(p1: map<N, Position>, p2: map<N, Position>, prelims: map<N, real>,
                                                mods: map<N, real>, sizes: seq<real>,
                                                t: Tree<N>, m: real, level: nat, levelStart: real)
      requires Conforms(configuration)
      requires PlacedSubtree(p1, prelims, mods, sizes, t, m, level, levelStart)
      requires forall id :: id in Ids(t) && id in p1 ==> id in p2 && p2[id] == p1[id]
      ensures PlacedSubtree(p2, prelims, mods, sizes, t, m, level, levelStart)
      decreases t
    {
      forall i | 0 <= i < |t.kids|
        ensures PlacedSubtree(p2, prelims, mods, sizes, t.kids[i], m + ValueOrZero(mods, t.id), level + 1,
                              NextLevelStart(sizes, level, levelStart))
      {
        forall id | id in Ids(t.kids[i])
          ensures id in Ids(t)
        {
          KidsIdsSpec(t, |t.kids|, id);
        }
        PlacedSubtreeAgree(p1, p2, prelims, mods, sizes, t.kids[i], m + ValueOrZero(mods, t.id), level + 1,
                           NextLevelStart(sizes, level, levelStart));
      }
    }

    /** The bounds were only widened from (`left`, `right`, `top`,
        `bottom`), and they enclose every positioned node. */
    ghost predicate Widened(left: real, right: real, top: real, bottom: real)
      reads this
    {
      && boundsLeft <= left && boundsTop <= top
      && boundsRight >= right && boundsBottom >= bottom
      && AllCovered()
    }

    /** From `before` to `after` the second walk of `v` set exactly the
        entries of its subtree's ids, including `v`'s own, and with unique
        ids it put the whole subtree at its place. */
    ghost predicate Walked(before: map<N, Position>, after: map<N, Position>, prelims: map<N, real>,
                           mods: map<N, real>, sizes: seq<real>, v: Tree<N>, m: real, level: nat, levelStart: real)
      requires Conforms(configuration)
    {
      && SetOnly(before, after, Ids(v))
      && v.id in after
      && (UniqueIds(v) ==> PlacedSubtree(after, prelims, mods, sizes, v, m, level, levelStart))
    }

    /** From `before` to `after` the second walks of the first `n` children
        of `v` set exactly the entries of their subtrees' ids, and with
        unique ids they put each of those subtrees at its place. */
    ghost predicate KidsWalked(before: map<N, Position>, after: map<N, Position>, prelims: map<N, real>,
                               mods: map<N, real>, sizes: seq<real>, v: Tree<N>, n: nat,
                               m: real, level: nat, levelStart: real)
      requires Conforms(configuration)
      requires n <= |v.kids|
    {
      && SetOnly(before, after, KidsIds(v, n))
      && (UniqueIds(v) ==> forall j :: 0 <= j < n ==>
            PlacedSubtree(after, prelims, mods, sizes, v.kids[j], m, level, levelStart))
    }

    /** The pre-order pass: positions every node of the subtree `v` and
        widens the bounds around it. */
    method SecondWalk(v: Tree<N>, m: real, level: nat, levelStart: real)
      requires Conforms(configuration)
      requires level + Height(v) < |sizeOfLevel|
      requires AllCovered()
      modifies this`positions, this`boundsLeft, this`boundsRight, this`boundsTop, this`boundsBottom
      ensures Walked(old(positions), positions, prelim, mod, sizeOfLevel, v, m, level, levelStart)
      ensures Widened(old(boundsLeft), old(boundsRight), old(boundsTop), old(boundsBottom))
      decreases v, 1
    {
      ghost var before := positions;
      PlaceNode(v, m, level, levelStart);
      if !IsLeaf(v) {
        ghost var placed := positions;
        var kidsM := m + ValueOrZero(mod, v.id);
        var nextLevelStart := NextLevelStart(sizeOfLevel, level, levelStart);
        SecondWalkKids(v, kidsM, level + 1, nextLevelStart);
        NodeWalked(before, placed, positions, prelim, mod, sizeOfLevel, v, m, level, levelStart, kidsM, nextLevelStart);
      } else {
        LeafWalked(before, positions, prelim, mod, sizeOfLevel, v, m, level, levelStart);
      }
    }

    /** A leaf is walked once its own entry is set. */
    lemma LeafWalked(before: map<N, Position>, pos: map<N, Position>, prelims: map<N, real>,
                     mods: map<N, real>, sizes: seq<real>, v: Tree<N>, m: real, level: nat, levelStart: real)
      requires Conforms(configuration)
      requires IsLeaf(v) && level < |sizes|
      requires pos == before[v.id := PlacedAt(prelims, sizes, v, m, level, levelStart)]
      ensures Walked(before, pos, prelims, mods, sizes, v, m, level, levelStart)
    {
      assert Ids(v) == {v.id};
    }

    /** Puts `v` at its place and widens the bounds around it. */
    method PlaceNode(v: Tree<N>, m: real, level: nat, levelStart: real)
      requires level < |sizeOfLevel|
      requires AllCovered()
      modifies this`positions, this`boundsLeft, this`boundsRight, this`boundsTop, this`boundsBottom
      ensures positions == old(positions)[v.id := PlacedAt(prelim, sizeOfLevel, v, m, level, levelStart)]
      ensures Widened(old(boundsLeft), old(boundsRight), old(boundsTop), old(boundsBottom))
    {
      var p := PlacedAt(prelim, sizeOfLevel, v, m, level, levelStart);
      positions := positions[v.id := p];
      UpdateBounds(v.id, p.xRelativeToRoot, p.yRelativeToRoot);
    }

    /** From `before` to `after` exactly the entries of `ids` were set: the
        keys grew by `ids`, and every other entry is unchanged. */
    ghost predicate SetOnly(before: map<N, Position>, after: map<N, Position>, ids: set<N>)
    {
      && (forall id :: id in after <==> id in before || id in ids)
      && (forall id :: id in before && id !in ids ==> after[id] == before[id])
    }

    /** Setting `ids1` and then `ids2` sets their union. */
    lemma SetOnlyTrans(a: map<N, Position>, b: map<N, Position>, c: map<N, Position>, ids1: set<N>, ids2: set<N>)
      requires SetOnly(a, b, ids1) && SetOnly(b, c, ids2)
      ensures SetOnly(a, c, ids1 + ids2)
    {
    }

    /** Placing `v` and then walking all of its children walks `v`: the
        entries set are the ids of `v`'s subtree, and with unique ids no
        child subtree holds `v`'s id, so `v`'s own entry survives. */
    lemma NodeWalked(before: map<N, Position>, placed: map<N, Position>, after: map<N, Position>,
                     prelims: map<N, real>, mods: map<N, real>, sizes: seq<real>,
                     v: Tree<N>, m: real, level: nat, levelStart: real, kidsM: real, kidsStart: real)
      requires Conforms(configuration)
      requires level < |sizes|
      requires placed == before[v.id := PlacedAt(prelims, sizes, v, m, level, levelStart)]
      requires kidsM == m + ValueOrZero(mods, v.id) && kidsStart == NextLevelStart(sizes, level, levelStart)
      requires KidsWalked(placed, after, prelims, mods, sizes, v, |v.kids|, kidsM, level + 1, kidsStart)
      ensures Walked(before, after, prelims, mods, sizes, v, m, level, levelStart)
    {
      assert SetOnly(before, placed, {v.id});
      SetOnlyTrans(before, placed, after, {v.id}, KidsIds(v, |v.kids|));
    }

    /** The second walk over all children of `v`, which lie at depth
        `level`. */
    method SecondWalkKids(v: Tree<N>, m: real, level: nat, levelStart: real)
      requires Conforms(configuration)
      requires level + Height(v) <= |sizeOfLevel| && level >= 1
      requires AllCovered()
      modifies this`positions, this`boundsLeft, this`boundsRight, this`boundsTop, this`boundsBottom
      ensures KidsWalked(old(positions), positions, prelim, mod, sizeOfLevel, v, |v.kids|, m, level, levelStart)
      ensures Widened(old(boundsLeft), old(boundsRight), old(boundsTop), old(boundsBottom))
      decreases v, 0
    {
      var children := GetChildren(v);
      for i := 0 to |children|
        invariant KidsWalked(old(positions), positions, prelim, mod, sizeOfLevel, v, i, m, level, levelStart)
        invariant Widened(old(boundsLeft), old(boundsRight), old(boundsTop), old(boundsBottom))
      {
        KidHeight(v, i);
        ghost var before := positions;
        SecondWalk(children[i], m, level, levelStart);
        KidWalked(v, i, old(positions), before, positions, prelim, mod, sizeOfLevel, m, level, levelStart);
      }
    }

    /** Walking child `i` of `v` after its elder siblings walks the first
        `i + 1` children; with unique ids the ids of distinct children are
        disjoint, so the elder siblings stay placed. */
    lemma KidWalked(v: Tree<N>, i: nat, start: map<N, Position>, before: map<N, Position>, after: map<N, Position>,
                    prelims: map<N, real>, mods: map<N, real>, sizes: seq<real>,
                    m: real, level: nat, levelStart: real)
      requires Conforms(configuration)
      requires i < |v.kids|
      requires KidsWalked(start, before, prelims, mods, sizes, v, i, m, level, levelStart)
      requires Walked(before, after, prelims, mods, sizes, v.kids[i], m, level, levelStart)
      ensures KidsWalked(start, after, prelims, mods, sizes, v, i + 1, m, level, levelStart)
    {
      SetOnlyTrans(start, before, after, KidsIds(v, i), Ids(v.kids[i]));
      if UniqueIds(v) {
        PlacedSiblingsKept(v, i, before, after, prelims, mods, sizes, m, level, levelStart);
      }
    }

    /** Placing the child `i` of `v` leaves the children before it placed,
        as the ids of distinct children are disjoint. */
    lemma PlacedSiblingsKept(v: Tree<N>, i: nat, before: map<N, Position>, after: map<N, Position>,
                             prelims: map<N, real>, mods: map<N, real>, sizes: seq<real>,
                             m: real, level: nat, levelStart: real)
      requires Conforms(configuration)
      requires UniqueIds(v) && i < |v.kids|
      requires forall j :: 0 <= j < i ==> PlacedSubtree(before, prelims, mods, sizes, v.kids[j], m, level, levelStart)
      requires SetOnly(before, after, Ids(v.kids[i]))
      requires UniqueIds(v.kids[i]) ==> PlacedSubtree(after, prelims, mods, sizes, v.kids[i], m, level, levelStart)
      ensures forall j :: 0 <= j < i + 1 ==> PlacedSubtree(after, prelims, mods, sizes, v.kids[j], m, level, levelStart)
    {
      KidsUniqueSpec(v, |v.kids|);
      forall j | 0 <= j < i
        ensures PlacedSubtree(after, prelims, mods, sizes, v.kids[j], m, level, levelStart)
      {
        PlacedSubtreeAgree(before, after, prelims, mods, sizes, v.kids[j], m, level, levelStart);
      }
    }

    /** The bounds of the layout as a rectangle at (0, 0); the rectangle
        constructor rejects a negative width or height. */
    method GetBounds() returns (r: Result<Geometry.Rectangle, string>)
      ensures r.Success? <==> boundsLeft <= boundsRight && boundsTop <= boundsBottom
      ensures Valid() ==> r.Success?
      ensures r.Success? ==>
        && r.value.x == 0.0 && r.value.y == 0.0
        && r.value.width == boundsRight - boundsLeft && r.value.height == boundsBottom - boundsTop
    {
      r := Geometry.Rectangle.Create(Geometry.RectangleProps(
        Some(0.0), Some(0.0), Some(boundsBottom - boundsTop), Some(boundsRight - boundsLeft)));
    }

    /** The x of a node's centre, normalised by the left bound. */
    function NormalizedX(id: N): real
      requires id in positions
      reads this
    {
      positions[id].xRelativeToRoot - boundsLeft
    }

    /** The y of a node's centre, normalised by the top bound. */
    function NormalizedY(id: N): real
      requires id in positions
      reads this
    {
      positions[id].yRelativeToRoot - boundsTop
    }

    /** `rect` is the rectangle of the node `id`: its own width and height,
        around its normalised centre. */
    ghost predicate IsNodeRect(id: N, rect: Geometry.Rectangle)
      requires id in positions
      reads this, rect
    {
      && rect.width == nodeExtentProvider.width(id) && rect.height == nodeExtentProvider.height(id)
      && rect.x == NormalizedX(id) - rect.width / 2.0
      && rect.y == NormalizedY(id) - rect.height / 2.0
    }

    /** The rectangle of the positioned node `node`, around its normalised
        centre; fails when the node's width or height is negative. */
    method NodeRect(node: N) returns (rect: Result<Geometry.Rectangle, string>)
      requires node in positions
      ensures rect.Success? <==> nodeExtentProvider.width(node) >= 0.0 && nodeExtentProvider.height(node) >= 0.0
      ensures rect.Success? ==> IsNodeRect(node, rect.value)
      ensures rect.Failure? ==> rect.error == Geometry.InvalidSize
    {
      var w := nodeExtentProvider.width(node);
      var h := nodeExtentProvider.height(node);
      var x := NormalizedX(node) - w / 2.0;
      var y := NormalizedY(node) - h / 2.0;
      rect := Geometry.Rectangle.Create(Geometry.RectangleProps(Some(x), Some(y), Some(h), Some(w)));
    }

    /** The rectangle of every positioned node, computed on the first call
        and returned from the cache afterwards. */
    method GetNodeBounds() returns (res: Result<map<N, Geometry.Rectangle>, string>)
      modifies this`nodeBounds
      ensures old(nodeBounds).Some? ==> res == Success(old(nodeBounds).value) && nodeBounds == old(nodeBounds)
      ensures old(nodeBounds).None? ==>
        (res.Success? <==> forall id :: id in positions ==>
          nodeExtentProvider.width(id) >= 0.0 && nodeExtentProvider.height(id) >= 0.0)
      ensures old(nodeBounds).None? && res.Success? ==>
        && nodeBounds == Some(res.value)
        && res.value.Keys == positions.Keys
        && (forall id :: id in res.value ==> IsNodeRect(id, res.value[id]))
      ensures old(nodeBounds).None? && res.Success? && AllCovered() ==>
        forall id :: id in res.value ==> res.value[id].x >= 0.0 && res.value[id].y >= 0.0
      ensures old(nodeBounds).None? && Valid() ==> res.Success?
      ensures old(Valid()) ==> Valid()
    {
      if nodeBounds.Some? {
        return Success(nodeBounds.value);
      }
      // The source stores the map before filling it, so a failure leaves
      // the rectangles made so far in the cache.
      var rects: map<N, Geometry.Rectangle> := map[];
      var remaining := positions.Keys;
      while remaining != {}
        invariant remaining <= positions.Keys
        invariant rects.Keys == positions.Keys - remaining
        invariant forall id :: id in rects ==> IsNodeRect(id, rects[id])
        invariant forall id :: id in rects ==>
          nodeExtentProvider.width(id) >= 0.0 && nodeExtentProvider.height(id) >= 0.0
        decreases remaining
      {
        var node :| node in remaining;
        var rect := NodeRect(node);
        if rect.Failure? {
          nodeBounds := Some(rects);
          return Failure(rect.error);
        }
        rects := rects[node := rect.value];
        remaining := remaining - {node};
      }
      nodeBounds := Some(rects);
      res := Success(rects);
      if AllCovered() {
        NodeRectsInside(res.value);
      }
    }

    /** A node rectangle of a covered node starts right of and below the
        bounds' corner. */
    lemma NodeRectsInside(rects: map<N, Geometry.Rectangle>)
      requires AllCovered()
      requires rects.Keys <= positions.Keys
      requires forall id :: id in rects ==> IsNodeRect(id, rects[id])
      ensures forall id :: id in rects ==> rects[id].x >= 0.0 && rects[id].y >= 0.0
    {
      forall id | id in rects ensures rects[id].x >= 0.0 && rects[id].y >= 0.0 {
        assert Covered(id, positions[id]);
      }
    }

    // ----------------------------------------------------------------------
    // Duplicate-node check

    /** Adds the subtree `newNode` to the nodes already met, failing with the
        first node met a second time. */
    method AddUniqueNodes(nodes: set<N>, newNode: Tree<N>) returns (res: Result<set<N>, N>)
      ensures res.Success? <==> FirstVisits(nodes, Preorder(newNode))
      ensures res.Success? ==> res.value == nodes + Elems(Preorder(newNode))
      ensures res.Failure? ==> res.error in Ids(newNode)
      decreases newNode
    {
      if newNode.id in nodes {
        assert Preorder(newNode)[0] == newNode.id;
        return Failure(newNode.id);
      }
      var met := nodes + {newNode.id};
      var children := GetChildren(newNode);
      for i := 0 to |children|
        invariant FirstVisits(nodes, [newNode.id] + PreorderKids(newNode, i))
        invariant met == nodes + Elems([newNode.id] + PreorderKids(newNode, i))
      {
        var r := AddUniqueNodes(met, children[i]);
        FirstVisitsConcat(nodes, [newNode.id] + PreorderKids(newNode, i), Preorder(children[i]));
        assert [newNode.id] + PreorderKids(newNode, i + 1)
            == ([newNode.id] + PreorderKids(newNode, i)) + Preorder(children[i]);
        if r.Failure? {
          FirstVisitsPrefix(nodes, newNode, i + 1);
          KidsIdsSpec(newNode, |newNode.kids|, r.error);
          return Failure(r.error);
        }
        assert Elems(([newNode.id] + PreorderKids(newNode, i)) + Preorder(children[i]))
            == Elems([newNode.id] + PreorderKids(newNode, i)) + Elems(Preorder(children[i]));
        met := r.value;
      }
      res := Success(met);
    }

    /** Checks that every node occurs once in the tree, failing with a node
        met twice. */
    method CheckTree() returns (o: Outcome<N>)
      ensures o.Pass? <==> UniqueIds(tree)
      ensures o.Fail? ==> o.error in Ids(tree)
    {
      var r := AddUniqueNodes({}, tree);
      NoRepeatIffUniqueIds(tree);
      if r.Failure? {
        return Fail(r.error);
      }
      return Pass;
    }
  }

  /** A traversal that meets no node twice does not on any shorter prefix. */
  lemma {:induction false} FirstVisitsPrefix<N>(seen: set<N>, t: Tree<N>, n: nat)
    requires n <= |t.kids|
    ensures FirstVisits(seen, Preorder(t)) ==> FirstVisits(seen, [t.id] + PreorderKids(t, n))
    decreases |t.kids| - n
  {
    if n < |t.kids| {
      FirstVisitsPrefix(seen, t, n + 1);
      FirstVisitsConcat(seen, [t.id] + PreorderKids(t, n), Preorder(t.kids[n]));
      assert [t.id] + PreorderKids(t, n + 1) == ([t.id] + PreorderKids(t, n)) + Preorder(t.kids[n]);
    }
  }
}
