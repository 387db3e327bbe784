/** Layout configuration: where the root sits, how smaller nodes align inside
    their level, and the two gap functions. */
module Configuration {

  /** The side of the drawing the root is placed on. */
  datatype Location = Top | Left | Bottom | Right

  /** Where a node thinner than its level is placed inside the level's band. */
  datatype AlignmentInLevel = Center | TowardsRoot | AwayFromRoot

  /** Every value of Location, in declaration order. */
  function AllLocations(): (r: seq<Location>)
    ensures |r| == 4
    ensures forall i, j :: 0 <= i < j < |r| ==> r[i] != r[j]
    ensures forall l: Location :: l in r
  {
    var r := [Top, Left, Bottom, Right];
    assert forall l: Location :: l in r by {
      forall l: Location ensures l in r {
        if l.Top? { assert r[0] == l; }
        else if l.Left? { assert r[1] == l; }
        else if l.Bottom? { assert r[2] == l; }
        else { assert r[3] == l; }
      }
    }
    r
  }

  /** Every value of AlignmentInLevel, in declaration order. */
  function AllAlignments(): (r: seq<AlignmentInLevel>)
    ensures |r| == 3
    ensures forall i, j :: 0 <= i < j < |r| ==> r[i] != r[j]
    ensures forall a: AlignmentInLevel :: a in r
  {
    var r := [Center, TowardsRoot, AwayFromRoot];
    assert forall a: AlignmentInLevel :: a in r by {
      forall a: AlignmentInLevel ensures a in r {
        if a.Center? { assert r[0] == a; }
        else if a.TowardsRoot? { assert r[1] == a; }
        else { assert r[2] == a; }
      }
    }
    r
  }

  /** The configuration queries the layout engine uses. */
  datatype Configuration<!N> = Configuration(
    rootLocation: Location,
    alignmentInLevel: AlignmentInLevel,
    gapBetweenLevels: int -> real,
    gapBetweenNodes: (N, N) -> real)

  /** What the configuration contract promises: both gaps are never negative
      (the level gap for every `nextLevel > 0`). */
  ghost predicate Conforms<N(!new)>(c: Configuration<N>)
  {
    && (forall nextLevel: int :: nextLevel > 0 ==> c.gapBetweenLevels(nextLevel) >= 0.0)
    && (forall a: N, b: N :: c.gapBetweenNodes(a, b) >= 0.0)
  }

  /** The gap between level `nextLevel - 1` and level `nextLevel`. */
  function GetGapBetweenLevels<N(!new)>(c: Configuration<N>, nextLevel: int): (g: real)
    requires nextLevel > 0
    requires Conforms(c)
    ensures g >= 0.0
  {
    c.gapBetweenLevels(nextLevel)
  }

  /** The minimal gap between two nodes of a level. */
  function GetGapBetweenNodes<N(!new)>(c: Configuration<N>, node1: N, node2: N): (g: real)
    requires Conforms(c)
    ensures g >= 0.0
  {
    c.gapBetweenNodes(node1, node2)
  }
}
