/** The graph helpers behind the chart: nodes and undirected links are
    arranged into breadth-first layers starting from the nodes flagged as
    roots. */
module NodeHelper {
  import opened Wrappers

  /** An input node; an absent `isRoot` flag reads as false. */
  datatype INode = INode(id: string, isRoot: bool, text: Option<string>)

  /** An undirected link between the nodes named `nodeA` and `nodeB`. */
  datatype ILink = ILink(id: Option<string>, nodeA: string, nodeB: string)

  /** A node placed in a layer, with the number of children found for it. */
  datatype INodeComputed = INodeComputed(node: INode, children: nat)

  datatype ILayer = ILayer(nodes: seq<INodeComputed>, level: nat)

  /** The ways layering fails: the two errors the layering throws, and a
      link naming an id no node has, which makes the source dereference an
      undefined node. */
  datatype LayerError = NoRootNodes | UnconnectedNodes | UnknownNode(id: string)
  {
    function Message(): string
    {
      match this
      case NoRootNodes => "Input doesn't contain any root nodes"
      case UnconnectedNodes => "There exists nodes which are neither connected nor are Root Nodes"
      case UnknownNode(id) => "Cannot read properties of undefined (reading 'isRoot')"
    }
  }

  /** The node values of a layer, without their children counts. */
  function Plain(ns: seq<INodeComputed>): (r: seq<INode>)
    ensures |r| == |ns|
    ensures forall i :: 0 <= i < |ns| ==> r[i] == ns[i].node
  {
    seq(|ns|, i requires 0 <= i < |ns| => ns[i].node)
  }

  /** Copies of the root nodes, in input order, each with no children yet. */
  function FindAllRoots(nodes: seq<INode>): (r: seq<INodeComputed>)
    ensures |r| <= |nodes|
    ensures forall i :: 0 <= i < |r| ==> r[i].children == 0 && r[i].node.isRoot && r[i].node in nodes
  {
    if |nodes| == 0 then []
    else
      var last := nodes[|nodes| - 1];
      FindAllRoots(nodes[..|nodes| - 1]) + (if last.isRoot then [INodeComputed(last, 0)] else [])
  }

  /** Every root of the input is among the copies. */
  lemma {:induction false} FindAllRootsComplete(nodes: seq<INode>, n: INode)
    requires n in nodes && n.isRoot
    ensures exists i :: 0 <= i < |FindAllRoots(nodes)| && FindAllRoots(nodes)[i].node == n
    decreases |nodes|
  {
    var front := nodes[..|nodes| - 1];
    var r := FindAllRoots(nodes);
    if n in front {
      FindAllRootsComplete(front, n);
      var i :| 0 <= i < |FindAllRoots(front)| && FindAllRoots(front)[i].node == n;
      assert r[i] == FindAllRoots(front)[i];
    } else {
      assert nodes == front + [nodes[|nodes| - 1]];
      assert r[|FindAllRoots(front)|].node == n;
    }
  }

  /** The roots of a concatenation are the roots of each part, in order:
      together with the single-node case this fixes the order of the
      roots to the input order. */
  lemma {:induction false} FindAllRootsConcat(a: seq<INode>, b: seq<INode>)
    ensures FindAllRoots(a + b) == FindAllRoots(a) + FindAllRoots(b)
    decreases |b|
  {
    if |b| == 0 {
      assert a + b == a;
    } else {
      var b' := b[..|b| - 1];
      assert (a + b)[..|a + b| - 1] == a + b';
      assert (a + b)[|a + b| - 1] == b[|b| - 1];
      FindAllRootsConcat(a, b');
    }
  }

  lemma FindAllRootsSingle(n: INode)
    ensures FindAllRoots([n]) == if n.isRoot then [INodeComputed(n, 0)] else []
  {
    assert [n][..0] == [];
  }

  /** There is a link between the nodes named `a` and `b`, in either direction. */
  predicate Linked(links: seq<ILink>, a: string, b: string)
  {
    exists l :: l in links && ((l.nodeA == a && l.nodeB == b) || (l.nodeB == a && l.nodeA == b))
  }

  /** The id at the other end of every link touching `nodeId`, in link order. */
  function LinkedIds(links: seq<ILink>, nodeId: string): (ids: seq<string>)
    ensures |ids| <= |links|
  {
    if |links| == 0 then []
    else
      var l := links[|links| - 1];
      LinkedIds(links[..|links| - 1], nodeId)
        + (if l.nodeA == nodeId then [l.nodeB] else if l.nodeB == nodeId then [l.nodeA] else [])
  }

  /** The ids reached from `nodeId` are exactly those linked to it. */
  lemma {:induction false} LinkedIdsSpec(links: seq<ILink>, nodeId: string)
    ensures forall id :: id in LinkedIds(links, nodeId) <==> Linked(links, nodeId, id)
    decreases |links|
  {
    if |links| > 0 {
      var l := links[|links| - 1];
      var front := links[..|links| - 1];
      LinkedIdsSpec(front, nodeId);
      assert forall k :: k in links <==> k in front || k == l;
    }
  }

  /** The first node with the given id, as `nodes.find` returns it. */
  function FindNode(nodes: seq<INode>, id: string): (r: Option<INode>)
    ensures r.Some? ==> r.value in nodes && r.value.id == id
  {
    if |nodes| == 0 then None
    else if nodes[0].id == id then Some(nodes[0])
    else FindNode(nodes[1..], id)
  }

  /** `find` comes back empty exactly when no node carries the id. */
  lemma {:induction false} FindNodeNone(nodes: seq<INode>, id: string)
    ensures FindNode(nodes, id).None? <==> forall n :: n in nodes ==> n.id != id
    decreases |nodes|
  {
    if |nodes| > 0 && nodes[0].id != id {
      FindNodeNone(nodes[1..], id);
      assert forall n :: n in nodes <==> n == nodes[0] || n in nodes[1..];
    }
  }

  /** `find` returns the first match: no earlier node carries the id. */
  lemma {:induction false} FindNodeIsFirst(nodes: seq<INode>, id: string, i: nat)
    requires i < |nodes| && nodes[i].id == id
    ensures FindNode(nodes, id).Some?
    ensures exists j :: (0 <= j <= i && nodes[j] == FindNode(nodes, id).value
                         && forall k :: 0 <= k < j ==> nodes[k].id != id)
  {
    if nodes[0].id == id {
      assert nodes[0] == FindNode(nodes, id).value;
    } else {
      FindNodeIsFirst(nodes[1..], id, i - 1);
      var j :| 0 <= j <= i - 1 && nodes[1..][j] == FindNode(nodes[1..], id).value
        && forall k :: 0 <= k < j ==> nodes[1..][k].id != id;
      assert nodes[j + 1] == FindNode(nodes, id).value;
      forall k | 0 <= k < j + 1 ensures nodes[k].id != id {
        if k > 0 {
          assert nodes[k] == nodes[1..][k - 1];
        }
      }
    }
  }

  /** An id counts as visited when a node with that id is in the visited
      list; with no list at all nothing is visited. */
  predicate WasVisited(visited: Option<seq<INode>>, id: string)
  {
    visited.Some? && exists n :: n in visited.value && n.id == id
  }

  /** The node a child id resolves to, when it is taken as a child: it
      exists and is not a root. */
  predicate IsChildCandidate(nodes: seq<INode>, c: INode)
  {
    FindNode(nodes, c.id) == Some(c) && !c.isRoot
  }

  /** The children found for a list of linked ids, in order: unvisited ids
      are resolved to their node and kept unless that node is a root; the
      first unvisited id with no node is an error. */
  function CollectChildren(nodes: seq<INode>, ids: seq<string>, visited: Option<seq<INode>>)
    : (r: Result<seq<INode>, LayerError>)
    ensures r.Success? ==> |r.value| <= |ids|
  {
    if |ids| == 0 then Success([])
    else
      var front := CollectChildren(nodes, ids[..|ids| - 1], visited);
      var id := ids[|ids| - 1];
      if front.Failure? then front
      else if WasVisited(visited, id) then front
      else match FindNode(nodes, id)
        case None => Failure(UnknownNode(id))
        case Some(child) => Success(front.value + (if child.isRoot then [] else [child]))
  }

  lemma {:induction false} CollectChildrenSpec(nodes: seq<INode>, ids: seq<string>, visited: Option<seq<INode>>)
    ensures var r := CollectChildren(nodes, ids, visited);
      && (r.Success? <==> forall id :: id in ids && !WasVisited(visited, id) ==> FindNode(nodes, id).Some?)
      && (r.Success? ==> forall c :: c in r.value ==>
            IsChildCandidate(nodes, c) && c.id in ids && !WasVisited(visited, c.id))
      && (r.Success? ==> forall c :: IsChildCandidate(nodes, c) && c.id in ids && !WasVisited(visited, c.id) ==>
            c in r.value)
      && (r.Failure? ==>
            && r.error.UnknownNode? && r.error.id in ids
            && !WasVisited(visited, r.error.id) && FindNode(nodes, r.error.id).None?)
    decreases |ids|
  {
    if |ids| > 0 {
      var front := ids[..|ids| - 1];
      var id := ids[|ids| - 1];
      assert forall x :: x in ids <==> x in front || x == id;
      CollectChildrenSpec(nodes, front, visited);
    }
  }

  /** The nodes linked to `node` that are neither visited nor roots, one
      entry per link, in link order. */
  function FindChildrenNodes(nodes: seq<INode>, node: INode, links: seq<ILink>, visited: Option<seq<INode>>)
    : (r: Result<seq<INode>, LayerError>)
    ensures r.Success? ==> |r.value| <= |links|
  {
    CollectChildren(nodes, LinkedIds(links, node.id), visited)
  }

  /** What `findChildrenNodes` finds: exactly the non-root nodes linked to
      `node` that were not visited; and it fails exactly when a linked,
      unvisited id names no node. */
  lemma FindChildrenNodesSpec(nodes: seq<INode>, node: INode, links: seq<ILink>, visited: Option<seq<INode>>)
    ensures var r := FindChildrenNodes(nodes, node, links, visited);
      && (r.Success? <==> forall id :: Linked(links, node.id, id) && !WasVisited(visited, id) ==> FindNode(nodes, id).Some?)
      && (r.Success? ==> forall c :: c in r.value <==>
            IsChildCandidate(nodes, c) && Linked(links, node.id, c.id) && !WasVisited(visited, c.id))
      && (r.Failure? ==>
            && r.error.UnknownNode? && Linked(links, node.id, r.error.id)
            && !WasVisited(visited, r.error.id) && FindNode(nodes, r.error.id).None?)
  {
    CollectChildrenSpec(nodes, LinkedIds(links, node.id), visited);
    LinkedIdsSpec(links, node.id);
  }

  /** The completeness half of `FindChildrenNodesSpec`, for one node. */
  lemma FindChildrenComplete(nodes: seq<INode>, node: INode, links: seq<ILink>, visited: Option<seq<INode>>, c: INode)
    requires FindChildrenNodes(nodes, node, links, visited).Success?
    requires IsChildCandidate(nodes, c) && Linked(links, node.id, c.id) && !WasVisited(visited, c.id)
    ensures c in FindChildrenNodes(nodes, node, links, visited).value
  {
    FindChildrenNodesSpec(nodes, node, links, visited);
  }

  /** Appends the newly visited nodes after the earlier ones. */
  function SetNodesVisited(newNodes: seq<INode>, destinationNodes: seq<INode>): (r: seq<INode>)
    ensures |r| == |destinationNodes| + |newNodes|
    ensures r[..|destinationNodes|] == destinationNodes
    ensures r[|destinationNodes|..] == newNodes
  {
    destinationNodes + newNodes
  }

  /** After marking, an id is visited when it was before or one of the new
      nodes carries it. */
  lemma SetNodesVisitedSpec(newNodes: seq<INode>, destinationNodes: seq<INode>, id: string)
    ensures WasVisited(Some(SetNodesVisited(newNodes, destinationNodes)), id) <==>
      WasVisited(Some(destinationNodes), id) || exists n :: n in newNodes && n.id == id
  {
    var r := SetNodesVisited(newNodes, destinationNodes);
    assert forall n :: n in r <==> n in destinationNodes || n in newNodes;
  }

  /** How many children `findChildrenNodes` finds for `node`, the previous
      layer (if given) counting as visited. */
  function GetNodeChildrenCount(node: INode, nodes: seq<INode>, links: seq<ILink>, layerBefore: Option<ILayer>)
    : (r: Result<nat, LayerError>)
    ensures var visited := if layerBefore.Some? then Some(Plain(layerBefore.value.nodes)) else None;
      && (r.Success? <==> FindChildrenNodes(nodes, node, links, visited).Success?)
      && (r.Success? ==> r.value == |FindChildrenNodes(nodes, node, links, visited).value|)
      && (r.Failure? ==> r.error == FindChildrenNodes(nodes, node, links, visited).error)
      && (r.Success? ==> (r.value > 0 <==>
            exists c :: (IsChildCandidate(nodes, c) && Linked(links, node.id, c.id)
                         && !WasVisited(visited, c.id))))
  {
    var visited := if layerBefore.Some? then Some(Plain(layerBefore.value.nodes)) else None;
    var children := FindChildrenNodes(nodes, node, links, visited);
    FindChildrenNodesSpec(nodes, node, links, visited);
    if children.Failure? then Failure(children.error)
    else
      assert children.value != [] ==> children.value[0] in children.value;
      Success(|children.value|)
  }

  /** The children found for a whole layer, node after node, with the
      visited list fixed for the layer; the first failure in layer order is
      the result. */
  function Expand(nodes: seq<INode>, links: seq<ILink>, queue: seq<INode>, visited: seq<INode>)
    : (r: Result<seq<INode>, LayerError>)
    decreases |queue|
  {
    if |queue| == 0 then Success([])
    else
      var front := Expand(nodes, links, queue[..|queue| - 1], visited);
      if front.Failure? then front
      else
        var found := FindChildrenNodes(nodes, queue[|queue| - 1], links, Some(visited));
        if found.Failure? then Failure(found.error)
        else Success(front.value + found.value)
  }

  /** Every node a layer expands to is an unvisited non-root node linked to
      some node of the layer. */
  lemma {:induction false} ExpandSound(nodes: seq<INode>, links: seq<ILink>, queue: seq<INode>,
                                       visited: seq<INode>, c: INode)
    requires Expand(nodes, links, queue, visited).Success?
    requires c in Expand(nodes, links, queue, visited).value
    ensures IsChildCandidate(nodes, c) && !WasVisited(Some(visited), c.id)
    ensures exists j :: 0 <= j < |queue| && Linked(links, queue[j].id, c.id)
    decreases |queue|
  {
    var front := queue[..|queue| - 1];
    var last := queue[|queue| - 1];
    var r := Expand(nodes, links, front, visited);
    var found := FindChildrenNodes(nodes, last, links, Some(visited));
    FindChildrenNodesSpec(nodes, last, links, Some(visited));
    if c in r.value {
      ExpandSound(nodes, links, front, visited, c);
      var j :| 0 <= j < |front| && Linked(links, front[j].id, c.id);
      assert front[j] == queue[j];
    } else {
      assert c in found.value;
    }
  }

  /** Every unvisited non-root node linked to a node of the layer is in
      what the layer expands to. */
  lemma {:induction false} ExpandComplete(nodes: seq<INode>, links: seq<ILink>, queue: seq<INode>,
                                          visited: seq<INode>, j: nat, c: INode)
    requires Expand(nodes, links, queue, visited).Success?
    requires j < |queue| && Linked(links, queue[j].id, c.id)
    requires IsChildCandidate(nodes, c) && !WasVisited(Some(visited), c.id)
    ensures c in Expand(nodes, links, queue, visited).value
    decreases |queue|
  {
    var front := queue[..|queue| - 1];
    var last := queue[|queue| - 1];
    var r := Expand(nodes, links, front, visited);
    var found := FindChildrenNodes(nodes, last, links, Some(visited));
    assert r.Success? && found.Success?;
    assert Expand(nodes, links, queue, visited).value == r.value + found.value;
    if j < |front| {
      assert front[j] == queue[j];
      ExpandComplete(nodes, links, front, visited, j, c);
      assert c in r.value;
    } else {
      FindChildrenComplete(nodes, last, links, Some(visited), c);
    }
  }

  /** A layer fails to expand only on a linked, unvisited id that no node
      carries. */
  lemma {:induction false} ExpandFailure(nodes: seq<INode>, links: seq<ILink>, queue: seq<INode>,
                                         visited: seq<INode>)
    requires Expand(nodes, links, queue, visited).Failure?
    ensures var e := Expand(nodes, links, queue, visited).error;
      && e.UnknownNode? && FindNode(nodes, e.id).None? && !WasVisited(Some(visited), e.id)
      && exists j :: 0 <= j < |queue| && Linked(links, queue[j].id, e.id)
    decreases |queue|
  {
    var front := queue[..|queue| - 1];
    var last := queue[|queue| - 1];
    var e := Expand(nodes, links, queue, visited).error;
    if Expand(nodes, links, front, visited).Failure? {
      ExpandFailure(nodes, links, front, visited);
      var j :| 0 <= j < |front| && Linked(links, front[j].id, e.id);
      assert front[j] == queue[j];
    } else {
      FindChildrenNodesSpec(nodes, last, links, Some(visited));
    }
  }

  /** The failing id of a layer is named by some link and by no node. */
  lemma ExpandFailureMentioned(nodes: seq<INode>, links: seq<ILink>, queue: seq<INode>, visited: seq<INode>)
    requires Expand(nodes, links, queue, visited).Failure?
    ensures var e := Expand(nodes, links, queue, visited).error;
      e.UnknownNode? && FindNode(nodes, e.id).None? && Mentioned(links, e.id)
  {
    var e := Expand(nodes, links, queue, visited).error;
    ExpandFailure(nodes, links, queue, visited);
    var j :| 0 <= j < |queue| && Linked(links, queue[j].id, e.id);
    LinkedMentioned(links, queue[j].id, e.id);
  }

  /** Expanding one more node of the layer. */
  lemma ExpandStep(nodes: seq<INode>, links: seq<ILink>, queue: seq<INode>, visited: seq<INode>, i: nat)
    requires i < |queue|
    ensures Expand(nodes, links, queue[..i + 1], visited) ==
      var front := Expand(nodes, links, queue[..i], visited);
      var found := FindChildrenNodes(nodes, queue[i], links, Some(visited));
      if front.Failure? then front
      else if found.Failure? then Failure(found.error)
      else Success(front.value + found.value)
  {
    assert queue[..i + 1][..i] == queue[..i];
  }

  /** Once a prefix of the layer fails, the whole layer fails the same way. */
  lemma {:induction false} ExpandFailurePersists(nodes: seq<INode>, links: seq<ILink>, queue: seq<INode>,
                                                 visited: seq<INode>, i: nat)
    requires i <= |queue|
    requires Expand(nodes, links, queue[..i], visited).Failure?
    ensures Expand(nodes, links, queue, visited) == Expand(nodes, links, queue[..i], visited)
    decreases |queue| - i
  {
    if i < |queue| {
      assert queue[..i + 1][..i] == queue[..i];
      ExpandFailurePersists(nodes, links, queue, visited, i + 1);
    } else {
      assert queue[..i] == queue;
    }
  }

  /** The object a layer entry is: the i-th root copy in the first layer,
      the caller's own node object (the first with the id) afterwards. The
      layering writes `children` on these objects, so entries sharing an
      object share the count. */
  datatype Ref = RootCopy(index: nat) | InputNode(id: string)

  function Concat(vs: seq<seq<INode>>): seq<INode>
  {
    if |vs| == 0 then [] else Concat(vs[..|vs| - 1]) + vs[|vs| - 1]
  }

  /** The rounds of the layering loop, from the layers `done` and the
      `current` layer, with `count` entries placed so far: once `count`
      reaches `nodeCount` the current layer is the last; otherwise the
      current layer is expanded, with the roots and the layers done counting
      as visited, and the round fails on an unknown id or when it finds no
      new node. */
  function Rounds(nodes: seq<INode>, links: seq<ILink>, roots: seq<INode>, done: seq<seq<INode>>,
                  current: seq<INode>, count: int, nodeCount: int): Result<seq<seq<INode>>, LayerError>
    decreases nodeCount - count
  {
    if count >= nodeCount then Success(done + [current])
    else
      var next := Expand(nodes, links, current, roots + Concat(done));
      if next.Failure? then Failure(next.error)
      else if |next.value| == 0 then Failure(UnconnectedNodes)
      else Rounds(nodes, links, roots, done + [current], next.value, count + |next.value|, nodeCount)
  }

  /** The layers `createLayers` computes for at least two nodes with some
      root: the rounds from the layer of roots. */
  function Layers(nodes: seq<INode>, links: seq<ILink>): Result<seq<seq<INode>>, LayerError>
  {
    var roots := Plain(FindAllRoots(nodes));
    Rounds(nodes, links, roots, [], roots, |roots|, |nodes|)
  }

  /** One round from a state with fewer than `nodeCount` entries: a layer
      that expands to new nodes moves the rounds on, any other ends them. */
  lemma RoundsAdvance(nodes: seq<INode>, links: seq<ILink>, roots: seq<INode>, done: seq<seq<INode>>,
                      current: seq<INode>, count: int, nodeCount: int)
    requires count < nodeCount
    ensures var next := Expand(nodes, links, current, roots + Concat(done));
      && (next.Success? && |next.value| > 0 ==>
            Rounds(nodes, links, roots, done, current, count, nodeCount)
              == Rounds(nodes, links, roots, done + [current], next.value, count + |next.value|, nodeCount))
      && (next.Failure? ==> Rounds(nodes, links, roots, done, current, count, nodeCount) == Failure(next.error))
      && (next.Success? && |next.value| == 0 ==>
            Rounds(nodes, links, roots, done, current, count, nodeCount) == Failure(UnconnectedNodes))
  {
  }

  /** A turn of the loop that found what the current layer expands to
      takes the rounds one step on, or ends them with its error. */
  lemma RoundsAfterLayer(nodes: seq<INode>, links: seq<ILink>, roots: seq<INode>, done: seq<seq<INode>>,
                         current: seq<INode>, count: int, nodeCount: int,
                         outcome: Outcome<LayerError>, newQueue: seq<INode>, count': int)
    requires count < nodeCount
    requires var next := Expand(nodes, links, current, roots + Concat(done));
      && (outcome.Pass? <==> next.Success? && |next.value| > 0)
      && (outcome.Pass? ==> newQueue == next.value && count' == count + |newQueue|)
      && (outcome.Fail? ==> outcome.error == if next.Failure? then next.error else UnconnectedNodes)
    ensures outcome.Pass? ==>
      Rounds(nodes, links, roots, done, current, count, nodeCount)
        == Rounds(nodes, links, roots, done + [current], newQueue, count', nodeCount)
    ensures outcome.Fail? ==> Rounds(nodes, links, roots, done, current, count, nodeCount) == Failure(outcome.error)
  {
    var next := Expand(nodes, links, current, roots + Concat(done));
    RoundsAdvance(nodes, links, roots, done, current, count, nodeCount);
    if outcome.Pass? {
      assert newQueue == next.value && count' == count + |next.value|;
    } else if next.Failure? {
      assert outcome.error == next.error;
    } else {
      assert outcome.error == UnconnectedNodes;
    }
  }

  /** The rounds keep the layers done and the current one as a prefix, and
      stop at the first layer that brings the number of entries to
      `nodeCount`: no shorter prefix past `done` reaches it. */
  lemma {:induction false} RoundsStop(nodes: seq<INode>, links: seq<ILink>, roots: seq<INode>,
                                      done: seq<seq<INode>>, current: seq<INode>, count: int, nodeCount: int)
    requires count == |Concat(done + [current])|
    requires Rounds(nodes, links, roots, done, current, count, nodeCount).Success?
    ensures var ls := Rounds(nodes, links, roots, done, current, count, nodeCount).value;
      && |ls| > |done| && ls[..|done| + 1] == done + [current]
      && |Concat(ls)| >= nodeCount
      && forall k :: |done| < k < |ls| ==> |Concat(ls[..k])| < nodeCount
    decreases nodeCount - count
  {
    var ls := Rounds(nodes, links, roots, done, current, count, nodeCount).value;
    if count >= nodeCount {
      assert ls[..|done| + 1] == ls;
    } else {
      var next := Expand(nodes, links, current, roots + Concat(done)).value;
      ConcatSnoc(done + [current], next);
      RoundsStop(nodes, links, roots, done + [current], next, count + |next|, nodeCount);
      assert ls[..|done| + 1] == ls[..|done| + 2][..|done| + 1];
    }
  }

  function LayerNodes(ls: seq<ILayer>): (r: seq<seq<INode>>)
    ensures |r| == |ls|
    ensures forall k :: 0 <= k < |ls| ==> r[k] == Plain(ls[k].nodes)
  {
    seq(|ls|, k requires 0 <= k < |ls| => Plain(ls[k].nodes))
  }

  /** The visited list when layer `k` is expanded: the roots, then every
      earlier layer. */
  function VisitedBefore(nodes: seq<INode>, ls: seq<ILayer>, k: nat): seq<INode>
    requires k <= |ls|
  {
    Plain(FindAllRoots(nodes)) + Concat(LayerNodes(ls)[..k])
  }

  /** No layer after `k` holds a node with this id. */
  predicate IdAbsentAfter(vals: seq<seq<INode>>, k: nat, id: string)
  {
    forall m, j :: k < m < |vals| && 0 <= j < |vals[m]| ==> vals[m][j].id != id
  }

  /** The count stored for an object is what `findChildrenNodes` found for it. */
  predicate Counted(nodes: seq<INode>, links: seq<ILink>, table: map<Ref, nat>, ref: Ref, v: INode,
                    visited: seq<INode>)
  {
    var found := FindChildrenNodes(nodes, v, links, Some(visited));
    found.Success? && ref in table && table[ref] == |found.value|
  }

  /** Expands one layer: each node gets the number of children found for
      it, and the children are queued in order. */
  method ProcessLayer(nodes: seq<INode>, links: seq<ILink>, layer: seq<INode>, layerRefs: seq<Ref>,
                      visited: seq<INode>, table: map<Ref, nat>, count: int)
    returns (outcome: Outcome<LayerError>, newQueue: seq<INode>, table': map<Ref, nat>, count': int)
    requires |layerRefs| == |layer|
    requires forall i, j :: 0 <= i < |layer| && 0 <= j < |layer| && layerRefs[i] == layerRefs[j] ==>
      layer[i].id == layer[j].id
    ensures outcome.Fail? ==> Expand(nodes, links, layer, visited) == Failure(outcome.error)
    ensures outcome.Pass? ==> Expand(nodes, links, layer, visited) == Success(newQueue)
    ensures outcome.Pass? ==> count' == count + |newQueue|
    ensures outcome.Pass? ==> forall i :: 0 <= i < |layer| ==>
      Counted(nodes, links, table', layerRefs[i], layer[i], visited)
    ensures outcome.Pass? ==> forall r :: r in table && r !in layerRefs ==>
      r in table' && table'[r] == table[r]
  {
    table', newQueue, count' := table, [], count;
    var i := 0;
    while i < |layer|
      invariant 0 <= i <= |layer|
      invariant count' == count + |newQueue|
      invariant Progress(nodes, links, layer, layerRefs, visited, table, table', newQueue, i)
    {
      var children := FindChildrenNodes(nodes, layer[i], links, Some(visited));
      if children.Failure? {
        ExpandFailsAt(nodes, links, layer, visited, i);
        return Fail(children.error), newQueue, table', count';
      }
      ProcessStep(nodes, links, layer, layerRefs, visited, table, table', newQueue, i);
      count' := count' + |children.value|;
      table' := table'[layerRefs[i] := |children.value|];
      newQueue := newQueue + children.value;
      i := i + 1;
    }
    WholeLayer(nodes, links, layer, layerRefs, visited, table, table', newQueue);
    outcome := Pass;
  }

  /** The first `i` nodes of the layer are expanded: they expand to
      `queue`, each of their objects holds its count in `current`, and
      every other object of `table` keeps its count. */
  ghost predicate Progress(nodes: seq<INode>, links: seq<ILink>, layer: seq<INode>, layerRefs: seq<Ref>,
                           visited: seq<INode>, table: map<Ref, nat>, current: map<Ref, nat>,
                           queue: seq<INode>, i: nat)
    requires i <= |layer| == |layerRefs|
  {
    && Expand(nodes, links, layer[..i], visited) == Success(queue)
    && (forall j :: 0 <= j < i ==> Counted(nodes, links, current, layerRefs[j], layer[j], visited))
    && (forall r :: r in table && r !in layerRefs[..i] ==> r in current && current[r] == table[r])
  }

  /** The whole layer expanded is its longest prefix expanded. */
  lemma WholeLayer(nodes: seq<INode>, links: seq<ILink>, layer: seq<INode>, layerRefs: seq<Ref>,
                   visited: seq<INode>, table: map<Ref, nat>, current: map<Ref, nat>, queue: seq<INode>)
    requires |layer| == |layerRefs|
    requires Progress(nodes, links, layer, layerRefs, visited, table, current, queue, |layer|)
    ensures Expand(nodes, links, layer, visited) == Success(queue)
    ensures forall i :: 0 <= i < |layer| ==> Counted(nodes, links, current, layerRefs[i], layer[i], visited)
    ensures forall r :: r in table && r !in layerRefs ==> r in current && current[r] == table[r]
  {
    assert layer[..|layer|] == layer;
    assert layerRefs[..|layerRefs|] == layerRefs;
  }

  /** A node of the layer whose children cannot be found makes the whole
      layer fail with its error, once the nodes before it expanded. */
  lemma ExpandFailsAt(nodes: seq<INode>, links: seq<ILink>, layer: seq<INode>, visited: seq<INode>, i: nat)
    requires i < |layer|
    requires Expand(nodes, links, layer[..i], visited).Success?
    requires FindChildrenNodes(nodes, layer[i], links, Some(visited)).Failure?
    ensures Expand(nodes, links, layer, visited)
      == Failure(FindChildrenNodes(nodes, layer[i], links, Some(visited)).error)
  {
    ExpandStep(nodes, links, layer, visited, i);
    ExpandFailurePersists(nodes, links, layer, visited, i + 1);
  }

  /** One node of a layer expanded without error: the prefix of the layer
      expands to the children found so far, every entry up to it carries
      its count, and other objects keep theirs. */
  lemma ProcessStep(nodes: seq<INode>, links: seq<ILink>, layer: seq<INode>, layerRefs: seq<Ref>,
                    visited: seq<INode>, table: map<Ref, nat>, current: map<Ref, nat>, queue: seq<INode>, i: nat)
    requires i < |layer| == |layerRefs|
    requires forall i, j :: 0 <= i < |layer| && 0 <= j < |layer| && layerRefs[i] == layerRefs[j] ==>
      layer[i].id == layer[j].id
    requires Progress(nodes, links, layer, layerRefs, visited, table, current, queue, i)
    requires FindChildrenNodes(nodes, layer[i], links, Some(visited)).Success?
    ensures var found := FindChildrenNodes(nodes, layer[i], links, Some(visited)).value;
      Progress(nodes, links, layer, layerRefs, visited, table, current[layerRefs[i] := |found|], queue + found, i + 1)
  {
    var found := FindChildrenNodes(nodes, layer[i], links, Some(visited)).value;
    ExpandStep(nodes, links, layer, visited, i);
    CountedAfterUpdate(nodes, links, current, layer, layerRefs, visited, i);
    FrameAfterUpdate(table, current, layerRefs, i, |found|);
  }

  /** Storing the count of entry `i` keeps the counts of the entries
      before it: an entry sharing its object has the same id, hence the
      same children. */
  lemma CountedAfterUpdate(nodes: seq<INode>, links: seq<ILink>, table: map<Ref, nat>, layer: seq<INode>,
                           layerRefs: seq<Ref>, visited: seq<INode>, i: nat)
    requires i < |layer| == |layerRefs|
    requires forall j :: 0 <= j < |layer| && layerRefs[j] == layerRefs[i] ==> layer[j].id == layer[i].id
    requires forall j :: 0 <= j < i ==> Counted(nodes, links, table, layerRefs[j], layer[j], visited)
    requires FindChildrenNodes(nodes, layer[i], links, Some(visited)).Success?
    ensures var n := |FindChildrenNodes(nodes, layer[i], links, Some(visited)).value|;
      forall j :: 0 <= j < i + 1 ==> Counted(nodes, links, table[layerRefs[i] := n], layerRefs[j], layer[j], visited)
  {
    var n := |FindChildrenNodes(nodes, layer[i], links, Some(visited)).value|;
    forall j | 0 <= j < i + 1
      ensures Counted(nodes, links, table[layerRefs[i] := n], layerRefs[j], layer[j], visited)
    {
      if layerRefs[j] == layerRefs[i] {
        assert FindChildrenNodes(nodes, layer[j], links, Some(visited))
          == FindChildrenNodes(nodes, layer[i], links, Some(visited));
      }
    }
  }

  /** Storing the count of entry `i` leaves the objects of later entries
      alone. */
  lemma FrameAfterUpdate(table: map<Ref, nat>, current: map<Ref, nat>, layerRefs: seq<Ref>, i: nat, n: nat)
    requires i < |layerRefs|
    requires forall r :: r in table && r !in layerRefs[..i] ==> r in current && current[r] == table[r]
    ensures forall r :: r in table && r !in layerRefs[..i + 1] ==>
      r in current[layerRefs[i] := n] && current[layerRefs[i] := n][r] == table[r]
  {
    assert layerRefs[..i + 1] == layerRefs[..i] + [layerRefs[i]];
  }

  /** Queues the found children as the next layer, resetting each one's
      `children` to 0. */
  method QueueChildren(newQueue: seq<INode>, table: map<Ref, nat>) returns (refs: seq<Ref>, table': map<Ref, nat>)
    ensures |refs| == |newQueue|
    ensures forall j :: 0 <= j < |refs| ==> refs[j] == InputNode(newQueue[j].id)
    ensures forall j :: 0 <= j < |refs| ==> refs[j] in table' && table'[refs[j]] == 0
    ensures forall r :: r in table && r !in refs ==> r in table' && table'[r] == table[r]
  {
    refs, table' := [], table;
    for j := 0 to |newQueue|
      invariant |refs| == j
      invariant forall k :: 0 <= k < j ==> refs[k] == InputNode(newQueue[k].id)
      invariant forall k :: 0 <= k < j ==> refs[k] in table' && table'[refs[k]] == 0
      invariant forall r :: r in table && r !in refs ==> r in table' && table'[r] == table[r]
    {
      var ref := InputNode(newQueue[j].id);
      table' := table'[ref := 0];
      refs := refs + [ref];
    }
  }

  /** The layered output: layer `k` holds the nodes of `vals[k]`, each with
      the count its object carries at the end. */
  function BuildLayers(vals: seq<seq<INode>>, refs: seq<seq<Ref>>, table: map<Ref, nat>): (ls: seq<ILayer>)
    requires |refs| == |vals|
    requires forall k :: 0 <= k < |vals| ==> |refs[k]| == |vals[k]|
    requires forall k, i :: 0 <= k < |vals| && 0 <= i < |vals[k]| ==> refs[k][i] in table
    ensures |ls| == |vals|
    ensures forall k :: 0 <= k < |ls| ==> ls[k].level == k && |ls[k].nodes| == |vals[k]|
    ensures forall k, i :: 0 <= k < |ls| && 0 <= i < |ls[k].nodes| ==>
      ls[k].nodes[i] == INodeComputed(vals[k][i], table[refs[k][i]])
    ensures LayerNodes(ls) == vals
  {
    var ls := seq(|vals|, k requires 0 <= k < |vals| =>
      ILayer(seq(|vals[k]|, i requires 0 <= i < |vals[k]| => INodeComputed(vals[k][i], table[refs[k][i]])), k));
    assert forall k :: 0 <= k < |vals| ==> Plain(ls[k].nodes) == vals[k];
    ls
  }

  /** The shape of the layers so far (`vals` with their objects `refs`, the
      last layer still to be expanded): no layer is empty, the first one is
      the roots as copies, later entries are the caller's node objects. */
  ghost predicate LayerShape(roots: seq<INode>, vals: seq<seq<INode>>, refs: seq<seq<Ref>>)
  {
    && |vals| >= 1 && |refs| == |vals|
    && (forall k :: 0 <= k < |vals| ==> |refs[k]| == |vals[k]| && |vals[k]| > 0)
    && vals[0] == roots
    && (forall i :: 0 <= i < |refs[0]| ==> refs[0][i] == RootCopy(i))
    && (forall k, i :: 1 <= k < |vals| && 0 <= i < |vals[k]| ==> refs[k][i] == InputNode(vals[k][i].id))
  }

  /** Every expanded layer produced the next one. */
  ghost predicate ExpansionChain(nodes: seq<INode>, links: seq<ILink>, roots: seq<INode>, vals: seq<seq<INode>>)
  {
    forall k :: 0 <= k < |vals| - 1 ==>
      Expand(nodes, links, vals[k], roots + Concat(vals[..k])) == Success(vals[k + 1])
  }

  /** The `children` fields: every object is in the table, the unexpanded
      layer's objects hold 0, and an expanded object that no later layer
      reuses holds the count found for it. */
  ghost predicate ChildrenTable(nodes: seq<INode>, links: seq<ILink>, roots: seq<INode>,
                                vals: seq<seq<INode>>, refs: seq<seq<Ref>>, table: map<Ref, nat>)
    requires LayerShape(roots, vals, refs)
  {
    && (forall k, i :: 0 <= k < |vals| && 0 <= i < |vals[k]| ==> refs[k][i] in table)
    && (forall r :: r in refs[|refs| - 1] ==> r in table && table[r] == 0)
    && (forall k, i :: 0 <= k < |vals| - 1 && 0 <= i < |vals[k]| && (k == 0 || IdAbsentAfter(vals, k, vals[k][i].id)) ==>
          Counted(nodes, links, table, refs[k][i], vals[k][i], roots + Concat(vals[..k])))
  }

  ghost predicate Layering(nodes: seq<INode>, links: seq<ILink>, roots: seq<INode>,
                           vals: seq<seq<INode>>, refs: seq<seq<Ref>>, table: map<Ref, nat>)
  {
    && LayerShape(roots, vals, refs)
    && ExpansionChain(nodes, links, roots, vals)
    && ChildrenTable(nodes, links, roots, vals, refs, table)
  }

  /** Within a layer, entries that are the same object have the same id. */
  lemma SameObjectSameId(roots: seq<INode>, vals: seq<seq<INode>>, refs: seq<seq<Ref>>, k: nat)
    requires LayerShape(roots, vals, refs) && k < |vals|
    ensures forall i, j :: 0 <= i < |vals[k]| && 0 <= j < |vals[k]| && refs[k][i] == refs[k][j] ==>
      vals[k][i].id == vals[k][j].id
  {
  }

  lemma ConcatSnoc(vs: seq<seq<INode>>, v: seq<INode>)
    ensures Concat(vs + [v]) == Concat(vs) + v
  {
    assert (vs + [v])[..|vs|] == vs;
  }

  lemma ShapeStep(roots: seq<INode>, vals: seq<seq<INode>>, refs: seq<seq<Ref>>,
                  newQueue: seq<INode>, newRefs: seq<Ref>)
    requires LayerShape(roots, vals, refs)
    requires |newQueue| > 0 && |newRefs| == |newQueue|
    requires forall j :: 0 <= j < |newRefs| ==> newRefs[j] == InputNode(newQueue[j].id)
    ensures LayerShape(roots, vals + [newQueue], refs + [newRefs])
  {
  }

  lemma {:induction false} ChainStep(nodes: seq<INode>, links: seq<ILink>, roots: seq<INode>,
                                     vals: seq<seq<INode>>, newQueue: seq<INode>)
    requires |vals| >= 1 && ExpansionChain(nodes, links, roots, vals)
    requires Expand(nodes, links, vals[|vals| - 1], roots + Concat(vals[..|vals| - 1])) == Success(newQueue)
    ensures ExpansionChain(nodes, links, roots, vals + [newQueue])
  {
    var valsNext := vals + [newQueue];
    forall k | 0 <= k < |valsNext| - 1
      ensures Expand(nodes, links, valsNext[k], roots + Concat(valsNext[..k])) == Success(valsNext[k + 1])
    {
      assert valsNext[..k] == vals[..k];
    }
  }

  /** An object outside the layer just expanded, and outside the new layer,
      keeps its count. */
  lemma {:induction false} TableStep(nodes: seq<INode>, links: seq<ILink>, roots: seq<INode>,
                                     vals: seq<seq<INode>>, refs: seq<seq<Ref>>,
                                     table: map<Ref, nat>, table1: map<Ref, nat>,
                                     newQueue: seq<INode>, newRefs: seq<Ref>, table2: map<Ref, nat>)
    requires LayerShape(roots, vals, refs) && ChildrenTable(nodes, links, roots, vals, refs, table)
    requires |newQueue| > 0 && |newRefs| == |newQueue|
    requires forall j :: 0 <= j < |newRefs| ==> newRefs[j] == InputNode(newQueue[j].id)
    requires var c := |vals| - 1;
      && (forall i :: 0 <= i < |vals[c]| ==>
            Counted(nodes, links, table1, refs[c][i], vals[c][i], roots + Concat(vals[..c])))
      && (forall r :: r in table && r !in refs[c] ==> r in table1 && table1[r] == table[r])
    requires forall j :: 0 <= j < |newRefs| ==> newRefs[j] in table2 && table2[newRefs[j]] == 0
    requires forall r :: r in table1 && r !in newRefs ==> r in table2 && table2[r] == table1[r]
    ensures LayerShape(roots, vals + [newQueue], refs + [newRefs])
    ensures ChildrenTable(nodes, links, roots, vals + [newQueue], refs + [newRefs], table2)
  {
    ShapeStep(roots, vals, refs, newQueue, newRefs);
    var c := |vals| - 1;
    var valsNext := vals + [newQueue];
    var refsNext := refs + [newRefs];
    forall r | r in refs[c] ensures r in table1 {
      var i :| 0 <= i < |refs[c]| && refs[c][i] == r;
    }
    TableKeysStep(roots, vals, refs, table, table1, newRefs, table2);
    forall r | r in refsNext[|refsNext| - 1] ensures r in table2 && table2[r] == 0 {
      var j :| 0 <= j < |newRefs| && newRefs[j] == r;
    }
    forall k: nat, i: nat | k < |valsNext| - 1 && i < |valsNext[k]| && (k == 0 || IdAbsentAfter(valsNext, k, vals[k][i].id))
      ensures Counted(nodes, links, table2, refsNext[k][i], valsNext[k][i], roots + Concat(valsNext[..k]))
    {
      assert valsNext[..k] == vals[..k];
      CountedStep(nodes, links, roots, vals, refs, table, table1, newQueue, newRefs, table2, k, i);
    }
  }

  lemma TableKeysStep(roots: seq<INode>, vals: seq<seq<INode>>, refs: seq<seq<Ref>>,
                      table: map<Ref, nat>, table1: map<Ref, nat>, newRefs: seq<Ref>, table2: map<Ref, nat>)
    requires LayerShape(roots, vals, refs)
    requires forall k, i :: 0 <= k < |vals| && 0 <= i < |vals[k]| ==> refs[k][i] in table
    requires forall r :: r in refs[|vals| - 1] ==> r in table1
    requires forall r :: r in table && r !in refs[|vals| - 1] ==> r in table1
    requires forall j :: 0 <= j < |newRefs| ==> newRefs[j] in table2
    requires forall r :: r in table1 && r !in newRefs ==> r in table2
    ensures forall k, i :: 0 <= k < |vals| && 0 <= i < |vals[k]| ==> refs[k][i] in table2
  {
    forall k, i | 0 <= k < |vals| && 0 <= i < |vals[k]| ensures refs[k][i] in table2 {
      var r := refs[k][i];
      if r in newRefs {
        var j :| 0 <= j < |newRefs| && newRefs[j] == r;
      }
    }
  }

  /** One expanded object's count survives the step. */
  lemma CountedStep(nodes: seq<INode>, links: seq<ILink>, roots: seq<INode>,
                    vals: seq<seq<INode>>, refs: seq<seq<Ref>>,
                    table: map<Ref, nat>, table1: map<Ref, nat>,
                    newQueue: seq<INode>, newRefs: seq<Ref>, table2: map<Ref, nat>, k: nat, i: nat)
    requires LayerShape(roots, vals, refs) && ChildrenTable(nodes, links, roots, vals, refs, table)
    requires |newRefs| == |newQueue|
    requires forall j :: 0 <= j < |newRefs| ==> newRefs[j] == InputNode(newQueue[j].id)
    requires var c := |vals| - 1;
      && (forall i :: 0 <= i < |vals[c]| ==>
            Counted(nodes, links, table1, refs[c][i], vals[c][i], roots + Concat(vals[..c])))
      && (forall r :: r in table && r !in refs[c] ==> r in table1 && table1[r] == table[r])
    requires forall r :: r in table1 && r !in newRefs ==> r in table2 && table2[r] == table1[r]
    requires k < |vals| && i < |vals[k]|
    requires k == 0 || IdAbsentAfter(vals + [newQueue], k, vals[k][i].id)
    ensures Counted(nodes, links, table2, refs[k][i], vals[k][i], roots + Concat(vals[..k]))
  {
    var c := |vals| - 1;
    var r := refs[k][i];
    var valsNext := vals + [newQueue];
    assert r !in newRefs by {
      if k == 0 {
        assert r == RootCopy(i);
      } else {
        forall j | 0 <= j < |newRefs| ensures newRefs[j] != r {
          assert valsNext[c + 1][j] == newQueue[j];
        }
      }
    }
    if k < c {
      assert k == 0 || IdAbsentAfter(vals, k, vals[k][i].id) by {
        if k > 0 {
          forall m, j | k < m < |vals| && 0 <= j < |vals[m]| ensures vals[m][j].id != vals[k][i].id {
            assert valsNext[m] == vals[m];
          }
        }
      }
      assert Counted(nodes, links, table, r, vals[k][i], roots + Concat(vals[..k]));
      assert r !in refs[c] by {
        if k == 0 {
          assert r == RootCopy(i);
        } else {
          forall j | 0 <= j < |refs[c]| ensures refs[c][j] != r {
            assert refs[c][j] == InputNode(vals[c][j].id);
            assert valsNext[c][j] == vals[c][j];
          }
        }
      }
    } else {
      assert Counted(nodes, links, table1, r, vals[k][i], roots + Concat(vals[..k]));
    }
  }

  /** Some link has the id at one of its ends. */
  predicate Mentioned(links: seq<ILink>, id: string)
  {
    exists l :: l in links && (l.nodeA == id || l.nodeB == id)
  }

  lemma LinkedMentioned(links: seq<ILink>, a: string, b: string)
    requires Linked(links, a, b)
    ensures Mentioned(links, b)
  {
  }

  /** The children count of entry `i` of layer `k` is what
      `findChildrenNodes` finds for it when layer `k` is expanded. */
  predicate ChildrenCounted(nodes: seq<INode>, links: seq<ILink>, ls: seq<ILayer>, k: nat, i: nat)
    requires k < |ls| && i < |ls[k].nodes|
  {
    var found := FindChildrenNodes(nodes, ls[k].nodes[i].node, links, Some(VisitedBefore(nodes, ls, k)));
    found.Success? && ls[k].nodes[i].children == |found.value|
  }

  /** What a successful layering returns. The layers are numbered from 0 and
      none is empty; the first holds the roots in input order; each later
      layer is what the one before it expands to, with the roots and every
      earlier layer counting as visited. The `children` counts reflect that
      a node reached again in a later layer is the same object: the last
      layer's nodes hold 0, a node no later layer reaches again holds the
      number of children found for it, and all entries of one node agree. */
  ghost predicate ValidLayering(nodes: seq<INode>, links: seq<ILink>, ls: seq<ILayer>)
  {
    && |ls| >= 1
    && (forall k :: 0 <= k < |ls| ==> ls[k].level == k && |ls[k].nodes| > 0)
    && Plain(ls[0].nodes) == Plain(FindAllRoots(nodes))
    && (forall k :: 0 <= k < |ls| - 1 ==>
          Expand(nodes, links, Plain(ls[k].nodes), VisitedBefore(nodes, ls, k)) == Success(Plain(ls[k + 1].nodes)))
    && (forall c :: c in ls[|ls| - 1].nodes ==> c.children == 0)
    && (forall k, i ::
          (&& 0 <= k < |ls| - 1 && 0 <= i < |ls[k].nodes|
           && (k == 0 || IdAbsentAfter(LayerNodes(ls), k, ls[k].nodes[i].node.id))) ==>
          ChildrenCounted(nodes, links, ls, k, i))
    && (forall k, m, i, j ::
          (&& 1 <= k <= m < |ls| && 0 <= i < |ls[k].nodes| && 0 <= j < |ls[m].nodes|
           && ls[k].nodes[i].node.id == ls[m].nodes[j].node.id) ==>
          ls[k].nodes[i].children == ls[m].nodes[j].children)
  }

  /** The layering state, read out as layers, is a valid layering. */
  lemma LayeringOutput(nodes: seq<INode>, links: seq<ILink>, vals: seq<seq<INode>>, refs: seq<seq<Ref>>,
                       table: map<Ref, nat>)
    requires Layering(nodes, links, Plain(FindAllRoots(nodes)), vals, refs, table)
    ensures ValidLayering(nodes, links, BuildLayers(vals, refs, table))
  {
    var roots := Plain(FindAllRoots(nodes));
    var ls := BuildLayers(vals, refs, table);
    OutputVisited(nodes, vals, refs, table);
    OutputChain(nodes, links, vals, refs, table);
    OutputCounts(nodes, links, vals, refs, table);
    OutputShared(nodes, links, vals, refs, table);
  }

  lemma OutputVisited(nodes: seq<INode>, vals: seq<seq<INode>>, refs: seq<seq<Ref>>, table: map<Ref, nat>)
    requires LayerShape(Plain(FindAllRoots(nodes)), vals, refs)
    requires forall k, i :: 0 <= k < |vals| && 0 <= i < |vals[k]| ==> refs[k][i] in table
    ensures var ls := BuildLayers(vals, refs, table);
      forall k :: 0 <= k <= |ls| ==> VisitedBefore(nodes, ls, k) == Plain(FindAllRoots(nodes)) + Concat(vals[..k])
  {
  }

  lemma OutputChain(nodes: seq<INode>, links: seq<ILink>, vals: seq<seq<INode>>, refs: seq<seq<Ref>>,
                    table: map<Ref, nat>)
    requires Layering(nodes, links, Plain(FindAllRoots(nodes)), vals, refs, table)
    ensures var ls := BuildLayers(vals, refs, table);
      && |ls| >= 1
      && (forall k :: 0 <= k < |ls| ==> ls[k].level == k && |ls[k].nodes| > 0)
      && Plain(ls[0].nodes) == Plain(FindAllRoots(nodes))
      && (forall k :: 0 <= k < |ls| - 1 ==>
            Expand(nodes, links, Plain(ls[k].nodes), VisitedBefore(nodes, ls, k)) == Success(Plain(ls[k + 1].nodes)))
  {
    var ls := BuildLayers(vals, refs, table);
    OutputVisited(nodes, vals, refs, table);
    assert forall k :: 0 <= k < |ls| ==> Plain(ls[k].nodes) == LayerNodes(ls)[k] == vals[k];
  }

  lemma OutputCounts(nodes: seq<INode>, links: seq<ILink>, vals: seq<seq<INode>>, refs: seq<seq<Ref>>,
                     table: map<Ref, nat>)
    requires Layering(nodes, links, Plain(FindAllRoots(nodes)), vals, refs, table)
    ensures var ls := BuildLayers(vals, refs, table);
      && (forall c :: c in ls[|ls| - 1].nodes ==> c.children == 0)
      && (forall k, i ::
            (&& 0 <= k < |ls| - 1 && 0 <= i < |ls[k].nodes|
             && (k == 0 || IdAbsentAfter(LayerNodes(ls), k, ls[k].nodes[i].node.id))) ==>
            ChildrenCounted(nodes, links, ls, k, i))
  {
    var ls := BuildLayers(vals, refs, table);
    OutputVisited(nodes, vals, refs, table);
    forall c | c in ls[|ls| - 1].nodes ensures c.children == 0 {
      var i :| 0 <= i < |ls[|ls| - 1].nodes| && ls[|ls| - 1].nodes[i] == c;
      assert refs[|refs| - 1][i] in refs[|refs| - 1];
    }
    forall k, i | 0 <= k < |ls| - 1 && 0 <= i < |ls[k].nodes|
                  && (k == 0 || IdAbsentAfter(LayerNodes(ls), k, ls[k].nodes[i].node.id))
      ensures ChildrenCounted(nodes, links, ls, k, i)
    {
      assert ls[k].nodes[i] == INodeComputed(vals[k][i], table[refs[k][i]]);
      assert Counted(nodes, links, table, refs[k][i], vals[k][i], Plain(FindAllRoots(nodes)) + Concat(vals[..k]));
    }
  }

  lemma OutputShared(nodes: seq<INode>, links: seq<ILink>, vals: seq<seq<INode>>, refs: seq<seq<Ref>>,
                     table: map<Ref, nat>)
    requires Layering(nodes, links, Plain(FindAllRoots(nodes)), vals, refs, table)
    ensures var ls := BuildLayers(vals, refs, table);
      forall k, m, i, j ::
        (&& 1 <= k <= m < |ls| && 0 <= i < |ls[k].nodes| && 0 <= j < |ls[m].nodes|
         && ls[k].nodes[i].node.id == ls[m].nodes[j].node.id) ==>
        ls[k].nodes[i].children == ls[m].nodes[j].children
  {
  }

  /** The state before the first layer is expanded. */
  lemma InitialLayering(nodes: seq<INode>, links: seq<ILink>, roots: seq<INode>, rootRefs: seq<Ref>,
                        table: map<Ref, nat>)
    requires |roots| > 0 && |rootRefs| == |roots|
    requires forall i :: 0 <= i < |rootRefs| ==> rootRefs[i] == RootCopy(i)
    requires forall i :: 0 <= i < |rootRefs| ==> RootCopy(i) in table && table[RootCopy(i)] == 0
    ensures Layering(nodes, links, roots, [roots], [rootRefs], table)
  {
    forall r | r in rootRefs ensures r in table && table[r] == 0 {
      var i :| 0 <= i < |rootRefs| && rootRefs[i] == r;
    }
  }

  lemma ConcatSingle(v: seq<INode>)
    ensures Concat([v]) == v
  {
    var empty: seq<seq<INode>> := [];
    assert [v] == empty + [v];
    ConcatSnoc(empty, v);
  }

  /** Marking the expanded layer as visited extends the visited list by
      that layer. */
  lemma VisitedStep(roots: seq<INode>, arrLayers: seq<seq<INode>>, current: seq<INode>)
    ensures SetNodesVisited(current, roots + Concat(arrLayers)) == roots + Concat(arrLayers + [current])
  {
    ConcatSnoc(arrLayers, current);
    assert (roots + Concat(arrLayers)) + current == roots + (Concat(arrLayers) + current);
  }

  /** Index `i` holds a layer with the most nodes, and no earlier layer
      has as many. */
  predicate IsFirstLargest(layers: seq<ILayer>, i: nat)
  {
    && i < |layers|
    && (forall j :: 0 <= j < |layers| ==> |layers[j].nodes| <= |layers[i].nodes|)
    && (forall j :: 0 <= j < i ==> |layers[j].nodes| < |layers[i].nodes|)
  }

  /** The first layer holding the most nodes; an empty list of layers has
      none (the source reads past the end and gets undefined). */
  method GetLayerWithMaxNodes(layers: seq<ILayer>) returns (res: Option<ILayer>)
    ensures res.None? <==> layers == []
    ensures res.Some? ==> exists i: nat :: IsFirstLargest(layers, i) && layers[i] == res.value
  {
    var max := 0;
    var layerIndex := 0;
    for idx := 0 to |layers|
      invariant layerIndex < |layers| || (layerIndex == 0 && idx == 0)
      invariant idx > 0 ==> layerIndex < idx && max == |layers[layerIndex].nodes|
      invariant idx == 0 ==> max == 0
      invariant forall j :: 0 <= j < idx ==> |layers[j].nodes| <= max
      invariant forall j :: 0 <= j < layerIndex ==> |layers[j].nodes| < max
    {
      if max < |layers[idx].nodes| {
        max := |layers[idx].nodes|;
        layerIndex := idx;
      }
    }
    if |layers| == 0 {
      return None;
    }
    assert IsFirstLargest(layers, layerIndex);
    return Some(layers[layerIndex]);
  }

  /** One turn of the layering loop, from the state before expanding the
      current layer to the state after queueing its children. */
  lemma LayeringAdvance(nodes: seq<INode>, links: seq<ILink>, roots: seq<INode>,
                        arrLayers: seq<seq<INode>>, arrRefs: seq<seq<Ref>>,
                        current: seq<INode>, currentRefs: seq<Ref>,
                        table: map<Ref, nat>, table1: map<Ref, nat>,
                        newQueue: seq<INode>, newRefs: seq<Ref>, table2: map<Ref, nat>)
    requires Layering(nodes, links, roots, arrLayers + [current], arrRefs + [currentRefs], table)
    requires |newQueue| > 0 && |currentRefs| == |current|
    requires Expand(nodes, links, current, roots + Concat(arrLayers)) == Success(newQueue)
    requires forall i :: 0 <= i < |current| ==>
      Counted(nodes, links, table1, currentRefs[i], current[i], roots + Concat(arrLayers))
    requires forall r :: r in table && r !in currentRefs ==> r in table1 && table1[r] == table[r]
    requires |newRefs| == |newQueue|
    requires forall j :: 0 <= j < |newRefs| ==> newRefs[j] == InputNode(newQueue[j].id)
    requires forall j :: 0 <= j < |newRefs| ==> newRefs[j] in table2 && table2[newRefs[j]] == 0
    requires forall r :: r in table1 && r !in newRefs ==> r in table2 && table2[r] == table1[r]
    ensures Layering(nodes, links, roots, (arrLayers + [current]) + [newQueue],
                     (arrRefs + [currentRefs]) + [newRefs], table2)
    ensures Concat(arrLayers + [current]) == Concat(arrLayers) + current
    ensures |Concat((arrLayers + [current]) + [newQueue])| == |Concat(arrLayers + [current])| + |newQueue|
  {
    var vals := arrLayers + [current];
    var refs := arrRefs + [currentRefs];
    assert vals[..|arrLayers|] == arrLayers;
    ChainStep(nodes, links, roots, vals, newQueue);
    TableStep(nodes, links, roots, vals, refs, table, table1, newQueue, newRefs, table2);
    ConcatSnoc(arrLayers, current);
    ConcatSnoc(vals, newQueue);
  }

  /** One turn of the layering loop: expand the current layer, stop if it
      found nothing while nodes remain, and queue what it found as the next
      layer with `children` reset to 0. */
  method NextLayer(nodes: seq<INode>, links: seq<ILink>, ghost roots: seq<INode>,
                   ghost arrLayers: seq<seq<INode>>, ghost arrRefs: seq<seq<Ref>>,
                   current: seq<INode>, currentRefs: seq<Ref>, visited: seq<INode>,
                   table: map<Ref, nat>, count: int, nodeCount: int)
    returns (outcome: Outcome<LayerError>, newQueue: seq<INode>, newRefs: seq<Ref>,
             table': map<Ref, nat>, count': int)
    requires Layering(nodes, links, roots, arrLayers + [current], arrRefs + [currentRefs], table)
    requires visited == roots + Concat(arrLayers)
    requires |currentRefs| == |current|
    requires count < nodeCount
    ensures outcome.Fail? ==>
      || outcome.error == UnconnectedNodes
      || (outcome.error.UnknownNode? && FindNode(nodes, outcome.error.id).None? && Mentioned(links, outcome.error.id))
    ensures var next := Expand(nodes, links, current, visited);
      && (outcome.Pass? <==> next.Success? && |next.value| > 0)
      && (outcome.Pass? ==> newQueue == next.value)
      && (outcome.Fail? ==> outcome.error == if next.Failure? then next.error else UnconnectedNodes)
    ensures outcome.Pass? ==>
      && Layering(nodes, links, roots, (arrLayers + [current]) + [newQueue], (arrRefs + [currentRefs]) + [newRefs], table')
      && count < count' == count + |newQueue|
      && |Concat((arrLayers + [current]) + [newQueue])| == |Concat(arrLayers + [current])| + |newQueue|
  {
    assert (arrLayers + [current])[|arrLayers|] == current;
    assert (arrRefs + [currentRefs])[|arrLayers|] == currentRefs;
    SameObjectSameId(roots, arrLayers + [current], arrRefs + [currentRefs], |arrLayers|);
    var table1;
    outcome, newQueue, table1, count' := ProcessLayer(nodes, links, current, currentRefs, visited, table, count);
    if outcome.Fail? {
      ExpandFailureMentioned(nodes, links, current, visited);
      return outcome, newQueue, [], table1, count';
    }
    if count' < nodeCount && |newQueue| == 0 {
      return Fail(UnconnectedNodes), newQueue, [], table1, count';
    }
    newRefs, table' := QueueChildren(newQueue, table1);
    LayeringAdvance(nodes, links, roots, arrLayers, arrRefs, current, currentRefs,
                    table, table1, newQueue, newRefs, table');
  }

  /** Arranges the nodes in breadth-first layers from the roots. Fewer than
      two nodes give no layers; no roots, a layer that finds no new children
      while fewer entries than nodes were placed, and a link to an id no
      node has are errors. The final deep copy returns equal values and is
      not modelled further. */
  method CreateLayers(nodes: seq<INode>, links: seq<ILink>) returns (res: Result<seq<ILayer>, LayerError>)
    ensures |nodes| < 2 ==> res == Success([])
    ensures |nodes| >= 2 && FindAllRoots(nodes) == [] ==> res == Failure(NoRootNodes)
    ensures res == Failure(NoRootNodes) ==> FindAllRoots(nodes) == []
    ensures res.Failure? && res.error.UnknownNode? ==>
      FindNode(nodes, res.error.id).None? && Mentioned(links, res.error.id)
    ensures res.Success? && |nodes| >= 2 ==> ValidLayering(nodes, links, res.value)
    ensures res.Success? && |nodes| >= 2 ==> |Concat(LayerNodes(res.value))| >= |nodes|
    ensures |nodes| >= 2 && FindAllRoots(nodes) != [] ==>
      && (res.Success? <==> Layers(nodes, links).Success?)
      && (res.Success? ==> LayerNodes(res.value) == Layers(nodes, links).value)
      && (res.Failure? ==> res.error == Layers(nodes, links).error)
    ensures res.Success? && |nodes| >= 2 ==>
      forall k :: 0 < k < |res.value| ==> |Concat(LayerNodes(res.value)[..k])| < |nodes|
  {
    if |nodes| < 2 {
      return Success([]);
    }
    var nodeCount := |nodes|;
    var count := 0;
    var rootCopies := FindAllRoots(nodes);
    var roots := Plain(rootCopies);
    var currentNodeQueue := roots;
    var currentRefs := seq(|rootCopies|, i requires 0 <= i < |rootCopies| => RootCopy(i));
    var table := map i | 0 <= i < |rootCopies| :: RootCopy(i) := 0;
    var visitedNodes := SetNodesVisited(currentNodeQueue, []);
    count := count + |currentNodeQueue|;
    if count == 0 {
      return Failure(NoRootNodes);
    }
    InitialLayering(nodes, links, roots, currentRefs, table);
    var outcome, arrLayers, arrRefs, table' := AddLayers(nodes, links, roots, currentRefs, table, visitedNodes, nodeCount);
    if outcome.Fail? {
      return Failure(outcome.error);
    }
    var result := BuildLayers(arrLayers, arrRefs, table');
    LayeringOutput(nodes, links, arrLayers, arrRefs, table');
    ConcatSingle(roots);
    RoundsStop(nodes, links, roots, [], roots, |roots|, nodeCount);
    return Success(result);
  }

  /** The breadth-first loop of createLayers: starting from the roots, adds
      one layer per round until every node has been counted. */
  method AddLayers(nodes: seq<INode>, links: seq<ILink>, roots: seq<INode>, rootRefs: seq<Ref>,
                   rootTable: map<Ref, nat>, visited: seq<INode>, nodeCount: int)
    returns (outcome: Outcome<LayerError>, layers: seq<seq<INode>>, refs: seq<seq<Ref>>, table: map<Ref, nat>)
    requires Layering(nodes, links, roots, [roots], [rootRefs], rootTable)
    requires visited == roots && |rootRefs| == |roots|
    ensures outcome.Fail? ==>
      || outcome.error == UnconnectedNodes
      || (outcome.error.UnknownNode? && FindNode(nodes, outcome.error.id).None? && Mentioned(links, outcome.error.id))
    ensures outcome.Pass? ==> Layering(nodes, links, roots, layers, refs, table) && |Concat(layers)| >= nodeCount
    ensures outcome.Pass? ==> Rounds(nodes, links, roots, [], roots, |roots|, nodeCount) == Success(layers)
    ensures outcome.Fail? ==> Rounds(nodes, links, roots, [], roots, |roots|, nodeCount) == Failure(outcome.error)
  {
    var count := |roots|;
    var layer := 0;
    var currentNodeQueue := roots;
    var currentRefs := rootRefs;
    var visitedNodes := visited;
    table := rootTable;
    var arrLayers: seq<seq<INode>> := [];
    var arrRefs: seq<seq<Ref>> := [];
    ConcatSingle(roots);
    assert arrLayers + [currentNodeQueue] == [roots];
    while count < nodeCount
      invariant Layering(nodes, links, roots, arrLayers + [currentNodeQueue], arrRefs + [currentRefs], table)
      invariant visitedNodes == roots + Concat(arrLayers)
      invariant count == |Concat(arrLayers + [currentNodeQueue])|
      invariant |currentRefs| == |currentNodeQueue|
      invariant layer == |arrLayers|
      invariant Rounds(nodes, links, roots, [], roots, |roots|, nodeCount)
             == Rounds(nodes, links, roots, arrLayers, currentNodeQueue, count, nodeCount)
      decreases nodeCount - count
    {
      var outcome', newNodeQueue, newRefs, table', count' :=
        NextLayer(nodes, links, roots, arrLayers, arrRefs, currentNodeQueue, currentRefs,
                  visitedNodes, table, count, nodeCount);
      RoundsAfterLayer(nodes, links, roots, arrLayers, currentNodeQueue, count, nodeCount,
                       outcome', newNodeQueue, count');
      if outcome'.Fail? {
        return outcome', [], [], table;
      }
      VisitedStep(roots, arrLayers, currentNodeQueue);
      visitedNodes := SetNodesVisited(currentNodeQueue, visitedNodes);
      arrLayers := arrLayers + [currentNodeQueue];
      arrRefs := arrRefs + [currentRefs];
      currentNodeQueue, currentRefs, table, count := newNodeQueue, newRefs, table', count';
      layer := layer + 1;
    }
    return Pass, arrLayers + [currentNodeQueue], arrRefs + [currentRefs], table;
  }
}
