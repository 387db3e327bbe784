# react-tech-tree layout core, modelled in Dafny

react-tech-tree draws a "tech tree": a set of nodes joined by undirected
links. One route lays the nodes out in layers. A breadth-first pass
(`createLayers` in `NodeHelper`) starts from the root nodes and builds one
layer per step. The other route places a proper tree of nodes with the
`TreeLayout` engine. That engine is a port of Walker's improvement of the
Reingold–Tilford algorithm, in the linear-time form of Buchheim, Jünger and
Leipert. It reads its tree through the `TreeForTreeLayout` interface, node
sizes through a `NodeExtentProvider`, and gaps and orientation through a
`Configuration`. It returns level sizes, overall bounds and one rectangle
per node.

This project models that core and proves what it promises.

| file | module | models |
|---|---|---|
| `wrappers.dfy` | `Wrappers` | `Option`, `Result` and `Outcome`, which carry the source's `null` returns and thrown errors |
| `tree_for_tree_layout.dfy` | `TreeForTreeLayout` | the tree interface over a `Tree<N>` datatype, plus ids, uniqueness, height and depth |
| `configuration.dfy` | `Configuration` | root location, alignment within a level, and the gap functions |
| `style_helper.dfy` | `StyleHelper` | the CSS rotation chosen for each tree type |
| `geometry.dfy` | `Geometry` | the mutable `Point` and `Rectangle` classes |
| `abstract_tree_for_tree_layout.dfy` | `AbstractTreeForTreeLayout` | the adapter from a child-list and parent function to the tree interface |
| `node_helper.dfy` | `NodeHelper` | `createLayers` and its helpers: roots, children, visited lists, the widest layer |
| `tree_layout.dfy` | `TreeLayout` | the layout engine as a class with one map field per side table, and the functions and lemmas that specify its passes |

How the model is built:

- **The engine is a class.** `TreeLayout.TreeLayout` holds the side tables
  `mod`, `thread`, `prelim`, `change`, `shift`, `ancestor`, `number` and
  `positions` as `map` fields keyed by node id. It also holds the four
  bounds, the level sizes and the node-bounds cache.
- **Each pass is a method.** Every pass of the source is a method that
  updates those fields in place, with loops where the source iterates.
- **Each method is proved against a specification function.** Examples:
  `Numbered` for child numbering, `ChangeAfterMove` and `Added` for moving
  a subtree, `ShiftsApplied` for the shift pass, `LevelSize` for the level
  sizes and `PlacedAt` for the second walk. Lemmas state the properties of
  those functions.
- **Pure code stays pure.** The pure parts of the source (the interface,
  the configuration, the style helper, the breadth-first expansion) are
  functions and lemmas.

## Model

| member | source | states |
|---|---|---|
| TreeForTreeLayout.GetChildrenReverse | src/treelayout/TreeForTreeLayout.ts:60-69 | the reverse children are the children in the opposite order, with the same length |
| TreeForTreeLayout.GetFirstChild | src/treelayout/TreeForTreeLayout.ts:71-80 | for a non-leaf, the first child is a child of the parent and is children[0] |
| TreeForTreeLayout.GetLastChild | src/treelayout/TreeForTreeLayout.ts:82-92 | for a non-leaf, the last child is a child of the parent and is the final element of the children |
| TreeForTreeLayout.MeetsInterfaceContract | src/treelayout/TreeForTreeLayout.ts:28-92 | a node is a leaf iff it has no children; isChildOfParent holds iff the node is among the parent's children; reverse iteration starts at the last child and undoes to the forward order |
| TreeForTreeLayout.ReversedTwice | src/treelayout/TreeForTreeLayout.ts:60-69 | reversing the children twice gives back the children |
| TreeForTreeLayout.KidsIdsSpec | src/treelayout/TreeLayout.ts:703-713 | an id occurs among the first n subtrees iff it occurs in one of them |
| TreeForTreeLayout.KidsUniqueSpec | src/treelayout/TreeLayout.ts:703-713 | in a tree whose nodes occur once, each child subtree is itself duplicate-free and sibling subtrees share no node |
| TreeForTreeLayout.UniqueIdsSiblings | src/treelayout/TreeLayout.ts:703-713 | in a duplicate-free tree, siblings are distinct, no child equals its parent, and every child subtree is duplicate-free |
| TreeForTreeLayout.MaxHeightBounds | src/treelayout/TreeLayout.ts:197-216 | the height of the tallest of the first n children bounds every one of them |
| TreeForTreeLayout.MaxHeightAttained | src/treelayout/TreeLayout.ts:197-216 | some child attains that maximum |
| TreeForTreeLayout.KidHeight | src/treelayout/TreeLayout.ts:197-216 | a child is at least one level shorter than its parent |
| TreeForTreeLayout.AtDepthBelowHeight | src/treelayout/TreeLayout.ts:218-225 | every depth at which a node lies is at most the tree's height, so the levels cover the tree |
| TreeForTreeLayout.SomeNodeAtEveryDepth | src/treelayout/TreeLayout.ts:218-225 | every depth up to the height holds a node, so no level is empty |
| Configuration.AllLocations | src/treelayout/Configuration.ts:2-4 | there are exactly four root locations, all distinct |
| Configuration.AllAlignments | src/treelayout/Configuration.ts:6-8 | there are exactly three in-level alignments, all distinct |
| Configuration.GetGapBetweenLevels | src/treelayout/Configuration.ts:46-54 | for nextLevel > 0, the gap between levels is never negative |
| Configuration.GetGapBetweenNodes | src/treelayout/Configuration.ts:56-60 | the gap between two nodes is never negative |
| StyleHelper.CreatePropsStyles | src/helpers/StyleHelper.ts:3-16 | the rotation is one of the four; 90deg iff toLeft, 180deg iff toTop, 270deg iff toRight, and 0deg for every other type and for none |
| StyleHelper.DirectedTypesRotateDifferently | src/helpers/StyleHelper.ts:3-16 | distinct directed tree types get distinct rotations; toBottom, radial and an absent type share one |
| Geometry.Point.constructor | src/treelayout/util/Point.ts:5-8 | the new point has the given coordinates |
| Geometry.Point.Equals | src/treelayout/util/Point.ts:18-20 | points are equal iff both coordinates are |
| Geometry.Point.SetLocation | src/treelayout/util/Point.ts:22-25 | afterwards the getters return the new coordinates |
| Geometry.PointEqualsIsEquivalence | src/treelayout/util/Point.ts:18-20 | point equality is reflexive, symmetric and transitive |
| Geometry.Rectangle.Init | src/treelayout/util/Rectangle.ts:22-29 | missing fields default to 0, and the cached second corner is x + width, y + height |
| Geometry.Rectangle.Create | src/treelayout/util/Rectangle.ts:22-32 | construction fails with "Rectangle has invalid size" iff width or height is negative; otherwise it has the given fields and a matching second corner |
| Geometry.Rectangle.ValidateRect | src/treelayout/util/Rectangle.ts:121-125 | validation fails, with that message, exactly for a negative width or height |
| Geometry.Rectangle.Equals | src/treelayout/util/Rectangle.ts:71 | rectangles are equal iff x, y, height and width agree; the cached corner is ignored |
| Geometry.Rectangle.IsInside | src/treelayout/util/Rectangle.ts:74-78 | as written: every point is inside a rectangle of non-negative size; a point can be outside only on an axis whose extent is negative |
| Geometry.Rectangle.IsInsideCorrected | src/treelayout/util/Rectangle.ts:74-78 | the intended test: inside iff x <= px <= x + width and y <= py <= y + height |
| Geometry.IsInsideAcceptsFarPoints | src/treelayout/util/Rectangle.ts:74-78 | for a valid rectangle, a point past its right edge is inside as written and outside as intended |
| Geometry.Rectangle.Intersects | src/treelayout/util/Rectangle.ts:80-119 | as written: any rectangle intersects one with non-negative width or height; a non-intersecting one must start strictly inside an inverted extent on both axes |
| Geometry.Rectangle.CreateIntersection | src/treelayout/util/Rectangle.ts:38-65 | null exactly when the rectangles do not intersect; otherwise a new rectangle, distinct from both, whose start on each axis is r's when r's start passes the axis test and this one's otherwise, whose extent is cut back by r's far edge or by the moved start, and whose cached corner was never updated |
| Geometry.Rectangle.SetRect | src/treelayout/util/Rectangle.ts:91-99 | copies r's four fields and brings the cached corner back in sync |
| Geometry.Rectangle.Recalculate2ndCoords | src/treelayout/util/Rectangle.ts:101-104 | the cached corner becomes x + width, y + height |
| Geometry.RectangleEqualsIsEquivalence | src/treelayout/util/Rectangle.ts:71 | rectangle equality is reflexive, symmetric and transitive |
| AbstractTreeForTreeLayout.GetRoot | src/treelayout/util/AbstractTreeForTreeLayout.ts:47-53 | the root is the one given at construction |
| AbstractTreeForTreeLayout.IsLeaf | src/treelayout/util/AbstractTreeForTreeLayout.ts:55-57 | a node is a leaf iff its child list is empty |
| AbstractTreeForTreeLayout.GetChildrenReverse | src/treelayout/util/AbstractTreeForTreeLayout.ts:67-71 | as written: always fails with "Not implemented method" |
| AbstractTreeForTreeLayout.GetChildrenReverseCorrected | src/treelayout/util/AbstractTreeForTreeLayout.ts:67-71 | the intended reverse iteration: succeeds with the child list in reverse order |
| AbstractTreeForTreeLayout.GetFirstChild | src/treelayout/util/AbstractTreeForTreeLayout.ts:73-75 | the first child is in the child list and, when parents and child lists agree, is a child of the parent |
| AbstractTreeForTreeLayout.GetLastChild | src/treelayout/util/AbstractTreeForTreeLayout.ts:77-79 | the same for the last child |
| AbstractTreeForTreeLayout.AdapterMeetsInterface | src/treelayout/util/AbstractTreeForTreeLayout.ts:16-80 | when getParent and getChildrenList agree, isChildOfParent holds iff the node is in the child list, and first and last child are the list's ends |
| AbstractTreeForTreeLayout.ReverseIterationNotImplemented | src/treelayout/util/AbstractTreeForTreeLayout.ts:67-71 | for any node with children, reverse iteration fails as written, while the corrected one starts at the last child and undoes to the forward order |
| NodeHelper.FindAllRoots | src/helpers/NodeHelper.ts:81-98 | returns at most one copy per input node; each is a root, with a child count of 0 |
| NodeHelper.FindAllRootsComplete | src/helpers/NodeHelper.ts:81-98 | every root of the input has a copy in the result |
| NodeHelper.FindAllRootsConcat | src/helpers/NodeHelper.ts:81-98 | the roots of a concatenation are the roots of each part, in input order |
| NodeHelper.LinkedIds | src/helpers/NodeHelper.ts:104-109 | there is at most one linked id per link |
| NodeHelper.LinkedIdsSpec | src/helpers/NodeHelper.ts:104-109 | an id is listed iff some link joins it to the node, in either direction |
| NodeHelper.FindNode | src/helpers/NodeHelper.ts:118 | a found node is in the input and has the id |
| NodeHelper.FindNodeNone | src/helpers/NodeHelper.ts:118 | nothing is found iff no input node has the id |
| NodeHelper.FindNodeIsFirst | src/helpers/NodeHelper.ts:118 | the first node with the id is the one found |
| NodeHelper.CollectChildren | src/helpers/NodeHelper.ts:111-121 | on success there are no more children than candidate ids |
| NodeHelper.CollectChildrenSpec | src/helpers/NodeHelper.ts:111-121 | fails iff an unvisited id names no node, and reports that id; otherwise it returns exactly the non-root nodes with an unvisited listed id |
| NodeHelper.FindChildrenNodes | src/helpers/NodeHelper.ts:100-124 | on success there are no more children than links |
| NodeHelper.FindChildrenNodesSpec | src/helpers/NodeHelper.ts:100-124 | fails iff some unvisited linked id names no node; on success, a node is a child iff it is a non-root input node, linked and unvisited |
| NodeHelper.FindChildrenComplete | src/helpers/NodeHelper.ts:100-124 | every non-root, linked, unvisited input node is among the children found |
| NodeHelper.SetNodesVisited | src/helpers/NodeHelper.ts:126-128 | the visited list gains the new nodes at its end and keeps its old ones in front |
| NodeHelper.SetNodesVisitedSpec | src/helpers/NodeHelper.ts:126-128 | an id counts as visited afterwards iff it was visited before or is among the new nodes |
| NodeHelper.GetNodeChildrenCount | src/helpers/NodeHelper.ts:76-79 | the count is the number of children the children search finds, with the previous layer as the visited list when given; it fails iff that search fails, with the same error; the count is positive iff an eligible child exists |
| NodeHelper.ExpandSound | src/helpers/NodeHelper.ts:28-33 | every node of the next layer is a non-root, unvisited node linked to some node of the current layer |
| NodeHelper.ExpandComplete | src/helpers/NodeHelper.ts:28-33 | every such node is in the next layer |
| NodeHelper.ExpandFailure | src/helpers/NodeHelper.ts:28-33 | a failed expansion names an unvisited id that some node of the layer links to and no input node has |
| NodeHelper.ExpandFailureMentioned | src/helpers/NodeHelper.ts:28-33 | the id of a failed expansion is mentioned by some link |
| NodeHelper.ExpandStep | src/helpers/NodeHelper.ts:28-33 | expanding one more node of the layer appends its children, or stops at the first failure |
| NodeHelper.ExpandFailurePersists | src/helpers/NodeHelper.ts:28-33 | once a prefix of the layer fails, the whole layer fails with the same error |
| NodeHelper.ProcessLayer | src/helpers/NodeHelper.ts:26-33 | expands the current layer exactly as Expand does; on success the count grows by the new layer's size, each node's children field holds its child count, and other table entries are kept |
| NodeHelper.QueueChildren | src/helpers/NodeHelper.ts:46-50 | every node of the new queue gets a children count of 0, and other entries are kept |
| NodeHelper.BuildLayers | src/helpers/NodeHelper.ts:40-58 | layer k has level k and the k-th queue's nodes, each with its recorded children count |
| NodeHelper.LayeringOutput | src/helpers/NodeHelper.ts:5-61 | the layering state of the loop, read out as layers, is a valid layering |
| NodeHelper.OutputChain | src/helpers/NodeHelper.ts:17-58 | the layers are numbered from 0 and none is empty; the first holds the roots; each later layer is the expansion of the one before |
| NodeHelper.OutputCounts | src/helpers/NodeHelper.ts:28-50 | the last layer's children counts are 0, and an earlier node's count is its number of children, unless a later layer holds the same input node again |
| NodeHelper.OutputShared | src/helpers/NodeHelper.ts:46-50 | the same input node met in two layers shows the same children count in both, since both are one object |
| NodeHelper.VisitedStep | src/helpers/NodeHelper.ts:45 | marking a layer visited extends the visited list by that layer |
| NodeHelper.GetLayerWithMaxNodes | src/helpers/NodeHelper.ts:63-74 | returns nothing iff there are no layers; otherwise the first layer with the most nodes (layer 0 when all are empty) |
| NodeHelper.NextLayer | src/helpers/NodeHelper.ts:26-51 | one round of the loop: passes iff expanding the current layer against the visited list succeeds with a non-empty result, which becomes the next queue; otherwise fails with the expansion's unknown id, or with UnconnectedNodes when it found nothing; a pass extends the layering and raises the count by the next queue's size |
| NodeHelper.AddLayers | src/helpers/NodeHelper.ts:25-58 | the loop passes iff the round-by-round reference `Rounds` from the roots succeeds, and then returns exactly its layers; it fails iff `Rounds` does, with the same error; a pass keeps a valid layering state holding at least as many entries as nodes |
| NodeHelper.CreateLayers | src/helpers/NodeHelper.ts:5-61 | fewer than two nodes gives no layers; no roots throws "no root nodes", and only then; otherwise it succeeds iff `Layers` does, with exactly the nodes of `Layers` in each layer, and fails with the error of `Layers`; a success is a valid layering that covers at least as many entries as nodes, while every proper prefix of its layers covers fewer, so the loop stops at the first layer that reaches the node count |
| NodeHelper.RoundsStop | src/helpers/NodeHelper.ts:25-58 | the rounds keep the layers already built as a prefix; their entries reach the node count, and no shorter prefix past those layers does |
| NodeHelper.RoundsAfterLayer | src/helpers/NodeHelper.ts:26-51 | a turn of the loop that passes with the next queue takes the rounds one step on; a turn that fails ends them with its error |
| TreeLayout.LevelChangeSign | src/treelayout/TreeLayout.ts:144-148 | the sign is +1 or -1, and -1 exactly for root locations Bottom and Right |
| TreeLayout.ThicknessAndSizeAreTheTwoExtents | src/treelayout/TreeLayout.ts:98-127 | thickness is the height and size the width when levels change along y, and the other way round otherwise |
| TreeLayout.Distance | src/treelayout/TreeLayout.ts:349-355 | the distance of two neighbours is half their summed sizes plus the node gap, hence at least half their summed sizes |
| TreeLayout.NeighboursDoNotOverlap | src/treelayout/TreeLayout.ts:349-355 | two neighbours placed that far apart do not overlap along the level |
| TreeLayout.Numbered | src/treelayout/TreeLayout.ts:373-384 | numbering the first n children gives numbers in 1..n |
| TreeLayout.NumberedSpec | src/treelayout/TreeLayout.ts:373-384 | the numbered keys are exactly the children's ids; with distinct ids, the i-th child gets i + 1 |
| TreeLayout.NumberedKey | src/treelayout/TreeLayout.ts:373-384 | a numbered id belongs to one of the numbered children |
| TreeLayout.NumberOfSpec | src/treelayout/TreeLayout.ts:373-384 | a cached number is returned unchanged; otherwise a child of the parent gets its 1-based position, and a non-child gets no number |
| TreeLayout.Added | src/treelayout/TreeLayout.ts:286-338 | the entry read back, defaulting to 0, grows by exactly delta |
| TreeLayout.MoveKeepsChangeSum | src/treelayout/TreeLayout.ts:407-423 | moving a subtree keeps the sum of the two change entries and subtracts shift/subtrees from wPlus's; no other entry changes |
| TreeLayout.ShiftsKeepPrelimMinusMod | src/treelayout/TreeLayout.ts:536-547 | the shift pass adds the same amount to prelim and mod, so prelim - mod is kept for every node |
| TreeLayout.ShiftsAppliedAt | src/treelayout/TreeLayout.ts:536-547 | with distinct children, the k-th child visited from the right moves by the running shift it is reached with |
| TreeLayout.LastChildUnmoved | src/treelayout/TreeLayout.ts:536-547 | the last child starts the reverse pass and does not move |
| TreeLayout.LevelSize | src/treelayout/TreeLayout.ts:195-216 | a level's size is never negative |
| TreeLayout.KidsLevelSize | src/treelayout/TreeLayout.ts:210-214 | the size of a level below the first n children is never negative |
| TreeLayout.LevelSizeBounds | src/treelayout/TreeLayout.ts:228-242 | every node at depth d is no thicker than the size of level d |
| TreeLayout.KidsLevelSizeCovers | src/treelayout/TreeLayout.ts:210-214 | a child's own level sizes are bounded by the combined ones |
| TreeLayout.LevelSizeAttained | src/treelayout/TreeLayout.ts:228-242 | a level with a positive size has a node exactly that thick |
| TreeLayout.KidsLevelSizeAttained | src/treelayout/TreeLayout.ts:210-214 | a positive combined size is attained in one child |
| TreeLayout.LevelSizeBeyondHeight | src/treelayout/TreeLayout.ts:197-216 | levels below the tree's height have size 0 |
| TreeLayout.KidsLevelSizeBeyondHeight | src/treelayout/TreeLayout.ts:197-216 | the same for the combined children |
| TreeLayout.DepthCoordinate | src/treelayout/TreeLayout.ts:622-631 | the intended depth: a node aligned towards the root touches the level's start, one aligned away from it touches the level's end, and a centred one sits in the middle, for either direction |
| TreeLayout.DepthCoordinateAsWritten | src/treelayout/TreeLayout.ts:622-631 | the source's depth is the intended one, except that for AwayFromRoot it is off by (1 - sign) times the level size |
| TreeLayout.NodeInsideLevelBand | src/treelayout/TreeLayout.ts:622-631 | with the intended formula, a node no thicker than its level lies within the level's band for every alignment and either direction |
| TreeLayout.AsWrittenInsideLevelBand | src/treelayout/TreeLayout.ts:622-631 | the source's depth keeps a node no thicker than its level inside the level's band, except for AwayFromRoot with the root at the bottom or right |
| TreeLayout.AsWrittenAgreesForRootTopOrLeft | src/treelayout/TreeLayout.ts:622-631 | when levels grow towards larger coordinates, the source's formula and the intended one agree |
| TreeLayout.AwayFromRootAsWrittenLeavesBand | src/treelayout/TreeLayout.ts:628-630 | with root at the bottom, AwayFromRoot as written puts a 10-thick node of a 10-deep level at 15, outside the band [-10, 0]; the intended 5 below the start lies inside |
| TreeLayout.FirstVisitsConcat | src/treelayout/TreeLayout.ts:703-713 | a traversal of a + b meets no node twice iff a does not and b meets neither a node of a nor a node twice |
| TreeLayout.PreorderElems | src/treelayout/TreeLayout.ts:703-713 | the traversal meets exactly the tree's nodes |
| TreeLayout.PreorderKidsElems | src/treelayout/TreeLayout.ts:703-713 | the traversal of the first n children meets exactly their nodes |
| TreeLayout.NoRepeatIffUniqueIds | src/treelayout/TreeLayout.ts:703-728 | the traversal meets no node twice iff every node occurs once in the tree |
| TreeLayout.KidsNoRepeat | src/treelayout/TreeLayout.ts:703-713 | the same for the first n children |
| TreeLayout.FreshAfter | src/treelayout/TreeLayout.ts:703-713 | with some nodes already met, a traversal meets no node twice iff it repeats nothing and meets none of them |
| TreeLayout.FirstVisitsPrefix | src/treelayout/TreeLayout.ts:703-713 | a traversal that meets no node twice does not on any prefix of the children either |
| TreeLayout.TreeLayout.constructor | src/treelayout/TreeLayout.ts:36-68 | after the three passes the layout is `Valid`: one level per depth, each level's size its thickest node's, exactly the tree's nodes positioned, each inside the bounds, left <= right and top <= bottom; with unique ids every node is at its place (`PlacedSubtree` from the root with minus the root's preliminary coordinate), so the root is at 0 along its level; node bounds are not yet computed |
| TreeLayout.TreeLayout.Layout | src/treelayout/TreeLayout.ts:60-67 | the first walk, the level sizes and the second walk leave a `Valid` layout with every node at its place |
| TreeLayout.TreeLayout.MeasureLevels | src/treelayout/TreeLayout.ts:63-64 | from an empty list, one level size per depth, each the size of that level |
| TreeLayout.TreeLayout.PlaceTree | src/treelayout/TreeLayout.ts:65-66 | the second walk from the root leaves a `Valid` layout, every node placed, and the root at 0 along its level |
| TreeLayout.TreeLayout.RootAtOrigin | src/treelayout/TreeLayout.ts:65-66 | starting the second walk with minus the root's preliminary coordinate puts the root at 0 along its level |
| TreeLayout.TreeLayout.LevelsFromEmpty | src/treelayout/TreeLayout.ts:195-216 | level sizes merged into an empty list are the tree's level sizes |
| TreeLayout.TreeLayout.CoveredBoundsOrdered | src/treelayout/TreeLayout.ts:153-193 | once a node of non-negative extent lies within the bounds, they enclose a proper rectangle |
| TreeLayout.TreeLayout.NextLeft | src/treelayout/TreeLayout.ts:357-359 | for a non-leaf, the first child; for a leaf, its thread |
| TreeLayout.TreeLayout.NextRight | src/treelayout/TreeLayout.ts:361-363 | for a non-leaf, the last child; for a leaf, its thread |
| TreeLayout.TreeLayout.GetNumber | src/treelayout/TreeLayout.ts:373-384 | on a cache miss the parent's children are numbered 1, 2, ... in order (NumbersAfter); the result is NumberOf, as characterised by NumberOfSpec |
| TreeLayout.TreeLayout.AncestorFct | src/treelayout/TreeLayout.ts:395-405 | the ancestor of vIMinus when it is a child of v's parent, otherwise the default ancestor |
| TreeLayout.TreeLayout.MoveSubtree | src/treelayout/TreeLayout.ts:407-423 | numbers both nodes; when both are known and differ, change is ChangeAfterMove, and shift, prelim and mod of wPlus grow by shift; otherwise nothing moves |
| TreeLayout.TreeLayout.Apportion | src/treelayout/TreeLayout.ts:465-529 | without a left sibling the default ancestor is returned and nothing changes; otherwise the result is the default ancestor or v, prelim and shift grow at v alone and no other entry of them changes, and every ancestor entry is kept or set to v |
| TreeLayout.AddedGrownOnlyAt | src/treelayout/TreeLayout.ts:465-529 | adding a non-negative amount at v keeps a table grown at v alone relative to its start |
| TreeLayout.TreeLayout.ExecuteShifts | src/treelayout/TreeLayout.ts:536-547 | prelim and mod become ShiftsApplied over the reversed children, whose properties are ShiftsKeepPrelimMinusMod, ShiftsAppliedAt and LastChildUnmoved |
| TreeLayout.TreeLayout.FirstWalk | src/treelayout/TreeLayout.ts:558-600 | a leaf without a left sibling changes neither prelim nor mod; a node with a distinct left sibling w gets prelim(w) + distance; a duplicate-free inner node is centred over its first and last child, directly or through mod |
| TreeLayout.TreeLayout.CalcSizeOfLevels | src/treelayout/TreeLayout.ts:197-216 | the list grows to cover the subtree's depths; entries above the subtree's level are kept; every other entry is the maximum of its old value and LevelSize of the subtree; sizes stay non-negative |
| TreeLayout.TreeLayout.CalcSizeOfKidLevels | src/treelayout/TreeLayout.ts:211-215 | the same for all children of a node, combined through KidsLevelSize |
| TreeLayout.TreeLayout.LevelsAfterKid | src/treelayout/TreeLayout.ts:211-215 | one more child's recursive call extends the combined level sizes by that child |
| TreeLayout.TreeLayout.LevelsOfNode | src/treelayout/TreeLayout.ts:197-216 | a node's own entry and its children's entries make up LevelSize of its subtree |
| TreeLayout.TreeLayout.GetLevelCount | src/treelayout/TreeLayout.ts:223-225 | the number of levels is the length of the level-size list; in a valid layout it is the tree's height plus one, so at least 1 |
| TreeLayout.TreeLayout.GetSizeOfLevel | src/treelayout/TreeLayout.ts:237-242 | succeeds iff 0 <= level < levelCount (in a valid layout, iff the level is at most the tree's height), with that level's size; otherwise fails with "level must be >= 0" or "level must be < levelCount" |
| TreeLayout.TreeLayout.UpdateBounds | src/treelayout/TreeLayout.ts:158-177 | the bounds only grow, each to the node's edge or not at all, and afterwards contain the node's rectangle |
| TreeLayout.TreeLayout.SecondWalk | src/treelayout/TreeLayout.ts:611-654 | `Walked`: sets exactly the positions of the subtree's nodes and keeps every other one; in a duplicate-free subtree every node is at `PlacedAt` (`PlacedSubtree`), the root with `m`, each child one level further on with its parent's `mod` added and the level start moved by `NextLevelStart`; the bounds only grow and still contain every position |
| TreeLayout.TreeLayout.SecondWalkKids | src/treelayout/TreeLayout.ts:644-653 | `KidsWalked`: sets exactly the positions of the children's subtrees, and with unique ids every child subtree is placed (`PlacedSubtree`) at the given level, with the given `m` and level start; the bounds only grow and contain every position |
| TreeLayout.TreeLayout.KidWalked | src/treelayout/TreeLayout.ts:644-653 | walking one more child after its elder siblings walks one more child: with unique ids the elder siblings' subtrees stay placed |
| TreeLayout.TreeLayout.NodeWalked | src/treelayout/TreeLayout.ts:611-654 | placing a node and walking all its children walks the node; with unique ids no child subtree overwrites the node's own position |
| TreeLayout.TreeLayout.LeafWalked | src/treelayout/TreeLayout.ts:611-642 | a leaf is walked once its own position is set |
| TreeLayout.TreeLayout.PlaceNode | src/treelayout/TreeLayout.ts:620-642 | the node's position becomes `PlacedAt` and no other position changes; the bounds only grow and contain every position |
| TreeLayout.TreeLayout.PlacedAt | src/treelayout/TreeLayout.ts:620-637 | along the level the node is at its preliminary coordinate plus the sum of its ancestors' `mod`; across it, at the depth coordinate of the source's own formula, `DepthCoordinateAsWritten`; the two are x and y when levels change along y, swapped otherwise |
| TreeLayout.TreeLayout.PlacedInsideLevelBand | src/treelayout/TreeLayout.ts:620-631 | a placed node no thicker than its level lies inside the level's band, for every alignment with the root at the top or left, and for Center and TowardsRoot with the root at the bottom or right |
| TreeLayout.TreeLayout.NextLevelStart | src/treelayout/TreeLayout.ts:645-648 | the next level starts past the whole current level, in the direction the levels grow in |
| TreeLayout.TreeLayout.PlacedSubtreeAgree | src/treelayout/TreeLayout.ts:611-654 | a placed subtree stays placed in any position table that agrees on the subtree's ids |
| TreeLayout.TreeLayout.PlacedSiblingsKept | src/treelayout/TreeLayout.ts:644-653 | walking child i of a duplicate-free node leaves the subtrees of the children before it placed |
| TreeLayout.TreeLayout.SetOnlyTrans | src/treelayout/TreeLayout.ts:611-654 | setting the entries of one id set and then of another sets those of their union |
| TreeLayout.TreeLayout.GetBounds | src/treelayout/TreeLayout.ts:186-193 | succeeds iff left <= right and top <= bottom, which a valid layout guarantees, giving a rectangle at (0, 0) that spans the bounds |
| TreeLayout.TreeLayout.NodeRect | src/treelayout/TreeLayout.ts:674-682 | fails iff the node's width or height is negative; otherwise the node's own size around its centre, normalised by the bounds |
| TreeLayout.TreeLayout.GetNodeBounds | src/treelayout/TreeLayout.ts:659-686 | a cached map is returned as is; otherwise it succeeds iff no positioned node has a negative extent, which holds in a valid layout, maps exactly the positioned nodes to their rectangles, caches the map, and with every node inside the bounds all x and y are >= 0; the layout stays valid |
| TreeLayout.TreeLayout.NodeRectsInside | src/treelayout/TreeLayout.ts:659-668 | rectangles of nodes inside the bounds start at x >= 0 and y >= 0 |
| TreeLayout.TreeLayout.AddUniqueNodes | src/treelayout/TreeLayout.ts:703-713 | succeeds iff the traversal of the subtree meets no node already met or twice, adding its nodes; a failure names a node of the subtree |
| TreeLayout.TreeLayout.CheckTree | src/treelayout/TreeLayout.ts:715-728 | passes iff every node occurs once in the tree; a failure names a node of the tree |

## Left out

- Nodes are identified by an id: the source's `Map<TreeNode, …>` tables compare node objects. Two distinct objects with equal content are one node here. The `useIdentity` flag, which the source stores but never uses, is not modelled.
- `Configuration` and `NodeExtentProvider` are pure functions here. Their documented promises (non-negative gaps, widths and heights) are preconditions of the members that rely on them.
- Numbers are `real`: floating-point rounding, NaN and infinities are not modelled.
- TreeLayout.TreeLayout.MoveSubtree: when both sibling numbers are equal the source divides by zero, producing infinities or NaN. The model leaves the tables unchanged in that case.
- TreeLayout.TreeLayout.Apportion: the contour walk is bounded by the tree's height plus one. The source loops until a contour ends, which terminates only when the threads are well formed, and that is not proved here. The contract does not state the contour separation the algorithm achieves, nor how `mod`, `change` and `thread` change; it states that prelim and shift grow at v alone and which ancestor entries may change.
- TreeLayout.TreeLayout.Apportion: where the source calls `setAncestor`, `setThread`, `nextLeft` or `nextRight` on a null outer contour node, the model skips the update or yields no node. The source would store a `null` key or call the tree interface with `null`.
- TreeLayout.TreeLayout.FirstWalk: the centring and distance promises are stated for duplicate-free subtrees and distinct siblings. Without those, entries of equal ids overwrite each other.
- TreeLayout.TreeLayout.GetNodeBounds: the doc comment also promises that some rectangle has x == 0 and some has y == 0. That is not proved; x >= 0 and y >= 0 are.
- TreeLayout.TreeLayout.SecondWalk: the placement of every node is stated for duplicate-free subtrees only. With repeated ids, a later node overwrites an earlier one's position, as in the source's `Map`.
- TreeLayout.TreeLayout.PlacedAt: follows the source's depth formula (`DepthCoordinateAsWritten`), including the AwayFromRoot error of the first finding, so `PlacedInsideLevelBand` excludes that case. The corrected formula, `DepthCoordinate`, is proved to keep every node in its level.
- TreeLayout.TreeLayout.constructor: the layout's overall promise, that nodes of one level do not overlap, is not proved. Only the neighbour distance (`Distance`, `NeighboursDoNotOverlap`) and the centring in `FirstWalk` are stated.
- The accessors `getTree`, `getNodeExtentProvider` and `getConfiguration` are the class's `const` fields. The getters and setters of the side tables are map reads with default 0 (`ValueOrZero`) and map updates.
- `NormalizedPosition` is `Position` plus `NormalizedX`/`NormalizedY`, which subtract the current left and top bounds when read.
- `dumpTree`, `StringUtil` and `DumpConfig` only format text and are not modelled.
- `Contract.ts` is modelled by the `Failure` results of `GetSizeOfLevel`.
- `Point.distance` (both forms) needs a square root and is not modelled.
- `Rectangle.createUnion` has an empty body and is not modelled.
- The private `recaulculateSize` of `Rectangle` is never called and is not modelled.
- `ILayer.nodesCount` is never assigned by the layering and is not modelled.
- NodeHelper.CreateLayers: `deepCopyObject` (ObjectHelper.ts) is the identity here. It copies plain data, which the model holds as values anyway.
- NodeHelper.CreateLayers: the source writes each node's child count into the `children` field of the caller's own node objects (NodeHelper.ts:31 and 46-49), since the layers after the first hold the input objects themselves. The model holds the input as values: the counts live in the returned layers only, and the change to the caller's objects is not modelled.
- NodeHelper.CreateLayers: an undefined `isRoot` counts as false. A missing child node (TypeError in the source) is the `UnknownNode` failure.
- The React components, styles and `index.tsx` render the layout and are not part of this model.

## Findings

| source | as written | input that shows it | evidently intended | confidence | as-written member | corrected member |
|---|---|---|---|---|---|---|
| src/treelayout/TreeLayout.ts:628-630 | `y = levelStart + levelSize - levelChangeSign * (thickness / 2)` for AwayFromRoot | root location Bottom (sign -1), levelStart 0, level size 10, node thickness 10: y = 15, outside the level's band [-10, 0] | `levelStart + levelChangeSign * (levelSize - thickness / 2)`, which gives -5 and keeps the node inside its level | high (not executed) | TreeLayout.DepthCoordinateAsWritten, TreeLayout.AwayFromRootAsWrittenLeavesBand | TreeLayout.DepthCoordinate, TreeLayout.NodeInsideLevelBand |
| src/treelayout/util/AbstractTreeForTreeLayout.ts:67-71 | `getChildrenReverse` always throws "Not implemented method" | any adapter tree whose root has a child: the layout's `executeShifts` calls `getChildrenReverse` on it and throws | the child list in reverse order, as the commented-out line returns | high (not executed) | AbstractTreeForTreeLayout.GetChildrenReverse, AbstractTreeForTreeLayout.ReverseIterationNotImplemented | AbstractTreeForTreeLayout.GetChildrenReverseCorrected |
| src/treelayout/util/Rectangle.ts:74-78 | `isOutsideX = x < this.x && x > this.x + this.width`, likewise for y | the rectangle at (0, 0) with width and height 1: `isInside(5, 5)` is true | `x < this.x \|\| x > this.x + this.width`, so that points past an edge are outside | high (not executed) | Geometry.Rectangle.IsInside, Geometry.IsInsideAcceptsFarPoints | Geometry.Rectangle.IsInsideCorrected |
