# Road Generator: the segment tree, mesh generation and the road editor

This project models the discrete core of a Unity road builder. The model covers:

- **The segment tree.** A road is a tree of segment nodes. Each node has a kind
  (Straight, Smooth, Corner or Intersection) and a fixed-size `children` array: three
  slots for an Intersection, one for any other kind. Each node also has a `parent`
  back-pointer.
- **Node operations.** `AddNode`, `InsertNode`, `RemoveChild`, `GetChild`, `Clone`, the
  `Shrink*` length updates and the Smooth node's roll.
- **Mesh strips.** A node emits a strip of quads. Straight and Intersection nodes always
  emit one quad.
- **Traversals of the road creator.**
  - The depth-first aggregation of the road's mesh.
  - The collection of nodes with an open slot.
  - The breadth-first deep copy `CopyRoad`.
  - The smoothing pass. As written it changes nothing.
  - The pitch and roll comparison `IsSmoothNeeded`.
  - The clamping of the subdivision and of the smoothing fraction.
- **The editor.** Its state is the selected node, the selected slot, the enabled flag of
  the remove button and the selection points offered at the open ends of the road. Adding
  a segment, removing one and picking a selection point move it from state to state.
- **Helpers.** `ClampAngle`, and the cubic Bezier point and tangent.

Nodes are a Dafny class (`Segments.Node`). Their `children` array and their kind never
change after construction, so a node's arity is fixed for its lifetime. A ghost `Tree`
datatype describes the tree in the heap. `RoadTree.Represents(t)` is the parent/child
invariant:

- every node occurs once;
- no two nodes share a children array;
- each children array holds the tree's slots;
- each child's `parent` is the node holding it.

Each traversal is a method over the heap. Its contract ties its result to a function of
the `Tree`, and the properties of the traversal are proved about that function. The
editor is a class. Its methods keep `Valid()`: the road is represented, the selection
names an empty slot of a node of the road, and the selection points are exactly the
road's free slots, each once.

Floats are modelled as exact reals. Mesh vertex positions are symbolic:
`Vertex(s, t, offset)` stands for `s.GetPosition(t, offset)`.

Two behaviours of the code are worth stating plainly:

- **Smooth roll.** `getRoll` interpolates the roll linearly with `Mathf.Lerp`
  (`Assets/Scripts/RoadSegment/SegmentNode.cs:356-360`).
- **Mesh size.** A Straight or Intersection node emits 4 vertices and 6 indices at any
  subdivision (`Assets/Scripts/RoadSegment/SegmentNode.cs:233-236`). Only Smooth and
  Corner nodes emit a strip of the requested subdivision.

## Model

| member | source | states |
|---|---|---|
| Angles.ClampAngle | Assets/Scripts/RoadCreator.cs:61-72 | over exact reals the two loops return the angle in [0, 360), differing from the input by whole turns; an angle already in [0, 360) is returned unchanged |
| Angles.NormalizedInRange | Assets/Scripts/RoadCreator.cs:57-72 | over exact reals the normal form lies in [0, 360); 360 itself is reached only through float rounding, which the doc comment's [0, 360] allows for |
| Angles.NormalizedWholeTurns | Assets/Scripts/RoadCreator.cs:63-70 | the result differs from the input by an integer multiple of 360 |
| Angles.NormalizedShift | Assets/Scripts/RoadCreator.cs:63-70 | adding or subtracting whole turns does not change the normal form: the loop invariant of both loops |
| Angles.NormalizedFixesRange | Assets/Scripts/RoadCreator.cs:63-71 | an angle in [0, 360) is its own normal form, since neither loop runs |
| Angles.NormalizedIdempotent | Assets/Scripts/RoadCreator.cs:61-72 | clamping twice is clamping once |
| Bezier.PointAtStart | Assets/Scripts/Utils/BezierCurve.cs:7-16 | GetPoint at t = 0 is the first control point |
| Bezier.PointAtEnd | Assets/Scripts/Utils/BezierCurve.cs:7-16 | GetPoint at t = 1 is the last control point |
| Bezier.WeightsSumToOne | Assets/Scripts/Utils/BezierCurve.cs:9-15 | the four Bernstein weights sum to 1 for every t, clamped or not |
| Bezier.CoincidentPointsConstant | Assets/Scripts/Utils/BezierCurve.cs:9-15 | four equal control points give that point for every t |
| Bezier.ReversalSymmetry | Assets/Scripts/Utils/BezierCurve.cs:9-15 | reversing the control points and replacing t by 1 - t gives the same point |
| Bezier.RawTangentIsHodograph | Assets/Scripts/Utils/BezierCurve.cs:18-28 | the unnormalised tangent is the sum of the three control-leg differences weighted by the quadratic Bernstein weights |
| Bezier.TangentAtStart | Assets/Scripts/Utils/BezierCurve.cs:20-28 | the unnormalised tangent at t = 0 is pts[1] - pts[0] |
| Bezier.TangentAtEnd | Assets/Scripts/Utils/BezierCurve.cs:20-28 | the unnormalised tangent at t = 1 is pts[3] - pts[2] |
| Bezier.TangentWeightsSumToZero | Assets/Scripts/Utils/BezierCurve.cs:24-28 | the tangent weights sum to 0 for every t |
| Bezier.CoincidentPointsZeroTangent | Assets/Scripts/Utils/BezierCurve.cs:24-29 | four equal control points give the zero vector before normalisation |
| Segments.Node.StraightSegment | Assets/Scripts/RoadSegment/SegmentNode.cs:216-230 | a new Straight node: one empty slot, no parent, the given parameters stored |
| Segments.Node.IntersectionSegment | Assets/Scripts/RoadSegment/SegmentNode.cs:297-307 | a new Intersection node: three empty slots, no parent, the given parameters and side centres stored |
| Segments.Node.SmoothSegment | Assets/Scripts/RoadSegment/SegmentNode.cs:333-346 | a new Smooth node: one empty slot, no parent, rolls at zero |
| Segments.Node.CornerSegment | Assets/Scripts/RoadSegment/SegmentNode.cs:413-437 | a new Corner node: one empty slot, no parent, start yaw equal to the yaw |
| Segments.Node.GetChild | Assets/Scripts/RoadSegment/SegmentNode.cs:135-142 | found exactly when the index is within the array, then the slot's content; otherwise IndexOutOfRange |
| Segments.Node.AddNode | Assets/Scripts/RoadSegment/SegmentNode.cs:75-84 | an out-of-range index fails with the array and the new node's parent unchanged; otherwise exactly slot `index` is overwritten and the new node's parent becomes this node (a null node fails after the write); the previous occupant keeps its parent pointer; nothing but the array and the new node's `parent` may change |
| Segments.Node.InsertNode | Assets/Scripts/RoadSegment/SegmentNode.cs:91-105 | an out-of-range index fails with both arrays and the new node's parent unchanged; otherwise the new node takes slot `index`; a null new node fails leaving the old occupant's parent; otherwise the old occupant moves to the new node's slot 0 with the new node as its parent, and an empty slot ends in a null-reference failure; only the two arrays and the two `parent` fields may change |
| Segments.Node.RemoveChild | Assets/Scripts/RoadSegment/SegmentNode.cs:112-127 | returns -1 exactly when the node is in no slot, changing nothing; otherwise the first slot holding it, now null, with no other slot changed, and the node's parent cleared |
| Segments.Node.GenerateStrip | Assets/Scripts/RoadSegment/SegmentNode.cs:159-191 | the strip has 2(N+1) vertices and 6N indices, equal to the closed forms StripVertices and StripTriangles |
| Segments.Node.GenerateMesh | Assets/Scripts/RoadSegment/SegmentNode.cs:233-236 | Straight and Intersection nodes emit 4 vertices and 6 indices whatever is requested; Smooth and Corner nodes emit the full strip |
| Segments.StripVertexLayout | Assets/Scripts/RoadSegment/SegmentNode.cs:165-174 | vertex 2i is the left point (offset -width/2) and 2i+1 the right point at t = i/N |
| Segments.StripIndicesInRange | Assets/Scripts/RoadSegment/SegmentNode.cs:176-185 | every index lies in [B, B + 2(N+1)) |
| Segments.StripConsistentlyOriented | Assets/Scripts/RoadSegment/SegmentNode.cs:176-185 | every triangle has three distinct corners and no directed edge occurs twice: all triangles wind the same way |
| Segments.StripSharedEdges | Assets/Scripts/RoadSegment/SegmentNode.cs:176-185 | the two triangles of a quad share its diagonal, and neighbouring quads share a rung, each traversed in opposite directions |
| Segments.Node.ShrinkStartPoint | Assets/Scripts/RoadSegment/SegmentNode.cs:262-267 | the length becomes length * (1 - clamp01(percent)) |
| Segments.Node.ShrinkEndPoint | Assets/Scripts/RoadSegment/SegmentNode.cs:269-274 | the length becomes length * (1 - clamp01(percent)) |
| Segments.ShrunkBounds | Assets/Scripts/RoadSegment/SegmentNode.cs:262-274 | a shrink keeps a non-negative length within [0, length]; a percent at or below 0 keeps it and one at or above 1 collapses it |
| Segments.ShrunkCompounds | Assets/Scripts/RoadSegment/SegmentNode.cs:262-274 | two shrinks compound to length(1-p)(1-q), in either order |
| Segments.Node.RollAt | Assets/Scripts/RoadSegment/SegmentNode.cs:356-360 | startRoll for t <= 0, endRoll for t >= 1, and always between the two |
| Segments.SmoothCurveEnds | Assets/Scripts/RoadSegment/SegmentNode.cs:341-351 | a Smooth node's centre curve runs from its start point to its end point |
| Segments.Node.Clone | Assets/Scripts/RoadSegment/SegmentNode.cs:253-260 | a fresh node of the same kind with its own constructor parameters, the same parent, and a fresh children array holding the same children: a shallow copy |
| Segments.SmoothCloneHasNoRoll | Assets/Scripts/RoadSegment/SegmentNode.cs:367-374 | a Smooth clone is rebuilt through the constructor, so it rolls by 0 everywhere |
| RoadTree.RepresentsArity | Assets/Scripts/RoadSegment/SegmentNode.cs:60-67 | in a represented road each node's children array has 3 slots for an Intersection and 1 otherwise |
| RoadTree.HasParent | Assets/Scripts/RoadSegment/SegmentNode.cs:82-83 | every node of a road except its start node has a parent in the road, and a slot of that parent holds it |
| RoadTree.LinkedClosed | Assets/Scripts/RoadMeshCreator.cs:114-122 | following non-null children from a node of a road stays in the road |
| RoadTree.GraftRepresents | Assets/Scripts/RoadSegment/SegmentNode.cs:75-84 | AddNode of a detached node into an empty slot of a road keeps the parent/child invariant, and the road gains that node |
| RoadTree.GraftNodesExact | Assets/Scripts/RoadCreatorUI.cs:313 | hanging a leaf into an empty slot adds exactly the leaf's nodes to the road |
| RoadTree.PruneRepresents | Assets/Scripts/RoadSegment/SegmentNode.cs:112-127 | RemoveChild of a non-root node keeps the invariant for the rest of the road, which loses the node and keeps its parent |
| RoadTree.PruneNodes | Assets/Scripts/RoadCreatorUI.cs:356-370 | cutting a node off never adds a node and removes the node that was cut |
| RoadTree.PruneNodesExact | Assets/Scripts/RoadSegment/SegmentNode.cs:112-127 | cutting a node off removes exactly that node and everything below it (Below), and nothing else |
| RoadTree.MapTreeShape | Assets/Scripts/RoadMeshCreator.cs:131-156 | the image of a road under a kind-preserving node map has the same kinds and the same empty and non-empty slots |
| RoadTree.MapTreeRepresents | Assets/Scripts/RoadMeshCreator.cs:131-156 | the image of a road under a map that mirrors its links onto distinct nodes and arrays is itself a represented road |
| RoadCopy.CopyDone | Assets/Scripts/RoadMeshCreator.cs:138-154 | when the queue is empty every node of the road has been cloned and processed, and each clone's slots and parent mirror the original's |
| MeshCreation.SubdivisionClamped | Assets/Scripts/RoadMeshCreator.cs:76 | the subdivision used is at least 2 and at most int.MaxValue, a valid request is kept, and clamping is idempotent |
| MeshCreation.SmoothFractionClamped | Assets/Scripts/RoadMeshCreator.cs:171 | the smoothing fraction used lies in [0, 0.5], a fraction there is kept, and clamping is idempotent |
| MeshCreation.MeshCreator.GetEndPointSegments | Assets/Scripts/RoadMeshCreator.cs:28-38 | no road gives the empty list; otherwise the list holds exactly the road's nodes with a null child, each once |
| MeshCreation.MeshCreator.CollectEndPoints | Assets/Scripts/RoadMeshCreator.cs:45-65 | the recursive walk produces EndPoints, the list the source builds slot by slot |
| MeshCreation.EndPointsCollect | Assets/Scripts/RoadMeshCreator.cs:45-65 | the walk only appends, adds exactly the nodes with an empty slot, and never adds a node twice |
| MeshCreation.MeshCreator.GenerateMeshFrom | Assets/Scripts/RoadMeshCreator.cs:102-124 | the recursion appends each node's mesh in depth-first pre-order, children in slot order, with the running vertex count as base index |
| MeshCreation.MeshCreator.GenerateRawMesh | Assets/Scripts/RoadMeshCreator.cs:74-90 | the mesh handed over is the pre-order aggregate at the clamped subdivision |
| MeshCreation.AggregateShape | Assets/Scripts/RoadMeshCreator.cs:110-112 | aggregation only appends; the vertex and index counts grow by the per-node counts; a multiple of 6 stays one; indices that addressed vertices still do |
| MeshCreation.RoadMeshShape | Assets/Scripts/RoadMeshCreator.cs:102-124 | a road's mesh visits every node once; the totals are the per-node sums; the index count is a multiple of 6; every index addresses a vertex |
| MeshCreation.MeshCreator.CopyRoad | Assets/Scripts/RoadMeshCreator.cs:131-156 | the copy is a represented road of the same shape, each node a fresh clone of the node at the same place with a fresh array, the root's parent shared; it has no modifies clause, so the original is not changed |
| MeshCreation.SameShapeSameMesh | Assets/Scripts/RoadMeshCreator.cs:174-179 | a copy of the same shape yields the same index list and as many vertices as the original road |
| MeshCreation.MeshCreator.GenerateSmoothRoadMesh | Assets/Scripts/RoadMeshCreator.cs:164-188 | no road leaves the mesh unchanged; otherwise the mesh is the aggregate of a fresh copy of the same shape, with the raw mesh's indices and vertex count |
| MeshCreation.MeshCreator.GenerateSmoothRoad | Assets/Scripts/RoadMeshCreator.cs:190-248 | the pass terminates, changes nothing (no modifies clause) and dequeues exactly Walked of the creator's own road, whatever start node it is passed |
| MeshCreation.WalkedWithin | Assets/Scripts/RoadMeshCreator.cs:235-240 | the pass dequeues the root and only nodes of the road; below a non-Smooth root nothing else |
| MeshCreation.MeshCreator.QueueChildren | Assets/Scripts/RoadMeshCreator.cs:205-246 | children are queued only below a Smooth node, and all of its non-null children then |
| MeshCreation.IsSmoothNeededIff | Assets/Scripts/RoadMeshCreator.cs:250-286 | smoothing is needed exactly when the pitches or the rolls differ, a Smooth node counting as pitch 0 and roll 0; it is symmetric and irreflexive |
| Editor.NewKind | Assets/Scripts/RoadCreatorUI.cs:287-304 | Intersection exactly when asked; otherwise Corner exactly when angle != 0 and radius > 0, else Straight; never Smooth |
| Editor.IntersectionPoint | Assets/Scripts/RoadCreatorUI.cs:436-441 | a point exactly when the slot is empty, naming that node and slot |
| Editor.NodePoints | Assets/Scripts/RoadCreatorUI.cs:395-425 | the points made for one end-point node are its free slots, each once |
| Editor.CollectSelectionPoints | Assets/Scripts/RoadCreatorUI.cs:389-427 | the points made for the end-point nodes are exactly their free slots, each once |
| Editor.EndsFreeSlots | Assets/Scripts/RoadCreatorUI.cs:389 | the end-point nodes carry every free slot of the road |
| Editor.SelectKeeps | Assets/Scripts/RoadCreatorUI.cs:470-474 | picking any displayed selection point keeps the editor consistent |
| Editor.MakeSegment | Assets/Scripts/RoadCreatorUI.cs:285-304 | a fresh detached node of kind NewKind with the given start point, yaw, width and end point |
| Editor.HangIn | Assets/Scripts/RoadCreatorUI.cs:313 | AddNode into the selected empty slot: the road becomes the graft of a leaf for the new node, still represented, with the new node's parent the selected node |
| Editor.CutOff | Assets/Scripts/RoadCreatorUI.cs:360-366 | RemoveChild on the parent: the road becomes the pruning at the node, still represented, and the returned index is the slot that held it, now null |
| Editor.CutNodes | Assets/Scripts/RoadCreatorUI.cs:356-370 | after OnRemoveSegmentClicked cuts a node off, the road's nodes are exactly the old ones minus the node and everything below it |
| Editor.RoadEditor.constructor | Assets/Scripts/RoadCreatorUI.cs:146 | a new editor over an empty road: nothing selected, removal disabled, no points |
| Editor.RoadEditor.Select | Assets/Scripts/RoadCreatorUI.cs:470-474 | the point's node and slot become the selection, and the editor stays consistent |
| Editor.RoadEditor.CreateSelectionPoints | Assets/Scripts/RoadCreatorUI.cs:379-428 | the points shown are exactly the free slots of the road, each once |
| Editor.RoadEditor.Refresh | Assets/Scripts/RoadCreatorUI.cs:326-327 | the raw mesh is the aggregate of the road at subdivision 10, and the editor is consistent again |
| Editor.RoadEditor.NewSegment | Assets/Scripts/RoadCreatorUI.cs:242-304 | the new node is fresh and detached, of kind NewKind, and starts at the origin with yaw 0 on an empty road, otherwise at StartFrame of the selected node and slot: the end point, or the side centre of an intersection's side slot, with the matching yaw |
| Editor.RoadEditor.StartRoad | Assets/Scripts/RoadCreatorUI.cs:306-310 | on an empty road the new node becomes the start node, and it is selected with removal enabled |
| Editor.RoadEditor.Attach | Assets/Scripts/RoadCreatorUI.cs:311-325 | the new node hangs in the selected slot, the road grafted accordingly, and it is selected with removal enabled |
| Editor.RoadEditor.AddSegment | Assets/Scripts/RoadCreatorUI.cs:227-329 | nothing changes when nothing is selected on an existing road; otherwise a fresh node (with a fresh children array) of kind NewKind, anchored at the origin on an empty road and otherwise at StartFrame of the old selection, starts the road or hangs in the selected slot, becomes the selection at slot 0 with removal enabled, and the mesh is rebuilt |
| Editor.RoadEditor.Grow | Assets/Scripts/RoadCreatorUI.cs:242-328 | past the guard: a fresh node of kind NewKind, anchored by StartFrame (the origin on an empty road), starts the road or is grafted into the selected slot, is selected at slot 0 with removal enabled, and the mesh is rebuilt |
| Editor.RoadEditor.DisableRemove | Assets/Scripts/RoadCreatorUI.cs:344-348 | with nothing selected only the remove button is disabled, and the editor stays consistent |
| Editor.RoadEditor.ClearRoad | Assets/Scripts/RoadCreatorUI.cs:349-355 | the start node and the selection become null, the slot index 0, removal disabled |
| Editor.RoadEditor.Detach | Assets/Scripts/RoadCreatorUI.cs:356-370 | the selected node is cut off its parent and left without a parent; the parent becomes the selection at the freed slot, now null |
| Editor.RoadEditor.RemoveStart | Assets/Scripts/RoadCreatorUI.cs:349-373 | removing the start node empties the road even when it has children, disables removal, and rebuilds an empty mesh |
| Editor.RoadEditor.RemoveBelow | Assets/Scripts/RoadCreatorUI.cs:356-373 | removing any other node prunes it and clears its parent, selects its parent at the freed slot, and rebuilds the mesh; of the removed node only `parent` may change, and the enabled flag is outside its frame |
| Editor.RoadEditor.RemoveSegment | Assets/Scripts/RoadCreatorUI.cs:342-374 | with nothing selected only removal is disabled; the start node clears the road; any other node is cut off, its parent cleared, with its old parent selected at the freed slot and the enabled flag kept; then the mesh is rebuilt; of the selected node only `parent` may change |

## Left out

- Quaternion and trigonometric geometry is taken as given. This covers a segment's end
  point, an intersection's side centres and their yaws, a corner's arc and end yaw,
  `GetPosition`, `GetTangent`, `GetNormal` and `GetRotation`. Constructors take these
  values as arguments (`Derived` in the editor), and vertices are symbolic.
- Segments.Node.Clone: the clone copies the stored end point and derived values. The
  source recomputes them from the copied parameters. For a node never shrunk, this gives
  the same values up to floating-point rounding. After `ShrinkEndPoint` or
  `ShrinkStartPoint` the recomputed end point (and an intersection's side centres) would
  differ. No code in the repository calls `Shrink*`.
- Floating point is not modelled. Floats are exact reals, so rounding, infinities, NaN
  and the absorption of huge angles in `ClampAngle` are not represented.
- The moved start and end points in `ShrinkStartPoint` and `ShrinkEndPoint` are not
  modelled. They need a normalised vector (a square root). Only the length update is
  modelled.
- Unity glue is left out because it is I/O:
  - `Mesh` and `MeshFilter`, and the bounds and normals recalculation;
  - input parsing;
  - buttons, sliders and colours;
  - instantiating and destroying selection markers, and their positions;
  - `Debug.DrawLine`;
  - the camera and the selection-point component.
- The Bezier smoothing splice is not modelled because the code does not implement it.
  Its branches are empty.
- The unused `miu` argument of the editor's constructor calls is dropped.
- MeshCreation.MeshCreator.CopyRoad: the source's outer `while` loop over the queue is
  modelled as the tail-recursive `CopyRest`. Each call processes the clone at the head
  of the queue and recurses on the rest, which is the same breadth-first order.
- Editor.RoadEditor.RemoveSegment: the source's test for a null parent, before calling
  `RemoveChild`, always passes in the model, because every node of a road except the start
  node has a parent (`RoadTree.HasParent`). The branch that selects a null parent at index
  0 cannot be reached from a consistent editor, so it is not modelled.
- Editor.RoadEditor.AddSegment: the contract states that the new node is in the road and
  that the road is the graft. It does not state the exact growth of the node set. That
  growth follows from `RoadTree.GraftNodesExact`, which is proved separately.
- Editor.RoadEditor.AddSegment requires a consistent editor. `AddNode`'s own failure paths
  (an index out of range, or overwriting an occupied slot) are never reached from that
  state, so the editor model does not take them.
- MeshCreation.MeshCreator.GenerateSmoothRoad: its contract names the nodes it dequeues
  through a ghost result. That it changes nothing follows from it having no modifies
  clause.
- Segments.Node.InsertNode requires that the inserted node is not the node itself and does
  not share its children array. This excludes aliasing that the source does not guard
  against.
- Bezier.GetPoint and Bezier.RawTangent require at least four control points. On a
  shorter array the source raises an index-out-of-range error, and this path is not
  modelled. No caller in the repository passes fewer than four points.
- Segments.Node.RemoveChild takes a non-null node. `RemoveChild(null)` in the source
  dereferences the first empty slot it meets and raises a null reference. This path is not
  modelled because no caller passes null.
- Segments.Node.GenerateStrip requires a subdivision of at least 1. At 0 the source
  divides by zero and yields two NaN vertices and no triangles. This path is not modelled
  because every caller clamps the subdivision to at least 2 first
  (`MeshCreation.SubdivisionClamped`).
