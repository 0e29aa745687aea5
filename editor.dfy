/** The road editor of Assets/Scripts/RoadCreatorUI.cs: which node is selected, which of
    its slots the next segment goes into, whether removal is enabled, and the selection
    points offered at the open ends of the road. Adding a segment hangs a new node in the
    selected slot (or starts the road), removing cuts the selected node off its parent
    (or clears the road), and picking a selection point selects its slot.

    The values the source parses from input fields arrive as a `SegmentInput`; the points
    and yaws the segment constructors compute by trigonometry from the chosen start point
    and yaw arrive as a `Derived`. Markers, colours and buttons are not modelled beyond the
    enabled flag of the remove button. */
module Editor {
  import opened Bezier
  import opened Segments
  import opened RoadTree
  import opened MeshCreation

  /** A selection point: slot `index` of `node`, offered for the next segment. */
  datatype SelectionPoint = SelectionPoint(node: Node, index: int)

  /** The width, length, pitch, roll, angle and radius typed into the editor. */
  datatype SegmentInput = SegmentInput(width: real, length: real, pitch: real, roll: real,
                                       angle: real, radius: real)

  /** What the constructors derive from the start point and yaw: the end point, a corner's
      end yaw, and an intersection's side centres with the yaws of their rotations. */
  datatype Derived = Derived(endPoint: Vec3, endYaw: real, centerLeft: Vec3, centerRight: Vec3,
                             centerLeftYaw: real, centerRightYaw: real)

  /** The subdivision the editor asks for when it rebuilds the raw mesh. */
  const RawSubdivision: int := 10

  /** The kind of node AddSegment builds: an intersection when asked for one, otherwise a
      corner exactly when the angle is non-zero and the radius positive, else a straight
      segment. It never builds a Smooth node. */
  function NewKind(isAddIntersection: bool, angle: real, radius: real): (k: SegmentType)
    ensures k == Intersection <==> isAddIntersection
    ensures k == Corner <==> !isAddIntersection && angle != 0.0 && radius > 0.0
    ensures k == Straight <==> !isAddIntersection && (angle == 0.0 || radius <= 0.0)
    ensures k != Smooth
  {
    if isAddIntersection then Intersection
    else if angle != 0.0 && radius > 0.0 then Corner
    else Straight
  }

  /** Where a segment hung below `sel` at slot `index` starts, and its yaw: below an
      intersection, the end point for the centre slot and the side centre for a side slot,
      each with its rotation's yaw (a slot number outside these keeps the end point and a
      zero yaw); below a corner, its end point and end yaw; below any other node, its end
      point and yaw. */
  function StartFrame(sel: Node, index: int): (Vec3, real)
    reads sel
  {
    if sel.kind == Intersection then
      if index == IndexCenter then (sel.endPoint, sel.yaw)
      else if index == IndexCenterLeft then (sel.centerLeft, sel.centerLeftYaw)
      else if index == IndexCenterRight then (sel.centerRight, sel.centerRightYaw)
      else (sel.endPoint, 0.0)
    else if sel.kind == Corner then (sel.endPoint, sel.endYaw)
    else (sel.endPoint, sel.yaw)
  }

  /** An empty slot of a node: what a selection point must name. */
  ghost predicate OpenSlot(n: Node, index: int)
    reads n.children
  {
    0 <= index < n.children.Length && n.children[index] == null
  }

  /** The points of a sequence, as a set. */
  ghost function PointSet(points: seq<SelectionPoint>): set<SelectionPoint> {
    set pt | pt in points
  }

  /** No point is shown twice. */
  ghost predicate Distinct(points: seq<SelectionPoint>) {
    forall a, b | 0 <= a < b < |points| :: points[a] != points[b]
  }

  /** The free slots of a set of nodes, as selection points. */
  ghost function FreeSlots(ns: set<Node>): set<SelectionPoint>
    reads set n | n in ns :: n.children
  {
    set n, j | n in ns && 0 <= j < n.children.Length && n.children[j] == null :: SelectionPoint(n, j)
  }

  /** The selection points for the open ends of a road: one per free slot of its nodes,
      each once. */
  ghost predicate PointsOfRoad(points: seq<SelectionPoint>, road: Slot)
    reads SlotRepr(road)
  {
    PointSet(points) == FreeSlots(SlotNodes(road)) && Distinct(points)
  }

  /** A consistent editor over a road with root `start` described by `road`: a selected
      node is a node of the road whose selected slot is empty, and the selection points
      are those of the road. */
  ghost predicate EditorState(start: Node?, road: Slot, selected: Node?, childIndex: int,
                              points: seq<SelectionPoint>)
    reads SlotRepr(road)
  {
    && SlotRepresents(start, road)
    && (selected != null ==> selected in SlotNodes(road) && OpenSlot(selected, childIndex))
    && PointsOfRoad(points, road)
  }

  /** Picking any displayed selection point keeps the editor consistent. */
  lemma SelectKeeps(start: Node?, road: Slot, selected: Node?, childIndex: int,
                    points: seq<SelectionPoint>, point: SelectionPoint)
    requires EditorState(start, road, selected, childIndex, points) && point in points
    ensures EditorState(start, road, point.node, point.index, points)
  {
    assert point in PointSet(points);
  }

  datatype Option<T> = None | Some(value: T)

  /** makeIntersectionSelectionPoint(node, index): the point for slot `index` of an
      intersection, or none when a segment already hangs there. */
  function IntersectionPoint(n: Node, index: int): (r: Option<SelectionPoint>)
    requires 0 <= index < n.children.Length
    reads n.children
    ensures r.Some? <==> OpenSlot(n, index)
    ensures r.Some? ==> r.value.node == n && r.value.index == index
  {
    if n.children[index] != null then None else Some(SelectionPoint(n, index))
  }

  /** The points CreateSelectionPoints makes for one end-point node: one per free slot of
      an intersection, tried in the order centre, left, right; slot 0 of any other node,
      which, having one slot and a free one, has slot 0 free. */
  method NodePoints(n: Node) returns (ps: seq<SelectionPoint>)
    requires n.children.Length == Arity(n.kind) && HasOpenSlot(n)
    ensures PointSet(ps) == FreeSlots({n}) && Distinct(ps)
    ensures forall k | 0 <= k < |ps| :: ps[k].node == n
  {
    if n.kind == Intersection {
      ps := [];
      var p := IntersectionPoint(n, IndexCenter);
      if p.Some? { ps := ps + [p.value]; }
      p := IntersectionPoint(n, IndexCenterLeft);
      if p.Some? { ps := ps + [p.value]; }
      p := IntersectionPoint(n, IndexCenterRight);
      if p.Some? { ps := ps + [p.value]; }
    } else {
      ps := [SelectionPoint(n, DefaultChildIndex)];
    }
    forall pt | pt in FreeSlots({n}) ensures pt in ps {
      var j := pt.index;
      assert pt == SelectionPoint(n, j) && 0 <= j < n.children.Length && n.children[j] == null;
      if n.kind == Intersection {
        assert j == IndexCenter || j == IndexCenterLeft || j == IndexCenterRight;
      } else {
        assert j == 0 && ps[0] == pt;
      }
    }
  }

  /** The free slots of two sets of nodes together. */
  lemma FreeSlotsUnion(a: set<Node>, b: set<Node>)
    ensures FreeSlots(a + b) == FreeSlots(a) + FreeSlots(b)
  {
    forall pt | pt in FreeSlots(a + b) ensures pt in FreeSlots(a) + FreeSlots(b) {
      assert pt.node in a || pt.node in b;
    }
  }

  /** The points of two sequences together. */
  lemma PointSetConcat(a: seq<SelectionPoint>, b: seq<SelectionPoint>)
    ensures PointSet(a + b) == PointSet(a) + PointSet(b)
  {
  }

  /** The loop of CreateSelectionPoints over the end-point nodes: the points made are
      exactly the free slots of those nodes, each once. */
  method CollectSelectionPoints(nodes: seq<Node>) returns (pts: seq<SelectionPoint>)
    requires NoDup(nodes)
    requires forall m | 0 <= m < |nodes| :: nodes[m].children.Length == Arity(nodes[m].kind) && HasOpenSlot(nodes[m])
    ensures PointSet(pts) == FreeSlots(Elems(nodes)) && Distinct(pts)
  {
    pts := [];
    var i := 0;
    while i < |nodes|
      invariant 0 <= i <= |nodes|
      invariant PointSet(pts) == FreeSlots(Elems(nodes[..i])) && Distinct(pts)
      invariant forall k | 0 <= k < |pts| :: pts[k].node in nodes[..i]
    {
      var ps := NodePoints(nodes[i]);
      assert nodes[i] !in nodes[..i];
      assert Elems(nodes[..i + 1]) == Elems(nodes[..i]) + {nodes[i]};
      assert nodes[..i + 1] == nodes[..i] + [nodes[i]];
      FreeSlotsUnion(Elems(nodes[..i]), {nodes[i]});
      PointSetConcat(pts, ps);
      pts := pts + ps;
      i := i + 1;
    }
    assert nodes[..i] == nodes;
  }

  /** The end-point nodes, the nodes of the road with a free slot, have the free slots of
      the whole road. */
  lemma EndsFreeSlots(road: Slot, nodes: seq<Node>)
    requires forall n :: n in nodes <==> n in SlotNodes(road) && HasOpenSlot(n)
    ensures FreeSlots(Elems(nodes)) == FreeSlots(SlotNodes(road))
  {
    forall pt | pt in FreeSlots(SlotNodes(road)) ensures pt in FreeSlots(Elems(nodes)) {
      assert HasOpenSlot(pt.node);
    }
  }

  /** AddNode on a free slot of a node of a road: a detached node not yet in the road
      becomes a leaf of it in that slot. */
  method HangIn(ghost t: Tree, p: Node, i: int, n: Node, e: RoadEditor) returns (ghost g: Tree)
    requires Represents(t) && p in Nodes(t) && 0 <= i < p.children.Length && p.children[i] == null
    requires n.Detached() && n !in Repr(t) && n.children !in Repr(t)
    modifies p.children, n`parent
    ensures g == Graft(t, p, i, Leaf(n)) && Represents(g) && n in Nodes(g)
    ensures n.parent == p && n.children[..] == old(n.children[..]) && unchanged(e, e.creator)
  {
    g := Graft(t, p, i, Leaf(n));
    ReprAllocated(t);
    var r := p.AddNode(n, i);
    GraftRepresents(t, p, i, n);
  }

  /** What cutting `x` off a road `t` leaves: the road is `t` pruned at `x`, which with
      everything below it is gone (CutNodes), `x` has no parent (`xParent` is its parent
      after the cut), and the selection is the parent whose slot `index` held `x` (`kids`
      being that parent's slots before the cut). */
  ghost predicate CutFrom(t: Tree, x: Node, xParent: Node?, kids: seq<Node?>, road: Slot, parent: Node?, index: int) {
    && road.Full? && road.tree == Prune(t, x) && xParent == null
    && x !in Nodes(road.tree) && Nodes(road.tree) <= Nodes(t)
    && parent != null && |kids| == parent.children.Length
    && 0 <= index < |kids| && kids[index] == x
  }

  /** After a cut the road has exactly the nodes of the old road that were not below the
      node cut off. */
  lemma CutNodes(t: Tree, x: Node, xParent: Node?, kids: seq<Node?>, road: Slot, parent: Node?, index: int)
    requires Unique(t) && x != t.node && x in Nodes(t)
    requires CutFrom(t, x, xParent, kids, road, parent, index)
    ensures x in Below(t, x) && Nodes(road.tree) == Nodes(t) - Below(t, x)
  {
    PruneNodesExact(t, x);
  }

  /** RemoveChild on the parent of a node of a road: the node, with everything below it,
      leaves the road, and the slot that held it is freed. */
  method CutOff(ghost t: Tree, p: Node, x: Node) returns (index: int)
    requires Represents(t) && x in Nodes(t) && x != t.node
    requires p == x.parent && p in Nodes(t)
    requires exists j :: 0 <= j < p.children.Length && p.children[j] == x
    modifies x`parent, p.children
    ensures Represents(Prune(t, x))
    ensures x !in Nodes(Prune(t, x)) && p in Nodes(Prune(t, x)) && Nodes(Prune(t, x)) <= Nodes(t)
    ensures x.parent == null
    ensures 0 <= index < p.children.Length && old(p.children[index]) == x
    ensures p.children[..] == old(p.children[..])[index := null]
  {
    index := p.RemoveChild(x);
    PruneRepresents(t, x, p, index);
  }

  /** The new node: the kind NewKind picks, detached, with the start point and yaw given
      and the typed and derived values in the fields its kind has. */
  method MakeSegment(isAddIntersection: bool, input: SegmentInput, derived: Derived, start: Vec3, yaw: real)
    returns (n: Node)
    ensures fresh(n) && fresh(n.children) && n.Detached()
    ensures n.kind == NewKind(isAddIntersection, input.angle, input.radius)
    ensures n.startPoint == start && n.yaw == yaw && n.width == input.width
    ensures n.endPoint == derived.endPoint
  {
    if isAddIntersection {
      n := new Node.IntersectionSegment(input.width, start, input.length, input.pitch, input.roll, yaw,
                                        derived.endPoint, derived.centerLeft, derived.centerRight,
                                        derived.centerLeftYaw, derived.centerRightYaw);
    } else if input.angle != 0.0 && input.radius > 0.0 {
      n := new Node.CornerSegment(input.width, start, input.pitch, yaw, input.roll, input.angle,
                                  input.radius, derived.endPoint, derived.endYaw);
    } else {
      n := new Node.StraightSegment(input.width, start, input.length, input.pitch, input.roll, yaw,
                                    derived.endPoint);
    }
  }

  /** RoadCreatorUI: the creator whose road is edited, the selected node and slot, the
      enabled flag of the remove button, and the selection points on display. The ghost
      `road` describes the creator's road. */
  class RoadEditor {
    const creator: MeshCreator
    var selected: Node?
    var childIndex: int
    var removeEnabled: bool
    var points: seq<SelectionPoint>
    ghost var road: Slot

    /** The editor's invariant: `road` describes the creator's road, and the selection and
        the selection points agree with it (EditorState). */
    ghost predicate Valid()
      reads this`road, this`selected, this`childIndex, this`points, creator`startNode, SlotRepr(road)
    {
      EditorState(creator.startNode, road, selected, childIndex, points)
    }

    /** The editor stays consistent while neither it, its creator nor the road changes. */
    twostate lemma ValidKept()
      requires old(allocated(SlotRepr(road))) && old(Valid())
      requires unchanged(this, creator) && unchanged(SlotRepr(road))
      ensures Valid()
    {
      if road.Full? { RepresentsKept(road.tree); }
    }

    /** A new editor over a creator with no road: nothing selected, removal disabled. */
    constructor (creator: MeshCreator)
      requires creator.startNode == null
      ensures Valid() && this.creator == creator && road == Empty
      ensures selected == null && childIndex == DefaultChildIndex && !removeEnabled && points == []
    {
      this.creator := creator;
      selected := null;
      childIndex := DefaultChildIndex;
      removeEnabled := false;
      points := [];
      road := Empty;
    }

    /** OnSelectionPointSelected(point): select the point's node and slot. Only a point on
        display can be picked. */
    method Select(point: SelectionPoint)
      requires Valid() && point in points
      modifies this`selected, this`childIndex
      ensures Valid() && selected == point.node && childIndex == point.index
    {
      SelectKeeps(creator.startNode, road, selected, childIndex, points, point);
      selected := point.node;
      childIndex := point.index;
      if road.Full? { RepresentsKept(road.tree); }
    }

    /** CreateSelectionPoints(): one point for each free slot of the road's end-point nodes
        (GetEndPointSegments), replacing the points shown before. */
    method CreateSelectionPoints()
      requires SlotRepresents(creator.startNode, road)
      modifies this`points
      ensures PointsOfRoad(points, road) && SlotRepresents(creator.startNode, road)
    {
      var pts := SelectionPointsOf(road);
      if road.Full? { ReprAllocated(road.tree); }
      points := pts;
      if road.Full? { RepresentsKept(road.tree); }
    }

    /** The points CreateSelectionPoints shows for `road`: those made for the nodes
        GetEndPointSegments returns. */
    method SelectionPointsOf(ghost road: Slot) returns (pts: seq<SelectionPoint>)
      requires SlotRepresents(creator.startNode, road)
      ensures PointsOfRoad(pts, road)
    {
      if road.Full? { LinkedClosed(road.tree); ReprAllocated(road.tree); }
      var nodes := creator.GetEndPointSegments(road);
      EndsFreeSlots(road, nodes);
      ghost var want := FreeSlots(SlotNodes(road));
      ghost var ends := FreeSlots(Elems(nodes));
      pts := CollectSelectionPoints(nodes);
      assert FreeSlots(Elems(nodes)) == ends;
      assert FreeSlots(SlotNodes(road)) == want;
    }

    /** GenerateRawMesh() with the editor's subdivision, then CreateSelectionPoints(): how
        every edit ends. */
    method Refresh()
      requires SlotRepresents(creator.startNode, road)
      requires selected != null ==> selected in SlotNodes(road) && OpenSlot(selected, childIndex)
      modifies creator`mesh, this`points
      ensures Valid()
      ensures creator.mesh == Aggregate(SlotPreorder(road), Subdivision(RawSubdivision), MeshData([], []))
    {
      creator.GenerateRawMesh(RawSubdivision, road);
      if road.Full? { RepresentsKept(road.tree); }
      CreateSelectionPoints();
    }

    /** The branch of AddSegment for an empty road: the new node becomes the start node and
        is selected, with slot `next`. */
    method StartRoad(n: Node, next: int)
      requires Valid() && road.Empty? && n.Detached() && 0 <= next < n.children.Length
      modifies this`road, this`selected, this`childIndex, this`removeEnabled, creator`startNode
      ensures road == Full(Leaf(n)) && SlotRepresents(creator.startNode, road) && SlotNodes(road) == {n}
      ensures selected == n && childIndex == next && OpenSlot(n, next) && removeEnabled
    {
      LeafRepresents(n);
      creator.startNode := n;
      road := Full(Leaf(n));
      selected, childIndex, removeEnabled := n, next, true;
      RepresentsKept(Leaf(n));
    }

    /** The branch of AddSegment for a road that has a selected node: AddNode hangs the new
        node in the selected slot, and the new node is selected, with slot `next`. */
    method Attach(n: Node, next: int)
      requires road.Full? && Represents(road.tree) && creator.startNode == road.tree.node
      requires selected != null && selected in Nodes(road.tree) && OpenSlot(selected, childIndex)
      requires n.Detached() && 0 <= next < n.children.Length
      requires n !in Repr(road.tree) && n.children !in Repr(road.tree)
      modifies selected.children, n`parent, this`road, this`selected, this`childIndex, this`removeEnabled
      ensures road.Full? && road.tree == Graft(old(road).tree, old(selected), old(childIndex), Leaf(n))
      ensures SlotRepresents(creator.startNode, road) && n in SlotNodes(road)
      ensures n.parent == old(selected)
      ensures selected == n && childIndex == next && OpenSlot(n, next) && removeEnabled
    {
      ghost var g := HangIn(road.tree, selected, childIndex, n, this);
      Retarget(g, n, next);
    }

    /** Attach's change to the editor itself, once the road is `g`: `n` is selected, with
        slot `next`, and removal is enabled. */
    method Retarget(ghost g: Tree, n: Node, next: int)
      requires Represents(g) && creator.startNode == g.node && n in Nodes(g) && OpenSlot(n, next)
      modifies this`road, this`selected, this`childIndex, this`removeEnabled
      ensures road == Full(g) && SlotRepresents(creator.startNode, road) && n in SlotNodes(road)
      ensures selected == n && childIndex == next && OpenSlot(n, next) && removeEnabled
    {
      assert this !in Repr(g);
      road, selected, childIndex, removeEnabled := Full(g), n, next, true;
      RepresentsKept(g);
    }

    /** The segment AddSegment builds: of the kind NewKind names, starting where StartFrame
        says below the selected slot, or at the origin with yaw 0 on an empty road. */
    method NewSegment(isAddIntersection: bool, input: SegmentInput, derived: Derived) returns (n: Node)
      requires Valid() && (selected != null || creator.startNode == null)
      ensures Valid() && fresh(n) && fresh(n.children) && n.Detached()
      ensures n !in SlotRepr(road) && n.children !in SlotRepr(road)
      ensures n.kind == NewKind(isAddIntersection, input.angle, input.radius)
      ensures (n.startPoint, n.yaw) ==
        (if road.Empty? then (Zero, 0.0) else old(StartFrame(selected, childIndex)))
    {
      if road.Full? { ReprAllocated(road.tree); }
      var frame := if creator.startNode == null then (Zero, 0.0) else StartFrame(selected, childIndex);
      n := MakeSegment(isAddIntersection, input, derived, frame.0, frame.1);
      ValidKept();
    }

    /** AddSegment(isAddIntersection): unless a road exists and nothing is selected, build
        the segment NewKind names, starting where StartFrame says (at the origin with yaw 0
        on an empty road), hang it in the selected slot or make it the start node, select it
        with slot 0, rebuild the raw mesh and the selection points, and enable removal. */
    method AddSegment(isAddIntersection: bool, input: SegmentInput, derived: Derived)
      requires Valid()
      modifies this, creator, if selected != null then {selected.children} else {}
      ensures Valid()
      ensures old(selected) == null && old(creator.startNode) != null ==>
        && road == old(road) && selected == null && childIndex == old(childIndex)
        && removeEnabled == old(removeEnabled) && points == old(points) && creator.mesh == old(creator.mesh)
      ensures old(selected) != null || old(creator.startNode) == null ==>
        && selected != null && fresh(selected) && fresh(selected.children)
        && selected.kind == NewKind(isAddIntersection, input.angle, input.radius)
        && (selected.startPoint, selected.yaw) ==
           (if old(road).Empty? then (Zero, 0.0) else old(StartFrame(selected, childIndex)))
        && road.Full?
        && road.tree == (if old(road).Empty? then Leaf(selected)
                         else Graft(old(road).tree, old(selected), old(childIndex), Leaf(selected)))
        && selected in SlotNodes(road)
        && childIndex == DefaultChildIndex && removeEnabled
        && creator.mesh == Aggregate(SlotPreorder(road), Subdivision(RawSubdivision), MeshData([], []))
    {
      if selected == null && creator.startNode != null {
        return;
      }
      Grow(isAddIntersection, input, derived);
    }

    /** AddSegment past its guard: the new segment starts the road or hangs in the
        selected slot, and the editor is refreshed. */
    method Grow(isAddIntersection: bool, input: SegmentInput, derived: Derived)
      requires Valid() && (selected != null || creator.startNode == null)
      modifies this`road, this`selected, this`childIndex, this`removeEnabled, this`points
      modifies creator`startNode, creator`mesh, if selected != null then {selected.children} else {}
      ensures Valid()
      ensures selected != null && fresh(selected) && fresh(selected.children)
      ensures selected.kind == NewKind(isAddIntersection, input.angle, input.radius)
      ensures (selected.startPoint, selected.yaw) ==
        (if old(road).Empty? then (Zero, 0.0) else old(StartFrame(selected, childIndex)))
      ensures road.Full?
      ensures road.tree == (if old(road).Empty? then Leaf(selected)
                            else Graft(old(road).tree, old(selected), old(childIndex), Leaf(selected)))
      ensures selected in SlotNodes(road)
      ensures childIndex == DefaultChildIndex && removeEnabled
      ensures creator.mesh == Aggregate(SlotPreorder(road), Subdivision(RawSubdivision), MeshData([], []))
    {
      var n := NewSegment(isAddIntersection, input, derived);
      // Both constants are 0, the first slot of any kind.
      var next := if isAddIntersection then IndexCenter else DefaultChildIndex;
      if creator.startNode == null {
        StartRoad(n, next);
      } else {
        Attach(n, next);
      }
      Refresh();
    }

    /** The branch of OnRemoveSegmentClicked for the start node: the road becomes empty,
        nothing is selected and removal is disabled. */
    method ClearRoad()
      requires Valid() && selected != null && selected == creator.startNode
      modifies this`road, this`selected, this`childIndex, this`removeEnabled, creator`startNode
      ensures creator.startNode == null && road == Empty
      ensures selected == null && childIndex == DefaultChildIndex && !removeEnabled
    {
      creator.startNode := null;
      road := Empty;
      selected, childIndex, removeEnabled := null, DefaultChildIndex, false;
    }

    /** The branch of OnRemoveSegmentClicked for any other node: RemoveChild cuts the
        selected node, with everything below it, out of its parent `p`, and the parent is
        selected with the slot that was freed. */
    method Detach(p: Node)
      requires road.Full? && Represents(road.tree) && creator.startNode == road.tree.node
      requires selected != null && selected in SlotNodes(road) && selected != road.tree.node
      requires p == selected.parent && p in SlotNodes(road)
      requires exists j :: 0 <= j < p.children.Length && p.children[j] == selected
      modifies selected`parent, p.children, this`road, this`selected, this`childIndex
      ensures CutFrom(old(road).tree, old(selected), old(selected).parent, old(p.children[..]), road, selected, childIndex)
      ensures SlotRepresents(creator.startNode, road)
      ensures selected == p && selected in SlotNodes(road) && OpenSlot(p, childIndex)
      ensures p.children[..] == old(p.children[..])[childIndex := null]
    {
      var x := selected;
      ghost var t := road.tree;
      var index := CutOff(t, p, x);
      label Cut:
      road := Full(Prune(t, x));
      selected, childIndex := p, index;
      RepresentsKept@Cut(Prune(t, x));
    }

    /** OnRemoveSegmentClicked(): with nothing selected only removal is disabled. The start
        node empties the road (ClearRoad); any other node is cut off its parent, which is
        selected at the freed slot (Detach). Then the raw mesh and the selection points are
        rebuilt. */
    method RemoveSegment()
      requires Valid()
      modifies this, creator
      modifies (if selected != null then {selected} else {})`parent
      modifies if selected != null && selected.parent != null then {selected.parent.children} else {}
      ensures Valid()
      ensures old(selected) == null ==>
        && !removeEnabled && road == old(road) && selected == null && childIndex == old(childIndex)
        && points == old(points) && creator.mesh == old(creator.mesh)
      ensures old(selected) != null && old(selected) == old(creator.startNode) ==>
        && road == Empty && selected == null && childIndex == DefaultChildIndex && !removeEnabled
      ensures old(selected) != null && old(selected) != old(creator.startNode) ==>
        && old(road).Full? && old(selected.parent) != null
        && CutFrom(old(road).tree, old(selected), old(selected).parent, old(selected.parent.children[..]), road, selected, childIndex)
        && selected == old(selected.parent) && removeEnabled == old(removeEnabled)
      ensures old(selected) != null ==>
        creator.mesh == Aggregate(SlotPreorder(road), Subdivision(RawSubdivision), MeshData([], []))
    {
      if selected == null {
        DisableRemove();
      } else if selected == creator.startNode {
        RemoveStart();
      } else {
        RemoveBelow();
      }
    }

    /** The branch of OnRemoveSegmentClicked with nothing selected: only the remove button
        is disabled. */
    method DisableRemove()
      requires Valid()
      modifies this`removeEnabled
      ensures Valid() && !removeEnabled
    {
      removeEnabled := false;
      if road.Full? { RepresentsKept(road.tree); }
    }

    /** RemoveSegment on the start node: the road becomes empty, and so do the raw mesh and
        the selection points. */
    method RemoveStart()
      requires Valid() && selected != null && selected == creator.startNode
      modifies this, creator
      ensures Valid()
      ensures road == Empty && selected == null && childIndex == DefaultChildIndex && !removeEnabled
      ensures creator.mesh == Aggregate(SlotPreorder(road), Subdivision(RawSubdivision), MeshData([], []))
    {
      ClearRoad();
      Refresh();
    }

    /** RemoveSegment on any other node: Detach, then the raw mesh and the selection points
        are rebuilt. */
    method RemoveBelow()
      requires Valid() && selected != null && selected != creator.startNode
      modifies this`road, this`selected, this`childIndex, this`points, creator`mesh, selected`parent
      modifies if selected.parent != null then {selected.parent.children} else {}
      ensures Valid()
      ensures old(road).Full? && old(selected.parent) != null
      ensures CutFrom(old(road).tree, old(selected), old(selected).parent, old(selected.parent.children[..]), road, selected, childIndex)
      ensures selected == old(selected.parent)
      ensures creator.mesh == Aggregate(SlotPreorder(road), Subdivision(RawSubdivision), MeshData([], []))
    {
      // The start node is handled by RemoveStart, and every other node of the road hangs
      // in a slot of its parent, so the source's test for a null parent always passes here.
      HasParent(road.tree, selected);
      Detach(selected.parent);
      Refresh();
    }
  }
}
