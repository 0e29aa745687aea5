/** The traversals of Assets/Scripts/RoadMeshCreator.cs over the road tree: the depth-first
    mesh aggregation, the collection of segments with an open slot, the breadth-first deep
    copy, the (empty) smoothing pass, and the pitch/roll comparison.

    Each traversal is a method over the heap, given a ghost `Slot` that describes the tree
    below the node it starts from; it is proved against a specification function on that
    description, and what the source promises is proved about the function. */
module MeshCreation {
  import opened Segments
  import opened RoadTree
  import opened RoadCopy

  /** int.MaxValue */
  const IntMax: int := 0x7fff_ffff

  /** Mathf.Clamp(value, min, max) on ints. */
  function ClampInt(value: int, min: int, max: int): int {
    if value < min then min else if value > max then max else value
  }

  /** Mathf.Clamp(value, min, max) on floats. */
  function ClampReal(value: real, min: real, max: real): real {
    if value < min then min else if value > max then max else value
  }

  /** The subdivision the creator actually uses: at least 2. */
  function Subdivision(requested: int): int {
    ClampInt(requested, 2, IntMax)
  }

  /** The smoothing fraction GenerateSmoothRoadMesh actually uses. */
  function SmoothFraction(requested: real): real {
    ClampReal(requested, 0.0, 0.5)
  }

  /** The subdivision is at least 2, a request of at least 2 (that fits an int) is kept, and
      clamping twice is clamping once. */
  lemma SubdivisionClamped(requested: int)
    ensures 2 <= Subdivision(requested) <= IntMax
    ensures 2 <= requested <= IntMax ==> Subdivision(requested) == requested
    ensures requested < 2 ==> Subdivision(requested) == 2
    ensures Subdivision(Subdivision(requested)) == Subdivision(requested)
  {
  }

  /** The smoothing fraction lies in [0, 0.5], a fraction already there is kept, and
      clamping twice is clamping once. */
  lemma SmoothFractionClamped(requested: real)
    ensures 0.0 <= SmoothFraction(requested) <= 0.5
    ensures 0.0 <= requested <= 0.5 ==> SmoothFraction(requested) == requested
    ensures requested < 0.0 ==> SmoothFraction(requested) == 0.0
    ensures requested > 0.5 ==> SmoothFraction(requested) == 0.5
    ensures SmoothFraction(SmoothFraction(requested)) == SmoothFraction(requested)
  {
  }

  // ---------------------------------------------------------------------------------
  // Depth-first aggregation (RoadMeshCreator.GenerateMesh)

  /** The nodes of a tree in depth-first pre-order, children in slot order. */
  ghost function Preorder(t: Tree): seq<Node>
    decreases t, 1
  {
    [t.node] + SlotsPreorder(t, 0)
  }

  /** The pre-orders of the subtrees in slots i, i + 1, ... of the root, concatenated. */
  ghost function SlotsPreorder(t: Tree, i: nat): seq<Node>
    decreases t, 0, |t.slots| - i
  {
    if i >= |t.slots| then []
    else (if t.slots[i].Full? then Preorder(t.slots[i].tree) else []) + SlotsPreorder(t, i + 1)
  }

  /** The pre-order of what a slot holds: nothing for an empty slot. */
  ghost function SlotPreorder(s: Slot): seq<Node> {
    if s.Empty? then [] else Preorder(s.tree)
  }

  /** The nodes of the subtrees in slots i, i + 1, ... of the root. */
  ghost function NodesFrom(t: Tree, i: nat): set<Node> {
    set j, n | i <= j < |t.slots| && t.slots[j].Full? && n in Nodes(t.slots[j].tree) :: n
  }

  /** The pre-order lists each node of the tree, and only those. */
  lemma {:induction false} PreorderElems(t: Tree)
    ensures Elems(Preorder(t)) == Nodes(t)
    decreases t, 1
  {
    SlotsPreorderElems(t, 0);
    ElemsConcat([t.node], SlotsPreorder(t, 0));
    NodesSplit(t);
  }

  lemma {:induction false} SlotsPreorderElems(t: Tree, i: nat)
    ensures Elems(SlotsPreorder(t, i)) == NodesFrom(t, i)
    decreases t, 0, |t.slots| - i
  {
    if i < |t.slots| {
      SlotsPreorderElems(t, i + 1);
      NodesFromStep(t, i);
      var rest := SlotsPreorder(t, i + 1);
      if t.slots[i].Full? {
        var head := Preorder(t.slots[i].tree);
        assert SlotsPreorder(t, i) == head + rest;
        ElemsConcat(head, rest);
        PreorderElems(t.slots[i].tree);
      } else {
        assert SlotsPreorder(t, i) == rest;
      }
    } else {
      assert NodesFrom(t, i) == {};
    }
  }

  /** Without repeated nodes in the tree, the pre-order lists each node exactly once. */
  lemma {:induction false} PreorderNoDup(t: Tree)
    requires Unique(t)
    ensures NoDup(Preorder(t))
    decreases t, 1
  {
    SlotsPreorderNoDup(t, 0);
    SlotsPreorderElems(t, 0);
    NodesSplitUnique(t);
    ConcatNoDup([t.node], SlotsPreorder(t, 0));
  }

  lemma {:induction false} SlotsPreorderNoDup(t: Tree, i: nat)
    requires Unique(t)
    ensures NoDup(SlotsPreorder(t, i))
    decreases t, 0, |t.slots| - i
  {
    if i < |t.slots| {
      SlotsPreorderNoDup(t, i + 1);
      var rest := SlotsPreorder(t, i + 1);
      if t.slots[i].Full? {
        var sub := t.slots[i].tree;
        var head := Preorder(sub);
        assert Unique(sub);
        PreorderNoDup(sub);
        PreorderElems(sub);
        SlotsPreorderElems(t, i + 1);
        SlotDisjointFrom(t, i);
        assert Elems(head) !! Elems(rest);
        ConcatNoDup(head, rest);
        assert SlotsPreorder(t, i) == head + rest;
      } else {
        assert SlotsPreorder(t, i) == rest;
      }
    }
  }

  /** The subtree in slot i shares no node with the subtrees in later slots. */
  lemma SlotDisjointFrom(t: Tree, i: nat)
    requires Unique(t) && i < |t.slots| && t.slots[i].Full?
    ensures Nodes(t.slots[i].tree) !! NodesFrom(t, i + 1)
  {
    forall n | n in NodesFrom(t, i + 1) ensures n !in Nodes(t.slots[i].tree) {
      var j :| i + 1 <= j < |t.slots| && t.slots[j].Full? && n in Nodes(t.slots[j].tree);
      assert Nodes(t.slots[i].tree) !! Nodes(t.slots[j].tree);
    }
  }

  /** A tree's nodes are its root and the nodes of its subtrees. */
  lemma NodesSplit(t: Tree)
    ensures Nodes(t) == {t.node} + NodesFrom(t, 0)
  {
  }

  /** Without repeats, the root is in none of its subtrees. */
  lemma NodesSplitUnique(t: Tree)
    requires Unique(t)
    ensures t.node !in NodesFrom(t, 0)
  {
  }

  lemma ElemsConcat(a: seq<Node>, b: seq<Node>)
    ensures Elems(a + b) == Elems(a) + Elems(b)
  {
  }

  lemma NodesFromStep(t: Tree, i: nat)
    requires i < |t.slots|
    ensures NodesFrom(t, i) == (if t.slots[i].Full? then Nodes(t.slots[i].tree) else {}) + NodesFrom(t, i + 1)
  {
    forall n | n in NodesFrom(t, i)
      ensures n in (if t.slots[i].Full? then Nodes(t.slots[i].tree) else {}) + NodesFrom(t, i + 1)
    {
      var j :| i <= j < |t.slots| && t.slots[j].Full? && n in Nodes(t.slots[j].tree);
      if j != i {
        assert n in NodesFrom(t, i + 1);
      }
    }
  }

  /** Two sequences without repeats and without common elements concatenate to one
      without repeats. */
  lemma ConcatNoDup(a: seq<Node>, b: seq<Node>)
    requires NoDup(a) && NoDup(b) && Elems(a) !! Elems(b)
    ensures NoDup(a + b)
  {
    forall i, j | 0 <= i < j < |a + b| ensures (a + b)[i] != (a + b)[j] {
      if i < |a| && j >= |a| {
        assert (a + b)[i] in Elems(a) && (a + b)[j] == b[j - |a|] && b[j - |a|] in Elems(b);
      }
    }
  }

  /** `m` appended to the running mesh. */
  function Append(acc: MeshData, m: MeshData): MeshData {
    MeshData(acc.vertices + m.vertices, acc.triangles + m.triangles)
  }

  /** The mesh after visiting `nodes` in order, each emitting its strip at the running
      vertex count as base index. */
  ghost function Aggregate(nodes: seq<Node>, subdivision: int, acc: MeshData): MeshData
    requires subdivision >= 1
  {
    if |nodes| == 0 then acc
    else Aggregate(nodes[1..], subdivision, Append(acc, NodeMesh(nodes[0], subdivision, |acc.vertices|)))
  }

  /** Visiting `a` and then `b` is visiting `a + b`. */
  lemma {:induction false} AggregateConcat(a: seq<Node>, b: seq<Node>, subdivision: int, acc: MeshData)
    requires subdivision >= 1
    ensures Aggregate(a + b, subdivision, acc) == Aggregate(b, subdivision, Aggregate(a, subdivision, acc))
  {
    if |a| > 0 {
      assert (a + b)[1..] == a[1..] + b;
      AggregateConcat(a[1..], b, subdivision, Append(acc, NodeMesh(a[0], subdivision, |acc.vertices|)));
    } else {
      assert a + b == b;
    }
  }

  /** The number of vertices a node emits: 4 for Straight and Intersection, 2(N + 1)
      otherwise. */
  function VertexCount(kind: SegmentType, subdivision: int): int {
    2 * (Subdivisions(kind, subdivision) + 1)
  }

  /** The total vertex and index counts of a list of nodes. */
  ghost function VertexTotal(nodes: seq<Node>, subdivision: int): int {
    if |nodes| == 0 then 0 else VertexCount(nodes[0].kind, subdivision) + VertexTotal(nodes[1..], subdivision)
  }

  ghost function IndexTotal(nodes: seq<Node>, subdivision: int): int {
    if |nodes| == 0 then 0 else 6 * Subdivisions(nodes[0].kind, subdivision) + IndexTotal(nodes[1..], subdivision)
  }

  /** The aggregate only appends: the running mesh is a prefix of the result, which has
      the per-node vertex and index counts added; the index count stays a multiple of 6;
      and when every index so far addresses a vertex so far, so does every index of the
      result. */
  lemma {:induction false} AggregateShape(nodes: seq<Node>, subdivision: int, acc: MeshData)
    requires subdivision >= 1
    ensures var r := Aggregate(nodes, subdivision, acc);
      && acc.vertices <= r.vertices && acc.triangles <= r.triangles
      && |r.vertices| == |acc.vertices| + VertexTotal(nodes, subdivision)
      && |r.triangles| == |acc.triangles| + IndexTotal(nodes, subdivision)
      && (|acc.triangles| % 6 == 0 ==> |r.triangles| % 6 == 0)
    ensures var r := Aggregate(nodes, subdivision, acc);
      (forall k | 0 <= k < |acc.triangles| :: 0 <= acc.triangles[k] < |acc.vertices|) ==>
      (forall k | 0 <= k < |r.triangles| :: 0 <= r.triangles[k] < |r.vertices|)
  {
    if |nodes| > 0 {
      var n := nodes[0];
      var m := NodeMesh(n, subdivision, |acc.vertices|);
      var acc' := Append(acc, m);
      var sub := Subdivisions(n.kind, subdivision);
      StripIndicesInRange(sub, |acc.vertices|);
      assert |m.vertices| == VertexCount(n.kind, subdivision) && |m.triangles| == 6 * sub;
      if forall k | 0 <= k < |acc.triangles| :: 0 <= acc.triangles[k] < |acc.vertices| {
        forall k | 0 <= k < |acc'.triangles| ensures 0 <= acc'.triangles[k] < |acc'.vertices| {
          if k >= |acc.triangles| {
            assert acc'.triangles[k] == m.triangles[k - |acc.triangles|];
          }
        }
      }
      AggregateShape(nodes[1..], subdivision, acc');
    }
  }

  /** The index list depends on the kinds alone: two lists of nodes of the same kinds,
      visited from meshes with as many vertices and the same indices, give the same index
      list and as many vertices. */
  lemma {:induction false} AggregateIndicesByKinds(a: seq<Node>, b: seq<Node>, subdivision: int,
                                                   accA: MeshData, accB: MeshData)
    requires subdivision >= 1
    requires |a| == |b| && forall k | 0 <= k < |a| :: a[k].kind == b[k].kind
    requires |accA.vertices| == |accB.vertices| && accA.triangles == accB.triangles
    ensures Aggregate(a, subdivision, accA).triangles == Aggregate(b, subdivision, accB).triangles
    ensures |Aggregate(a, subdivision, accA).vertices| == |Aggregate(b, subdivision, accB).vertices|
  {
    if |a| > 0 {
      var mA := NodeMesh(a[0], subdivision, |accA.vertices|);
      var mB := NodeMesh(b[0], subdivision, |accB.vertices|);
      assert mA.triangles == mB.triangles && |mA.vertices| == |mB.vertices|;
      AggregateIndicesByKinds(a[1..], b[1..], subdivision, Append(accA, mA), Append(accB, mB));
    }
  }

  // ---------------------------------------------------------------------------------
  // Segments with an open slot (RoadMeshCreator.GetEndPointSegments)

  /** The list after GetEndPointSegments has looked at slots i, i + 1, ... of the root of
      `t`: an empty slot adds the root unless the list has it, a full slot recurses. */
  ghost function EndPoints(t: Tree, i: nat, acc: seq<Node>): seq<Node>
    decreases t, |t.slots| - i
  {
    if i >= |t.slots| then acc
    else if t.slots[i].Empty? && t.node !in acc then EndPoints(t, i + 1, acc + [t.node])
    else if t.slots[i].Empty? then EndPoints(t, i + 1, acc)
    else EndPoints(t, i + 1, EndPoints(t.slots[i].tree, 0, acc))
  }

  /** EndPoints for what a slot holds: an empty slot leaves the list as it is. */
  ghost function SlotEndPoints(s: Slot, acc: seq<Node>): seq<Node> {
    if s.Empty? then acc else EndPoints(s.tree, 0, acc)
  }

  /** The nodes with an empty slot, found from slot i of the root onwards. */
  ghost function OpenFrom(t: Tree, i: nat): set<Node>
    decreases t, |t.slots| - i
  {
    if i >= |t.slots| then {}
    else if t.slots[i].Empty? then {t.node} + OpenFrom(t, i + 1)
    else OpenFrom(t.slots[i].tree, 0) + OpenFrom(t, i + 1)
  }

  /** The list only grows, adds exactly the nodes with an empty slot, and never adds a node
      it already holds. */
  lemma {:induction false} EndPointsCollect(t: Tree, i: nat, acc: seq<Node>)
    ensures acc <= EndPoints(t, i, acc)
    ensures Elems(EndPoints(t, i, acc)) == Elems(acc) + OpenFrom(t, i)
    ensures NoDup(acc) ==> NoDup(EndPoints(t, i, acc))
    decreases t, |t.slots| - i
  {
    if i < |t.slots| {
      if t.slots[i].Empty? && t.node !in acc {
        var acc' := acc + [t.node];
        EndPointsCollect(t, i + 1, acc');
        assert Elems(acc') == Elems(acc) + {t.node};
        if NoDup(acc) {
          assert NoDup(acc') by {
            forall a, b | 0 <= a < b < |acc'| ensures acc'[a] != acc'[b] {
              if b == |acc| {
                assert acc'[a] == acc[a];
              }
            }
          }
        }
      } else if t.slots[i].Empty? {
        EndPointsCollect(t, i + 1, acc);
      } else {
        var acc' := EndPoints(t.slots[i].tree, 0, acc);
        EndPointsCollect(t.slots[i].tree, 0, acc);
        EndPointsCollect(t, i + 1, acc');
      }
    }
  }

  /** The nodes with an empty slot below what a slot holds. */
  ghost function SlotOpen(s: Slot): set<Node> {
    if s.Empty? then {} else OpenFrom(s.tree, 0)
  }

  /** EndPointsCollect for what a slot holds. */
  lemma SlotEndPointsCollect(s: Slot, acc: seq<Node>)
    ensures acc <= SlotEndPoints(s, acc)
    ensures Elems(SlotEndPoints(s, acc)) == Elems(acc) + SlotOpen(s)
    ensures NoDup(acc) ==> NoDup(SlotEndPoints(s, acc))
  {
    if s.Full? {
      EndPointsCollect(s.tree, 0, acc);
    }
  }

  /** A node has an open slot: one of its children is null. */
  ghost predicate HasOpenSlot(n: Node)
    reads n.children
  {
    exists k :: 0 <= k < n.children.Length && n.children[k] == null
  }

  /** The nodes of a set that have an open slot. */
  ghost function OpenNodes(ns: set<Node>): set<Node>
    reads set n | n in ns :: n.children
  {
    set n | n in ns && HasOpenSlot(n)
  }

  /** Seen from the heap, the nodes found are exactly the nodes of the tree with a null
      child. */
  lemma {:induction false} OpenFromHeap(t: Tree)
    requires forall s | s in Subtrees(t) :: LinkedAt(s)
    ensures OpenFrom(t, 0) == OpenNodes(Nodes(t))
  {
    assert LinkedAt(t);
    forall j | 0 <= j < |t.slots| && t.slots[j].Full?
      ensures OpenFrom(t.slots[j].tree, 0) == OpenNodes(Nodes(t.slots[j].tree))
    {
      OpenFromHeap(t.slots[j].tree);
    }
    OpenFromSlots(t, 0);
    assert Nodes(t) == {t.node} + NodesFrom(t, 0);
  }

  /** OpenFrom from slot i, split into the root (when a slot from i on is empty) and the
      open nodes of the subtrees from slot i on. */
  lemma {:induction false} OpenFromSlots(t: Tree, i: nat)
    requires LinkedAt(t)
    requires forall j | i <= j < |t.slots| && t.slots[j].Full? ::
      OpenFrom(t.slots[j].tree, 0) == OpenNodes(Nodes(t.slots[j].tree))
    ensures OpenFrom(t, i) ==
      (if exists k :: i <= k < |t.slots| && t.node.children[k] == null then {t.node} else {})
      + OpenNodes(NodesFrom(t, i))
    decreases |t.slots| - i
  {
    if i < |t.slots| {
      OpenFromSlots(t, i + 1);
      NodesFromStep(t, i);
      assert t.node.children[i] == SlotNode(t.slots[i]);
      if exists k :: i <= k < |t.slots| && t.node.children[k] == null {
        var k :| i <= k < |t.slots| && t.node.children[k] == null;
        if k != i {
          assert exists k :: i + 1 <= k < |t.slots| && t.node.children[k] == null;
        }
      }
    } else {
      assert NodesFrom(t, i) == {};
    }
  }

  // ---------------------------------------------------------------------------------
  // Pitch and roll (RoadMeshCreator.IsSmoothNeeded, GetPitch, GetRoll)

  /** GetPitch: the pitch of a Straight, Intersection or Corner node, 0 for a Smooth one. */
  function PitchOf(n: Node): (r: real)
    reads n
  {
    if n.kind == Straight || n.kind == Intersection || n.kind == Corner then n.pitch else 0.0
  }

  /** GetRoll: the roll of a Straight, Intersection or Corner node, 0 for a Smooth one. */
  function RollOf(n: Node): (r: real)
    reads n
  {
    if n.kind == Straight || n.kind == Intersection || n.kind == Corner then n.roll else 0.0
  }

  /** IsSmoothNeeded: the two nodes differ in pitch or in roll. */
  function IsSmoothNeeded(a: Node, b: Node): bool
    reads a, b
  {
    PitchOf(a) != PitchOf(b) || RollOf(a) != RollOf(b)
  }

  /** Smoothing is needed exactly when the stored pitches or rolls differ, a Smooth node
      counting as level; two Smooth nodes never need it, and the relation is symmetric and
      irreflexive. */
  lemma IsSmoothNeededIff(a: Node, b: Node)
    ensures a.kind != Smooth && b.kind != Smooth ==>
      (IsSmoothNeeded(a, b) <==> a.pitch != b.pitch || a.roll != b.roll)
    ensures a.kind == Smooth && b.kind != Smooth ==>
      (IsSmoothNeeded(a, b) <==> b.pitch != 0.0 || b.roll != 0.0)
    ensures a.kind == Smooth && b.kind == Smooth ==> !IsSmoothNeeded(a, b)
    ensures IsSmoothNeeded(a, b) == IsSmoothNeeded(b, a)
    ensures !IsSmoothNeeded(a, a)
  {
  }

  /** What GenerateRawMesh and GenerateSmoothRoadMesh promise of the mesh of a road: every
      node contributes once, in pre-order, so the vertex and index counts are the sums of
      the per-node counts; the index count is a multiple of 6; and every index addresses a
      vertex of the mesh. */
  lemma RoadMeshShape(road: Slot, subdivision: int)
    requires subdivision >= 1
    requires road.Full? ==> Unique(road.tree)
    ensures Elems(SlotPreorder(road)) == SlotNodes(road) && NoDup(SlotPreorder(road))
    ensures var m := Aggregate(SlotPreorder(road), subdivision, MeshData([], []));
      && |m.vertices| == VertexTotal(SlotPreorder(road), subdivision)
      && |m.triangles| == IndexTotal(SlotPreorder(road), subdivision)
      && |m.triangles| % 6 == 0
      && forall k | 0 <= k < |m.triangles| :: 0 <= m.triangles[k] < |m.vertices|
  {
    if road.Full? {
      PreorderElems(road.tree);
      PreorderNoDup(road.tree);
    }
    AggregateShape(SlotPreorder(road), subdivision, MeshData([], []));
  }

  /** Two lists of nodes of the same kinds, position by position. */
  ghost predicate SameKinds(a: seq<Node>, b: seq<Node>) {
    |a| == |b| && forall k | 0 <= k < |a| :: a[k].kind == b[k].kind
  }

  lemma SameKindsConcat(a: seq<Node>, b: seq<Node>, c: seq<Node>, d: seq<Node>)
    requires SameKinds(a, c) && SameKinds(b, d)
    ensures SameKinds(a + b, c + d)
  {
    forall k | 0 <= k < |a + b| ensures (a + b)[k].kind == (c + d)[k].kind {
      if k >= |a| {
        assert (a + b)[k] == b[k - |a|] && (c + d)[k] == d[k - |a|];
      }
    }
  }

  /** Trees of the same shape have pre-orders of the same kinds. */
  lemma {:induction false} PreorderKinds(a: Tree, b: Tree)
    requires SameShape(a, b)
    ensures SameKinds(Preorder(a), Preorder(b))
    decreases a, 1
  {
    SlotsPreorderKinds(a, b, 0);
    SameKindsConcat([a.node], SlotsPreorder(a, 0), [b.node], SlotsPreorder(b, 0));
  }

  lemma {:induction false} SlotsPreorderKinds(a: Tree, b: Tree, i: nat)
    requires SameShape(a, b)
    ensures SameKinds(SlotsPreorder(a, i), SlotsPreorder(b, i))
    decreases a, 0, |a.slots| - i
  {
    if i < |a.slots| {
      SlotsPreorderKinds(a, b, i + 1);
      if a.slots[i].Full? {
        PreorderKinds(a.slots[i].tree, b.slots[i].tree);
        SameKindsConcat(Preorder(a.slots[i].tree), SlotsPreorder(a, i + 1),
                        Preorder(b.slots[i].tree), SlotsPreorder(b, i + 1));
      }
    }
  }

  /** The mesh of a road depends on its shape alone as far as indices and the number of
      vertices go: a copy of the same shape, such as CopyRoad's, gives the same index
      list and as many vertices as the road it was copied from. */
  lemma SameShapeSameMesh(a: Tree, b: Tree, subdivision: int)
    requires SameShape(a, b) && subdivision >= 1
    ensures Aggregate(Preorder(a), subdivision, MeshData([], [])).triangles
         == Aggregate(Preorder(b), subdivision, MeshData([], [])).triangles
    ensures |Aggregate(Preorder(a), subdivision, MeshData([], [])).vertices|
         == |Aggregate(Preorder(b), subdivision, MeshData([], [])).vertices|
  {
    PreorderKinds(a, b);
    AggregateIndicesByKinds(Preorder(a), Preorder(b), subdivision, MeshData([], []), MeshData([], []));
  }

  // ---------------------------------------------------------------------------------
  // The smoothing pass (RoadMeshCreator.GenerateSmoothRoad)

  /** The nodes the smoothing pass dequeues from a tree whose root it has queued: the
      root, and, only when the root is a Smooth node, what it dequeues from the trees of
      the root's non-null children. */
  ghost function Walked(t: Tree): set<Node>
    decreases t, 1
  {
    {t.node} + (if t.node.kind == Smooth then WalkedFrom(t, 0) else {})
  }

  /** Walked for the trees in slots i, i + 1, ... of the root. */
  ghost function WalkedFrom(t: Tree, i: nat): set<Node>
    decreases t, 0, |t.slots| - i
  {
    if i >= |t.slots| then {}
    else (if t.slots[i].Full? then Walked(t.slots[i].tree) else {}) + WalkedFrom(t, i + 1)
  }

  /** Walked for each tree of a queue. */
  ghost function WalkedAll(ts: seq<Tree>): set<Node> {
    if |ts| == 0 then {} else Walked(ts[0]) + WalkedAll(ts[1..])
  }

  /** Walked for what a slot holds: nothing for an empty road. */
  ghost function SlotWalked(s: Slot): set<Node> {
    if s.Empty? then {} else Walked(s.tree)
  }

  /** The sizes of the trees of a queue, added up. */
  ghost function QueueSize(ts: seq<Tree>): nat {
    if |ts| == 0 then 0 else |Preorder(ts[0])| + QueueSize(ts[1..])
  }

  lemma {:induction false} WalkedAllAppend(ts: seq<Tree>, t: Tree)
    ensures WalkedAll(ts + [t]) == WalkedAll(ts) + Walked(t)
    ensures QueueSize(ts + [t]) == QueueSize(ts) + |Preorder(t)|
  {
    if |ts| > 0 {
      assert (ts + [t])[1..] == ts[1..] + [t];
      WalkedAllAppend(ts[1..], t);
    }
  }

  /** The pass dequeues the root and only nodes of the road; below a node that is not
      Smooth it dequeues nothing, so a road that starts with a Straight, Corner or
      Intersection node is left after its first node. */
  lemma {:induction false} WalkedWithin(t: Tree)
    ensures t.node in Walked(t) && Walked(t) <= Nodes(t)
    ensures t.node.kind != Smooth ==> Walked(t) == {t.node}
    decreases t, 1
  {
    WalkedFromWithin(t, 0);
  }

  lemma {:induction false} WalkedFromWithin(t: Tree, i: nat)
    ensures WalkedFrom(t, i) <= Nodes(t)
    decreases t, 0, |t.slots| - i
  {
    if i < |t.slots| {
      WalkedFromWithin(t, i + 1);
      if t.slots[i].Full? {
        WalkedWithin(t.slots[i].tree);
      }
    }
  }

  // ---------------------------------------------------------------------------------
  // The creator

  /** RoadMeshCreator: the road's first node and the mesh last handed to the mesh filter. */
  class MeshCreator {
    var startNode: Node?
    var mesh: MeshData

    constructor ()
      ensures startNode == null && mesh == MeshData([], [])
    {
      startNode := null;
      mesh := MeshData([], []);
    }

    /** GetEndPointSegments(): the nodes of the road with a null child, each once; none
        when there is no road. */
    method GetEndPointSegments(ghost road: Slot) returns (nodes: seq<Node>)
      requires SlotRepresents(startNode, road)
      ensures startNode == null ==> nodes == []
      ensures NoDup(nodes)
      ensures forall n :: n in nodes <==> n in SlotNodes(road) && HasOpenSlot(n)
    {
      ghost var open := OpenNodes(SlotNodes(road));
      if road.Full? {
        RepresentsLinked(road.tree);
        OpenFromHeap(road.tree);
        ReprAllocated(road.tree);
      }
      assert SlotOpen(road) == open;
      nodes := CollectEndPoints(startNode, road, []);
      SlotEndPointsCollect(road, []);
      assert Elems(nodes) == open;
      assert OpenNodes(SlotNodes(road)) == open;
      forall n ensures n in nodes <==> n in SlotNodes(road) && HasOpenSlot(n) {
        assert n in nodes <==> n in Elems(nodes);
      }
    }

    /** GetEndPointSegments(node, outList): for each slot of `node`, a null child adds
        `node` unless the list holds it already; any other child is searched recursively
        (a null one returns at once). */
    method CollectEndPoints(node: Node?, ghost s: Slot, outList: seq<Node>) returns (result: seq<Node>)
      requires SlotRepresents(node, s)
      ensures result == SlotEndPoints(s, outList)
      decreases s
    {
      if node == null {
        return outList;
      }
      ghost var t := s.tree;
      ReprAllocated(t);
      RepresentsArity(t);
      result := outList;
      var i := 0;
      while i < node.children.Length
        invariant 0 <= i <= node.children.Length == |t.slots|
        invariant EndPoints(t, i, result) == EndPoints(t, 0, outList)
      {
        RepresentsSlot(t, i);
        var child := node.children[i];
        if child == null && node !in result {
          result := result + [node];
        } else {
          result := CollectEndPoints(child, t.slots[i], result);
        }
        i := i + 1;
      }
    }

    /** GenerateRawMesh(subdivision): the road's mesh, with the subdivision clamped to at
        least 2, handed to the mesh filter. */
    method GenerateRawMesh(subdivision: int, ghost road: Slot)
      requires SlotRepresents(startNode, road)
      modifies this`mesh
      ensures mesh == Aggregate(SlotPreorder(road), Subdivision(subdivision), MeshData([], []))
    {
      var sub := ClampInt(subdivision, 2, IntMax);
      var m := GenerateMeshFrom(sub, startNode, road, MeshData([], []));
      mesh := m;
    }

    /** GenerateMesh(subdivision, node, vertices, triangles): nothing for a null node;
        otherwise the subdivision is clamped to at least 2, the node's strip is appended
        with the current vertex count as base index, and the non-null children follow in
        slot order. The two shared lists are `acc` on entry and the result on exit. */
    method GenerateMeshFrom(subdivision: int, node: Node?, ghost s: Slot, acc: MeshData) returns (r: MeshData)
      requires SlotRepresents(node, s)
      ensures r == Aggregate(SlotPreorder(s), Subdivision(subdivision), acc)
      decreases s
    {
      if node == null {
        return acc;
      }
      ghost var t := s.tree;
      RepresentsLinked(t);
      ReprAllocated(t);
      assert LinkedAt(t);
      var sub := ClampInt(subdivision, 2, IntMax);
      var m := node.GenerateMesh(sub, |acc.vertices|);
      r := Append(acc, m);
      assert Preorder(t) == [node] + SlotsPreorder(t, 0);
      AggregateConcat([node], SlotsPreorder(t, 0), sub, acc);
      var i := 0;
      while i < node.children.Length
        invariant 0 <= i <= node.children.Length == |t.slots|
        invariant Aggregate(SlotsPreorder(t, i), sub, r) == Aggregate(Preorder(t), sub, acc)
      {
        var child := node.children[i];
        assert child == SlotNode(t.slots[i]);
        if child != null {
          RepresentsKid(t, i);
          assert SlotsPreorder(t, i) == Preorder(t.slots[i].tree) + SlotsPreorder(t, i + 1);
          AggregateConcat(Preorder(t.slots[i].tree), SlotsPreorder(t, i + 1), sub, r);
          r := GenerateMeshFrom(sub, child, t.slots[i], r);
        } else {
          assert SlotsPreorder(t, i) == SlotsPreorder(t, i + 1);
          assert WalkedFrom(t, i) == WalkedFrom(t, i + 1);
        }
        i := i + 1;
      }
    }
    /** CopyRoad(node): clone the root and queue the clone; for each clone taken from the
        queue, replace every non-null child (still the original's, since a clone's children
        array starts as a copy) by a clone of it through AddNode, and queue that clone. The
        result is a road of the same shape, each node a clone of the node at the same place
        and linked like the original, sharing no node and no children array with it; the
        original road is not changed. The ghost map `m` sends each original node to its
        clone. */
    method CopyRoad(node: Node, ghost t: Tree) returns (newStart: Node, ghost m: map<Node, Node>, ghost copy: Tree)
      requires Represents(t) && t.node == node
      ensures m.Keys == Nodes(t) && AllClones(m) && copy == MapTree(t, m)
      ensures forall o | o in Nodes(t) :: fresh(m[o]) && fresh(m[o].children)
      ensures forall o | o in Nodes(copy) :: fresh(o) && fresh(o.children)
      ensures Represents(copy) && SameShape(t, copy)
      ensures copy.node == newStart && newStart.parent == node.parent
    {
      ghost var N := Nodes(t);
      ghost var kids := Kids(N);
      ghost var parents := Parents(N);
      ReprAllocated(t);
      SnapOfLinked(t, kids, parents);
      ghost var ck, cp, done;
      newStart, m, ck, cp, done := CopyFrom(node, N, kids);
      CopyDone(t, kids, parents, m, ck, cp, done);
      MirrorsFromSnapshots(N, kids, m, ck, cp);
      MapTreeRepresents(t, m);
      MapTreeShape(t, m);
      copy := MapTree(t, m);
      MapTreeNodes(t, m);
      forall o | o in Nodes(copy) ensures fresh(o) && fresh(o.children) {
        var x :| x in Nodes(t) && o == m[x];
      }
    }

    method CopyBegin(node: Node, ghost N: set<Node>, ghost kids: map<Node, seq<Node?>>)
      returns (newStart: Node, queue: seq<Node>, ghost m: map<Node, Node>, ghost ck: map<Node, seq<Node?>>,
               ghost cp: map<Node, Node?>, ghost done: set<Node>, ghost pending: seq<Node>)
      requires Snap(N, node, kids) && OriginalsHeld(N, kids)
      ensures Copying(N, node, kids, m, ck, cp, done, pending)
      ensures QueueHolds(queue, pending, m)
      ensures Held(N, kids, m, ck, cp) && AllClones(m)
      ensures node in m && m[node] == newStart && node in cp && cp[node] == node.parent
      ensures forall o | o in m :: fresh(m[o]) && fresh(m[o].children)
    {
      newStart := node.Clone();
      m := map[node := newStart];
      ck := map[node := kids[node]];
      cp := map[node := node.parent];
      done := {};
      pending := [node];
      queue := [newStart];
      CopyStart(N, node, kids, newStart, node.parent);
    }

    /** GenerateSmoothRoad(startNode, smooth): a breadth-first pass from the creator's own
        `startNode` field (the parameter is not read, nor is `smooth`) that dequeues each
        node, and for each non-null child queues it only when the dequeued node is a Smooth
        node; every other branch is empty, so nothing is changed (the method has no
        modifies clause). The ghost result is the set of nodes dequeued. */
    method GenerateSmoothRoad(start: Node?, smooth: real, ghost road: Slot) returns (ghost seen: set<Node>)
      requires SlotRepresents(startNode, road)
      ensures seen == SlotWalked(road)
    {
      var queue: seq<Node> := [];
      ghost var pend: seq<Tree> := [];
      seen := {};
      if startNode != null {
        queue := [startNode];
        pend := [road.tree];
      }
      while |queue| > 0
        invariant |queue| == |pend|
        invariant forall k | 0 <= k < |pend| :: Represents(pend[k]) && queue[k] == pend[k].node
        invariant seen + WalkedAll(pend) == SlotWalked(road)
        decreases QueueSize(pend)
      {
        var node := queue[0];
        ghost var t := pend[0];
        ghost var size := QueueSize(pend);
        assert Represents(t) && node == t.node;
        assert size == |Preorder(t)| + QueueSize(pend[1..]);
        queue, pend := queue[1..], pend[1..];
        seen := seen + {node};
        queue, pend := QueueChildren(node, t, queue, pend);
        assert Walked(t) == {node} + (if node.kind == Smooth then WalkedFrom(t, 0) else {});
        assert |Preorder(t)| == 1 + |SlotsPreorder(t, 0)|;
      }
    }

    /** The inner loop of GenerateSmoothRoad over the slots of the dequeued `node`: each
        non-null child is queued when `node` is a Smooth node, and nothing else happens. */
    method QueueChildren(node: Node, ghost t: Tree, queue: seq<Node>, ghost pend: seq<Tree>)
      returns (queue': seq<Node>, ghost pend': seq<Tree>)
      requires Represents(t) && node == t.node
      requires |queue| == |pend| && forall k | 0 <= k < |pend| :: Represents(pend[k]) && queue[k] == pend[k].node
      ensures |queue'| == |pend'| && forall k | 0 <= k < |pend'| :: Represents(pend'[k]) && queue'[k] == pend'[k].node
      ensures WalkedAll(pend') == WalkedAll(pend) + (if node.kind == Smooth then WalkedFrom(t, 0) else {})
      ensures QueueSize(pend') == QueueSize(pend) + (if node.kind == Smooth then |SlotsPreorder(t, 0)| else 0)
    {
      RepresentsArity(t);
      queue', pend' := queue, pend;
      var kind := node.kind;
      var i := 0;
      while i < node.children.Length
        invariant 0 <= i <= node.children.Length == |t.slots|
        invariant Represents(t)
        invariant |queue'| == |pend'|
        invariant forall k | 0 <= k < |pend'| :: Represents(pend'[k]) && queue'[k] == pend'[k].node
        invariant WalkedAll(pend') + (if kind == Smooth then WalkedFrom(t, i) else {})
               == WalkedAll(pend) + (if kind == Smooth then WalkedFrom(t, 0) else {})
        invariant QueueSize(pend') + (if kind == Smooth then |SlotsPreorder(t, i)| else 0)
               == QueueSize(pend) + (if kind == Smooth then |SlotsPreorder(t, 0)| else 0)
      {
        RepresentsSlot(t, i);
        var child := node.children[i];
        if child != null && kind == Smooth {
          RepresentsKid(t, i);
          WalkedAllAppend(pend', t.slots[i].tree);
          assert SlotsPreorder(t, i) == Preorder(t.slots[i].tree) + SlotsPreorder(t, i + 1);
          assert WalkedFrom(t, i) == Walked(t.slots[i].tree) + WalkedFrom(t, i + 1);
          queue' := queue' + [child];
          pend' := pend' + [t.slots[i].tree];
        } else if kind == Smooth {
          assert SlotsPreorder(t, i) == SlotsPreorder(t, i + 1);
          assert WalkedFrom(t, i) == WalkedFrom(t, i + 1);
        }
        i := i + 1;
      }
    }

    /** GenerateSmoothRoadMesh(subdivision, smoothPercent): nothing happens without a road;
        otherwise, with the smoothing fraction clamped to [0, 0.5] and the subdivision to at
        least 2, the road is copied, the smoothing pass runs, and the mesh of the copy is
        handed to the mesh filter. The ghost result describes the copy. */
    method GenerateSmoothRoadMesh(subdivision: int, smoothPercent: real, ghost road: Slot)
      returns (ghost copy: Slot)
      requires SlotRepresents(startNode, road)
      modifies this`mesh
      ensures road.Empty? ==> mesh == old(mesh)
      ensures road.Full? ==> && copy.Full? && SameShape(road.tree, copy.tree)
                             && (forall o | o in Nodes(copy.tree) :: fresh(o) && fresh(o.children))
      ensures road.Full? ==> mesh == Aggregate(SlotPreorder(copy), Subdivision(subdivision), MeshData([], []))
      ensures road.Full? ==>
        var raw := Aggregate(SlotPreorder(road), Subdivision(subdivision), MeshData([], []));
        mesh.triangles == raw.triangles && |mesh.vertices| == |raw.vertices|
    {
      if startNode == null {
        return road;
      }
      var smooth := ClampReal(smoothPercent, 0.0, 0.5);
      var sub := ClampInt(subdivision, 2, IntMax);
      ReprAllocated(road.tree);
      var newStart, m, t := CopyRoad(startNode, road.tree);
      copy := Full(t);
      SubdivisionClamped(subdivision);
      SameShapeSameMesh(road.tree, t, sub);
      ReprAllocated(copy.tree);
      ghost var seen := GenerateSmoothRoad(newStart, smooth, road);
      assert Represents(copy.tree);
      var r := GenerateMeshFrom(sub, newStart, copy, MeshData([], []));
      mesh := r;
    }

    /** CopyRoad's loop: clone the root and queue the clone; until the queue is empty,
        take the next clone from it and clone the children of its original into it. */
    method CopyFrom(node: Node, ghost N: set<Node>, ghost kids: map<Node, seq<Node?>>)
      returns (newStart: Node, ghost m: map<Node, Node>, ghost ck: map<Node, seq<Node?>>,
               ghost cp: map<Node, Node?>, ghost done: set<Node>)
      requires Snap(N, node, kids) && OriginalsHeld(N, kids)
      ensures Copying(N, node, kids, m, ck, cp, done, [])
      ensures Held(N, kids, m, ck, cp) && AllClones(m)
      ensures node in m && m[node] == newStart && node in cp && cp[node] == node.parent
      ensures forall o | o in m :: fresh(m[o]) && fresh(m[o].children)
    {
      var queue;
      ghost var pending;
      newStart, queue, m, ck, cp, done, pending := CopyBegin(node, N, kids);
      m, ck, cp, done := CopyRest(queue, N, node, kids, m, ck, cp, done, pending);
    }

    method CopyRest(queue: seq<Node>, ghost ns: set<Node>, ghost root: Node,
                    ghost kids: map<Node, seq<Node?>>, ghost m: map<Node, Node>,
                    ghost ck: map<Node, seq<Node?>>, ghost cp: map<Node, Node?>,
                    ghost done: set<Node>, ghost pending: seq<Node>)
      returns (ghost m': map<Node, Node>, ghost ck': map<Node, seq<Node?>>,
               ghost cp': map<Node, Node?>, ghost done': set<Node>)
      requires Snap(ns, root, kids)
      requires Copying(ns, root, kids, m, ck, cp, done, pending) && QueueHolds(queue, pending, m)
      requires Held(ns, kids, m, ck, cp) && AllClones(m)
      modifies set o | o in m :: m[o].children
      ensures Copying(ns, root, kids, m', ck', cp', done', [])
      ensures Held(ns, kids, m', ck', cp') && AllClones(m')
      ensures Extends(m, cp, m', cp')
      ensures forall o | o in m' && o !in m :: fresh(m'[o]) && fresh(m'[o].children)
      decreases |ns - done|
    {
      if |queue| == 0 {
        m', ck', cp', done' := m, ck, cp, done;
        return;
      }
      var queue1;
      ghost var m1, ck1, cp1, done1, pending1;
      queue1, m1, ck1, cp1, done1, pending1 := CopyNext(queue, ns, root, kids, m, ck, cp, done, pending);
      FinishShrinks(ns, done, pending[0]);
      m', ck', cp', done' := CopyRest(queue1, ns, root, kids, m1, ck1, cp1, done1, pending1);
      forall o | o in m' && o !in m ensures fresh(m'[o]) && fresh(m'[o].children) {
        if o in m1 {
          assert m'[o] == m1[o];
        }
      }
    }

    /** One pass of CopyRoad's outer loop: take the next clone from the queue and clone
        its children into it. */
    method CopyNext(queue: seq<Node>, ghost ns: set<Node>, ghost root: Node,
                    ghost kids: map<Node, seq<Node?>>, ghost m: map<Node, Node>,
                    ghost ck: map<Node, seq<Node?>>, ghost cp: map<Node, Node?>,
                    ghost done: set<Node>, ghost pending: seq<Node>)
      returns (queue': seq<Node>, ghost m': map<Node, Node>, ghost ck': map<Node, seq<Node?>>,
               ghost cp': map<Node, Node?>, ghost done': set<Node>, ghost pending': seq<Node>)
      requires Snap(ns, root, kids)
      requires Copying(ns, root, kids, m, ck, cp, done, pending) && QueueHolds(queue, pending, m)
      requires Held(ns, kids, m, ck, cp) && AllClones(m) && |queue| > 0
      modifies queue[0].children
      ensures Copying(ns, root, kids, m', ck', cp', done', pending') && QueueHolds(queue', pending', m')
      ensures Held(ns, kids, m', ck', cp') && AllClones(m')
      ensures Extends(m, cp, m', cp')
      ensures pending[0] in ns - done && done' == done + {pending[0]}
      ensures forall o | o in m' && o !in m :: fresh(m'[o]) && fresh(m'[o].children)
    {
      QueueDequeue(queue, pending, m);
      CopyDequeue(ns, root, kids, m, ck, cp, done, pending);
      var cur := queue[0];
      ghost var p := pending[0];
      queue', m', ck', cp', pending' := CopyChildren(cur, queue[1..], ns, root, kids, m, ck, cp, done, p, pending[1..]);
      CopyFinish(ns, root, kids, m', ck', cp', done, p, pending');
      done' := done + {p};
    }

    /** CopyRoad's inner loop over the children of the clone `cur` of `p`, dequeued: each
        non-null slot gets a clone of the original child held there, which is queued. The
        ghost state is the copy's snapshot (see RoadCopy), returned updated. */
    method CopyChildren(cur: Node, queue: seq<Node>, ghost ns: set<Node>, ghost root: Node,
                        ghost kids: map<Node, seq<Node?>>, ghost m: map<Node, Node>,
                        ghost ck: map<Node, seq<Node?>>, ghost cp: map<Node, Node?>,
                        ghost done: set<Node>, ghost p: Node, ghost rest: seq<Node>)
      returns (queue': seq<Node>, ghost m': map<Node, Node>, ghost ck': map<Node, seq<Node?>>,
               ghost cp': map<Node, Node?>, ghost rest': seq<Node>)
      requires Snap(ns, root, kids)
      requires Slots(ns, root, kids, m, cp, m, ck, cp, done, p, 0, rest, queue)
      requires cur == m[p]
      requires Held(ns, kids, m, ck, cp)
      requires AllClones(m)
      modifies cur.children
      ensures Slots(ns, root, kids, m, cp, m', ck', cp', done, p, |kids[p]|, rest', queue')
      ensures Held(ns, kids, m', ck', cp')
      ensures AllClones(m')
      ensures forall o | o in m' && o !in m :: fresh(m'[o]) && fresh(m'[o].children)
    {
      queue', m', ck', cp', rest' := queue, m, ck, cp, rest;
      assert cur.children.Length == |kids[p]|;
      var i := 0;
      while i < cur.children.Length
        invariant Slots(ns, root, kids, m, cp, m', ck', cp', done, p, i, rest', queue')
        invariant cur == m'[p]
        invariant Held(ns, kids, m', ck', cp')
        invariant AllClones(m')
        invariant forall o | o in m' && o !in m :: fresh(m'[o]) && fresh(m'[o].children)
      {
        ghost var before := m';
        queue', m', ck', cp', rest' := VisitSlot(cur, i, queue', ns, root, kids, m, cp, m', ck', cp', done, p, rest');
        forall o | o in m' && o !in m ensures fresh(m'[o]) && fresh(m'[o].children) {
          if o in before {
            assert m'[o] == before[o];
            assert fresh(before[o].children);
          }
        }
        i := i + 1;
      }
    }

    /** One pass of CopyChildren's loop, over slot i of `cur`: a non-null child gets a clone
        in its place, queued; a null slot is left alone. */
    method VisitSlot(cur: Node, i: int, queue: seq<Node>, ghost ns: set<Node>, ghost root: Node,
                     ghost kids: map<Node, seq<Node?>>, ghost m0: map<Node, Node>,
                     ghost cp0: map<Node, Node?>, ghost m: map<Node, Node>,
                     ghost ck: map<Node, seq<Node?>>, ghost cp: map<Node, Node?>,
                     ghost done: set<Node>, ghost p: Node, ghost rest: seq<Node>)
      returns (queue': seq<Node>, ghost m': map<Node, Node>, ghost ck': map<Node, seq<Node?>>,
               ghost cp': map<Node, Node?>, ghost rest': seq<Node>)
      requires Snap(ns, root, kids)
      requires Slots(ns, root, kids, m0, cp0, m, ck, cp, done, p, i, rest, queue)
      requires cur == m[p] && 0 <= i < cur.children.Length
      requires Held(ns, kids, m, ck, cp) && AllClones(m)
      modifies cur.children
      ensures Slots(ns, root, kids, m0, cp0, m', ck', cp', done, p, i + 1, rest', queue')
      ensures cur == m'[p]
      ensures Held(ns, kids, m', ck', cp') && AllClones(m')
      ensures Extends(m, cp, m', cp')
      ensures forall o | o in m' && o !in m :: fresh(m'[o]) && fresh(m'[o].children)
    {
      if cur.children[i] != null {
        queue', m', ck', cp', rest' := CopySlot(cur, i, queue, ns, root, kids, m0, cp0, m, ck, cp, done, p, rest);
      } else {
        queue', m', ck', cp', rest' := queue, m, ck, cp, rest;
        SlotSkipped(ns, root, kids, m0, cp0, m, ck, cp, done, p, i, rest, queue);
      }
    }

    /** VisitSlot on a slot holding a child: the child's clone takes its place and is queued. */
    method CopySlot(cur: Node, i: int, queue: seq<Node>, ghost ns: set<Node>, ghost root: Node,
                    ghost kids: map<Node, seq<Node?>>, ghost m0: map<Node, Node>,
                    ghost cp0: map<Node, Node?>, ghost m: map<Node, Node>,
                    ghost ck: map<Node, seq<Node?>>, ghost cp: map<Node, Node?>,
                    ghost done: set<Node>, ghost p: Node, ghost rest: seq<Node>)
      returns (queue': seq<Node>, ghost m': map<Node, Node>, ghost ck': map<Node, seq<Node?>>,
               ghost cp': map<Node, Node?>, ghost rest': seq<Node>)
      requires Snap(ns, root, kids)
      requires Slots(ns, root, kids, m0, cp0, m, ck, cp, done, p, i, rest, queue)
      requires cur == m[p] && 0 <= i < cur.children.Length && cur.children[i] != null
      requires Held(ns, kids, m, ck, cp) && AllClones(m)
      modifies cur.children
      ensures Slots(ns, root, kids, m0, cp0, m', ck', cp', done, p, i + 1, rest', queue')
      ensures cur == m'[p]
      ensures Held(ns, kids, m', ck', cp') && AllClones(m')
      ensures Extends(m, cp, m', cp')
      ensures forall o | o in m' && o !in m :: fresh(m'[o]) && fresh(m'[o].children)
    {
      assert cur.children.Length == |kids[p]|;
      ghost var c: Node := kids[p][i];
      assert cur.children[i] == ck[p][i] == c;
      ChildUnreached(ns, root, kids, m, ck, cp, done, p, i, rest, c);
      var x := CopyChildInto(cur, i, ns, kids, m, ck, cp, p, c);
      SlotCopied(ns, root, kids, m0, cp0, m, ck, cp, done, p, i, rest, queue, c, x);
      cp' := cp[c := m[p]];
      m' := m[c := x];
      ck' := Relink(ck, p, i, x, c, kids[c]);
      rest' := rest + [c];
      queue' := queue + [x];
    }

    /** The body of CopyRoad's inner loop for a non-null slot i of the clone `cur` of `p`:
        clone the original child `c` held there and put the clone in its place. */
    method CopyChildInto(cur: Node, i: int, ghost ns: set<Node>, ghost kids: map<Node, seq<Node?>>,
                         ghost m: map<Node, Node>, ghost ck: map<Node, seq<Node?>>,
                         ghost cp: map<Node, Node?>, ghost p: Node, ghost c: Node)
      returns (x: Node)
      requires Held(ns, kids, m, ck, cp) && AllClones(m) && p in m && cur == m[p]
      requires 0 <= i < cur.children.Length && cur.children[i] == c && c in ns && c !in m
      modifies cur.children
      ensures fresh(x) && fresh(x.children) && IsCloneOf(x, c)
      ensures AllClones(m[c := x])
      ensures Held(ns, kids, m[c := x], Relink(ck, p, i, x, c, kids[c]), cp[c := m[p]])
    {
      x := cur.children[i].Clone();
      assert forall o | o in m :: m[o] != x && m[o].children != x.children;
      ClonesGrow(m, c, x);
      LinkClone(cur, i, x, ns, kids, m, ck, cp, p, c);
    }

    /** The AddNode step of CopyChildInto: the clone `x` of `c` takes slot i of `cur`,
        the clone of `p`. */
    method LinkClone(cur: Node, i: int, x: Node, ghost ns: set<Node>, ghost kids: map<Node, seq<Node?>>,
                     ghost m: map<Node, Node>, ghost ck: map<Node, seq<Node?>>,
                     ghost cp: map<Node, Node?>, ghost p: Node, ghost c: Node)
      requires OriginalsHeld(ns, kids) && ClonesHeld(m, ck, cp) && ClonesApart(ns, m)
      requires forall o | o in m :: m[o] != x && m[o].children != x.children
      requires forall b | b in ns :: b.children != x.children
      requires AllClones(m[c := x]) && p in m && cur == m[p] && c !in m && c in kids
      requires 0 <= i < cur.children.Length && x.children.Length == |kids[c]|
      requires x.children[..] == kids[c] && x.parent == c.parent
      modifies cur.children, x`parent
      ensures AllClones(m[c := x])
      ensures Held(ns, kids, m[c := x], Relink(ck, p, i, x, c, kids[c]), cp[c := m[p]])
    {
      ApartGrow(ns, m, c, x);
      ghost var row := cur.children[..];
      var outcome := cur.AddNode(x, i);
      ghost var m': map<Node, Node> := m[c := x];
      ghost var ck' := Relink(ck, p, i, x, c, kids[c]);
      ghost var cp': map<Node, Node?> := cp[c := m[p]];
      forall o | o in m'
        ensures o in ck' && o in cp' && m'[o].children[..] == ck'[o] && m'[o].parent == cp'[o]
      {
        if o == c {
        } else if o == p {
          assert cur.children[..] == row[i := x];
        } else {
          assert m[o].children != cur.children;
        }
      }
    }
    }
}
