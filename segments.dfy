/** The road-segment node of Assets/Scripts/RoadSegment/SegmentNode.cs.

    The source has an abstract SegmentNode with four subclasses (Straight, Intersection,
    Smooth, Corner). Here one class carries every field, tagged by `kind`; a field that the
    source declares only on some subclasses is read only for those kinds. The `children`
    array and the `kind` are never reassigned after construction, so both are `const`: a
    node's arity (3 slots for an Intersection, 1 otherwise) is fixed for its lifetime.

    Geometry that the source derives with quaternions and trigonometry (end points, the
    intersection's side centres, end yaws) is not computed: constructors take it as
    arguments. Mesh vertices are kept symbolic: `Vertex(s, t, offset)` stands for
    `s.GetPosition(t, offset)`. */
module Segments {
  import opened Bezier

  datatype SegmentType = Straight | Smooth | Corner | Intersection

  /** SegmentNode.DEFAULT_CHILD_INDEX */
  const DefaultChildIndex: int := 0
  /** IntersectionSegmentNode.INDEX_CENTER, INDEX_CENTER_LEFT, INDEX_CENTER_RIGHT */
  const IndexCenter: int := 0
  const IndexCenterLeft: int := 1
  const IndexCenterRight: int := 2

  /** Number of child slots the base constructor allocates for a kind. */
  function Arity(kind: SegmentType): nat {
    if kind == Intersection then 3 else 1
  }

  /** The exceptions the operations can raise. */
  datatype Failure = IndexOutOfRange | NullReference
  datatype Outcome = Pass | Fail(failure: Failure)

  /** Result of GetChild: the slot's content, or the exception. */
  datatype Lookup = Found(child: Node?) | LookupFailed(failure: Failure)

  /** A mesh vertex: the point `segment.GetPosition(t, offset)`. */
  datatype Vertex = Vertex(segment: Node, t: real, offset: real)

  /** MeshData: vertex list and triangle index list. */
  datatype MeshData = MeshData(vertices: seq<Vertex>, triangles: seq<int>)

  /** Mathf.Clamp01 */
  function Clamp01(x: real): real {
    if x < 0.0 then 0.0 else if x > 1.0 then 1.0 else x
  }

  /** Mathf.Lerp, which clamps its parameter. */
  function Lerp(a: real, b: real, t: real): real {
    a + (b - a) * Clamp01(t)
  }

  class Node {
    const kind: SegmentType
    const children: array<Node?>
    var parent: Node?

    var startPoint: Vec3
    var endPoint: Vec3
    const width: real
    var yaw: real

    // StraightSegmentNode (and IntersectionSegmentNode); pitch and roll also CornerSegmentNode
    var length: real
    var pitch: real
    var roll: real

    // IntersectionSegmentNode: the side centres and the yaw of their rotations
    var centerLeft: Vec3
    var centerRight: Vec3
    var centerLeftYaw: real
    var centerRightYaw: real

    // SmoothSegmentNode
    var midPoint: Vec3
    var startRoll: real
    var endRoll: real

    // CornerSegmentNode
    var startYaw: real
    var endYaw: real
    var angle: real
    var radius: real

    /** A freshly constructed node: the arity of its kind, every slot empty, no parent. */
    ghost predicate Detached()
      reads this, children
    {
      && children.Length == Arity(kind)
      && parent == null
      && forall i :: 0 <= i < children.Length ==> children[i] == null
    }

    /** StraightSegmentNode(width, startPoint, length, pitch, roll, yaw); `endPoint` is the
        point the source computes by rotating the forward axis. */
    constructor StraightSegment(width: real, startPoint: Vec3, length: real, pitch: real, roll: real,
                                yaw: real, endPoint: Vec3)
      ensures kind == Straight && fresh(children) && Detached()
      ensures this.width == width && this.startPoint == startPoint && this.endPoint == endPoint
      ensures this.length == length && this.pitch == pitch && this.roll == roll && this.yaw == yaw
    {
      kind := Straight;
      children := new Node?[1](_ => null);
      parent := null;
      this.width := width;
      this.startPoint := startPoint;
      this.endPoint := endPoint;
      this.length := length;
      this.pitch := pitch;
      this.roll := roll;
      this.yaw := yaw;
    }

    /** IntersectionSegmentNode(width, startPoint, length, pitch, roll, yaw); the end point,
        the side centres and the yaws of the side rotations are supplied. */
    constructor IntersectionSegment(width: real, startPoint: Vec3, length: real, pitch: real, roll: real,
                                    yaw: real, endPoint: Vec3, centerLeft: Vec3, centerRight: Vec3,
                                    centerLeftYaw: real, centerRightYaw: real)
      ensures kind == Intersection && fresh(children) && Detached()
      ensures this.width == width && this.startPoint == startPoint && this.endPoint == endPoint
      ensures this.length == length && this.pitch == pitch && this.roll == roll && this.yaw == yaw
      ensures this.centerLeft == centerLeft && this.centerRight == centerRight
      ensures this.centerLeftYaw == centerLeftYaw && this.centerRightYaw == centerRightYaw
    {
      kind := Intersection;
      children := new Node?[3](_ => null);
      parent := null;
      this.width := width;
      this.startPoint := startPoint;
      this.endPoint := endPoint;
      this.length := length;
      this.pitch := pitch;
      this.roll := roll;
      this.yaw := yaw;
      this.centerLeft := centerLeft;
      this.centerRight := centerRight;
      this.centerLeftYaw := centerLeftYaw;
      this.centerRightYaw := centerRightYaw;
    }

    /** SmoothSegmentNode(width, startPoint, midPoint, endPoint); `yaw` is the yaw of the
        chord's look rotation. The rolls start at zero. */
    constructor SmoothSegment(width: real, startPoint: Vec3, midPoint: Vec3, endPoint: Vec3, yaw: real)
      ensures kind == Smooth && fresh(children) && Detached()
      ensures this.width == width && this.startPoint == startPoint && this.endPoint == endPoint
      ensures this.midPoint == midPoint && this.yaw == yaw
      ensures startRoll == 0.0 && endRoll == 0.0
    {
      kind := Smooth;
      children := new Node?[1](_ => null);
      parent := null;
      this.width := width;
      this.startPoint := startPoint;
      this.endPoint := endPoint;
      this.midPoint := midPoint;
      this.yaw := yaw;
      startRoll := 0.0;
      endRoll := 0.0;
    }

    /** CornerSegmentNode(width, startPoint, pitch, yaw, roll, angle, radius); the end point
        and end yaw of the arc are supplied. */
    constructor CornerSegment(width: real, startPoint: Vec3, pitch: real, yaw: real, roll: real,
                              angle: real, radius: real, endPoint: Vec3, endYaw: real)
      ensures kind == Corner && fresh(children) && Detached()
      ensures this.width == width && this.startPoint == startPoint && this.endPoint == endPoint
      ensures this.pitch == pitch && this.yaw == yaw && this.startYaw == yaw && this.roll == roll
      ensures this.angle == angle && this.radius == radius && this.endYaw == endYaw
    {
      kind := Corner;
      children := new Node?[1](_ => null);
      parent := null;
      this.width := width;
      this.startPoint := startPoint;
      this.endPoint := endPoint;
      this.pitch := pitch;
      this.yaw := yaw;
      startYaw := yaw;
      this.roll := roll;
      this.angle := angle;
      this.radius := radius;
      this.endYaw := endYaw;
    }

    /** GetChild(index): the slot's content, or IndexOutOfRange. */
    function GetChild(index: int): (r: Lookup)
      reads children
      ensures r.Found? <==> 0 <= index < children.Length
      ensures r.Found? ==> r.child == children[index]
      ensures !r.Found? ==> r.failure == IndexOutOfRange
    {
      if index < 0 || index >= children.Length then LookupFailed(IndexOutOfRange)
      else Found(children[index])
    }

    /** AddNode(newNode, index). An out-of-range index raises before anything changes. In
        range, the slot is overwritten, and then the new node's parent is set, which raises a
        null reference for a null node after the slot was written. The node previously in
        the slot keeps its parent pointer. */
    method AddNode(newNode: Node?, index: int) returns (r: Outcome)
      modifies children, (if newNode != null then {newNode} else {})`parent
      ensures !(0 <= index < children.Length) ==>
        r == Fail(IndexOutOfRange) && children[..] == old(children[..])
      ensures 0 <= index < children.Length ==>
        && children[..] == old(children[..])[index := newNode]
        && GetChild(index) == Found(newNode)
        && (newNode == null ==> r == Fail(NullReference))
        && (newNode != null ==> r == Pass)
      ensures newNode != null ==>
        newNode.parent == if 0 <= index < children.Length then this else old(newNode.parent)
      ensures 0 <= index < children.Length ==>
        var previous := old(children[index]);
        previous != null && previous != newNode ==> previous.parent == old(previous.parent)
    {
      if index < 0 || index >= children.Length {
        return Fail(IndexOutOfRange);
      }
      children[index] := newNode;
      if newNode == null {
        return Fail(NullReference);
      }
      newNode.parent := this;
      r := Pass;
    }

    /** InsertNode(newNode, index): splice `newNode` into slot `index` and hang the previous
        occupant under it through AddNode(otherNode), that is at slot 0. On an empty slot the
        final step dereferences null, after `newNode`'s first slot was cleared. */
    method InsertNode(newNode: Node?, index: int) returns (r: Outcome)
      requires newNode != null ==> newNode != this && newNode.children != children && newNode.children.Length >= 1
      modifies children, if newNode != null then {newNode.children} else {}
      modifies (if newNode != null then {newNode} else {})`parent
      modifies (if 0 <= index < children.Length && children[index] != null then {children[index]} else {})`parent
      ensures !(0 <= index < children.Length) ==>
        && r == Fail(IndexOutOfRange) && children[..] == old(children[..])
        && (newNode != null ==> newNode.parent == old(newNode.parent) && newNode.children[..] == old(newNode.children[..]))
      ensures 0 <= index < children.Length ==> children[..] == old(children[..])[index := newNode]
      ensures 0 <= index < children.Length && newNode == null ==>
        var other := old(children[index]);
        && r == Fail(NullReference)
        && (other != null ==> other.parent == old(other.parent))
      ensures 0 <= index < children.Length && newNode != null ==>
        var other := old(children[index]);
        && newNode.children[..] == old(newNode.children[..])[DefaultChildIndex := other]
        && (other != newNode ==> newNode.parent == this)
        && (other == null ==> r == Fail(NullReference))
        && (other != null ==> r == Pass && other.parent == newNode)
    {
      if index < 0 || index >= children.Length {
        return Fail(IndexOutOfRange);
      }
      var otherNode := children[index];
      children[index] := newNode;
      if newNode == null {
        return Fail(NullReference);
      }
      newNode.parent := this;
      r := newNode.AddNode(otherNode, DefaultChildIndex);
    }

    /** RemoveChild(node): detach the first slot holding `node` and return its index, or
        return -1 and change nothing. */
    method RemoveChild(node: Node) returns (index: int)
      modifies children, node`parent
      ensures index == -1 <==> node !in old(children[..])
      ensures index == -1 ==> children[..] == old(children[..]) && node.parent == old(node.parent)
      ensures index != -1 ==>
        && 0 <= index < children.Length
        && old(children[index]) == node
        && (forall j :: 0 <= j < index ==> old(children[j]) != node)
        && children[..] == old(children[..])[index := null]
        && GetChild(index) == Found(null)
        && node.parent == null
    {
      index := -1;
      var i := 0;
      while i < children.Length
        invariant 0 <= i <= children.Length
        invariant forall j :: 0 <= j < i ==> children[j] != node
      {
        if children[i] == node {
          children[i].parent := null;
          children[i] := null;
          index := i;
          return;
        }
        i := i + 1;
      }
    }

    /** SegmentNode.GenerateMesh(subdivision, baseIndex): a strip of `subdivision` quads. */
    method GenerateStrip(subdivision: int, baseIndex: int) returns (mesh: MeshData)
      requires subdivision >= 1
      ensures mesh == MeshData(StripVertices(this, subdivision, width / 2.0), StripTriangles(subdivision, baseIndex))
      ensures |mesh.vertices| == 2 * (subdivision + 1) && |mesh.triangles| == 6 * subdivision
    {
      var vertices: seq<Vertex> := [];
      var triangles: seq<int> := [];
      var halfWidth := width / 2.0;
      var i := 0;
      while i <= subdivision
        invariant 0 <= i <= subdivision + 1
        invariant vertices == StripVertices(this, subdivision, halfWidth)[..2 * i]
      {
        var t := i as real / subdivision as real;
        var left := Vertex(this, t, -halfWidth);
        var right := Vertex(this, t, halfWidth);
        StripVerticesStep(this, subdivision, halfWidth, i);
        vertices := vertices + [left] + [right];
        i := i + 1;
      }
      i := 0;
      while i < subdivision
        invariant 0 <= i <= subdivision
        invariant triangles == StripTriangles(i, baseIndex)
      {
        triangles := triangles + [baseIndex + 2 * (i + 1), baseIndex + 2 * i + 1, baseIndex + 2 * i];
        triangles := triangles + [baseIndex + 2 * (i + 1), baseIndex + 2 * (i + 1) + 1, baseIndex + 2 * i + 1];
        assert triangles == StripTriangles(i, baseIndex) + QuadTriangles(i, baseIndex);
        i := i + 1;
      }
      mesh := MeshData(vertices, triangles);
    }

    /** GenerateMesh(subdivision, baseIndex) as dispatched on the kind: Straight and
        Intersection (StraightSegmentNode.GenerateMesh) ignore the request and emit one quad;
        Smooth and Corner use the base strip. */
    method GenerateMesh(subdivision: int, baseIndex: int) returns (mesh: MeshData)
      requires subdivision >= 1
      ensures mesh == NodeMesh(this, subdivision, baseIndex)
      ensures kind == Straight || kind == Intersection ==> |mesh.vertices| == 4 && |mesh.triangles| == 6
      ensures kind == Smooth || kind == Corner ==>
        |mesh.vertices| == 2 * (subdivision + 1) && |mesh.triangles| == 6 * subdivision
    {
      if kind == Straight || kind == Intersection {
        mesh := GenerateStrip(1, baseIndex);
      } else {
        mesh := GenerateStrip(subdivision, baseIndex);
      }
    }

    /** StraightSegmentNode.ShrinkStartPoint (also inherited by an Intersection): the length
        is scaled by 1 - clamp01(percent). The start point also moves; that is not modelled. */
    method ShrinkStartPoint(percent: real)
      requires kind == Straight || kind == Intersection
      modifies this`length
      ensures length == Shrunk(old(length), percent)
    {
      var p := Clamp01(percent);
      length := length * (1.0 - p);
    }

    /** StraightSegmentNode.ShrinkEndPoint: the same length update as ShrinkStartPoint. */
    method ShrinkEndPoint(percent: real)
      requires kind == Straight || kind == Intersection
      modifies this`length
      ensures length == Shrunk(old(length), percent)
    {
      var p := Clamp01(percent);
      length := length * (1.0 - p);
    }

    /** SmoothSegmentNode.getRoll(t): the roll interpolated linearly from startRoll to
        endRoll, with t clamped to [0, 1]. */
    function RollAt(t: real): (r: real)
      requires kind == Smooth
      reads this
      ensures t <= 0.0 ==> r == startRoll
      ensures t >= 1.0 ==> r == endRoll
      ensures startRoll <= endRoll ==> startRoll <= r <= endRoll
      ensures endRoll <= startRoll ==> endRoll <= r <= startRoll
    {
      var u := Clamp01(t);
      LerpBetween(startRoll, endRoll, u);
      Lerp(startRoll, endRoll, u)
    }

    /** The control points of a Smooth node's curve: start, mid, mid, end. */
    function BezierPoints(): seq<Vec3>
      reads this
    {
      [startPoint, midPoint, midPoint, endPoint]
    }

    /** The Clone overrides: a node of the same kind built from this node's parameters, with
        the same parent and a copy of the children array (the children themselves are
        shared, not cloned). */
    method Clone() returns (c: Node)
      requires children.Length == Arity(kind)
      ensures fresh(c) && fresh(c.children)
      ensures c.children[..] == children[..]
      ensures c.parent == parent
      ensures IsCloneOf(c, this)
    {
      if kind == Straight {
        c := new Node.StraightSegment(width, startPoint, length, pitch, roll, yaw, endPoint);
      } else if kind == Intersection {
        c := new Node.IntersectionSegment(width, startPoint, length, pitch, roll, yaw, endPoint,
                                          centerLeft, centerRight, centerLeftYaw, centerRightYaw);
      } else if kind == Smooth {
        c := new Node.SmoothSegment(width, startPoint, midPoint, endPoint, yaw);
      } else {
        c := new Node.CornerSegment(width, startPoint, pitch, startYaw, roll, angle, radius, endPoint, endYaw);
      }
      c.parent := parent;
      forall i | 0 <= i < children.Length {
        c.children[i] := children[i];
      }
    }
  }

  /** What a clone keeps from its original: the kind and the parameters its kind's
      constructor takes. A Smooth clone's rolls restart at zero, and a Corner clone's yaw is
      the original's start yaw. */
  ghost predicate IsCloneOf(c: Node, o: Node)
    reads {c, o}`startPoint, {c, o}`endPoint, {c, o}`length, {c, o}`pitch, {c, o}`roll, {c, o}`yaw
    reads {c, o}`centerLeft, {c, o}`centerRight, {c, o}`centerLeftYaw, {c, o}`centerRightYaw
    reads {c, o}`midPoint, {c, o}`startRoll, {c, o}`endRoll
    reads {c, o}`angle, {c, o}`radius, {c, o}`startYaw, {c, o}`endYaw
  {
    && c.kind == o.kind
    && c.children.Length == o.children.Length
    && c.width == o.width && c.startPoint == o.startPoint && c.endPoint == o.endPoint
    && match o.kind
       case Straight =>
         c.length == o.length && c.pitch == o.pitch && c.roll == o.roll && c.yaw == o.yaw
       case Intersection =>
         && c.length == o.length && c.pitch == o.pitch && c.roll == o.roll && c.yaw == o.yaw
         && c.centerLeft == o.centerLeft && c.centerRight == o.centerRight
         && c.centerLeftYaw == o.centerLeftYaw && c.centerRightYaw == o.centerRightYaw
       case Smooth =>
         c.midPoint == o.midPoint && c.yaw == o.yaw && c.startRoll == 0.0 && c.endRoll == 0.0
       case Corner =>
         && c.pitch == o.pitch && c.roll == o.roll && c.angle == o.angle && c.radius == o.radius
         && c.yaw == o.startYaw && c.startYaw == o.startYaw && c.endYaw == o.endYaw
  }

  /** The strip's vertices: for each of the n + 1 stations t = i / n, the left point at
      offset -halfWidth followed by the right point at +halfWidth. */
  function StripVertices(segment: Node, n: int, halfWidth: real): seq<Vertex>
    requires n >= 1
  {
    seq(2 * (n + 1), k requires 0 <= k < 2 * (n + 1) =>
      Vertex(segment, (k / 2) as real / n as real, if k % 2 == 0 then -halfWidth else halfWidth))
  }

  /** The two triangles of quad i, as indices: (2i+2, 2i+1, 2i) and (2i+2, 2i+3, 2i+1). */
  function QuadTriangles(i: int, baseIndex: int): seq<int> {
    [baseIndex + 2 * (i + 1), baseIndex + 2 * i + 1, baseIndex + 2 * i,
     baseIndex + 2 * (i + 1), baseIndex + 2 * (i + 1) + 1, baseIndex + 2 * i + 1]
  }

  /** The strip's index list: the triangles of quads 0 .. n - 1, in order. */
  function StripTriangles(n: nat, baseIndex: int): (r: seq<int>)
    ensures |r| == 6 * n
  {
    if n == 0 then [] else StripTriangles(n - 1, baseIndex) + QuadTriangles(n - 1, baseIndex)
  }

  /** The vertex list grows by one left/right pair per row. */
  lemma StripVerticesStep(segment: Node, n: int, halfWidth: real, i: int)
    requires n >= 1 && 0 <= i <= n
    ensures StripVertices(segment, n, halfWidth)[..2 * (i + 1)] ==
      StripVertices(segment, n, halfWidth)[..2 * i]
      + [Vertex(segment, i as real / n as real, -halfWidth)]
      + [Vertex(segment, i as real / n as real, halfWidth)]
  {
    var v := StripVertices(segment, n, halfWidth);
    assert (2 * i) / 2 == i && (2 * i) % 2 == 0;
    assert (2 * i + 1) / 2 == i && (2 * i + 1) % 2 == 1;
  }

  /** Subdivision a node actually uses: Straight and Intersection always one quad. */
  function Subdivisions(kind: SegmentType, requested: int): int {
    if kind == Straight || kind == Intersection then 1 else requested
  }

  /** The mesh a node emits for a requested subdivision and a base index. */
  function NodeMesh(segment: Node, requested: int, baseIndex: int): MeshData
    requires requested >= 1
  {
    var n := Subdivisions(segment.kind, requested);
    MeshData(StripVertices(segment, n, segment.width / 2.0), StripTriangles(n, baseIndex))
  }

  /** Lerp stays between its end values. */
  lemma LerpBetween(a: real, b: real, u: real)
    requires 0.0 <= u <= 1.0
    ensures a <= b ==> a <= Lerp(a, b, u) <= b
    ensures b <= a ==> b <= Lerp(a, b, u) <= a
  {
    var d := b - a;
    assert Lerp(a, b, u) == a + d * u;
    assert b - Lerp(a, b, u) == d * (1.0 - u);
    if a <= b {
      ProductNonnegative(d, u);
      ProductNonnegative(d, 1.0 - u);
    } else {
      ProductNonnegative(-d, u);
      ProductNonnegative(-d, 1.0 - u);
    }
  }

  lemma ProductNonnegative(x: real, y: real)
    requires x >= 0.0 && y >= 0.0
    ensures x * y >= 0.0
  {
  }

  /** The length after a shrink by `percent`. */
  function Shrunk(length: real, percent: real): real {
    length * (1.0 - Clamp01(percent))
  }

  /** Vertex 2i is the left point and vertex 2i+1 the right point at station i / n. */
  lemma StripVertexLayout(segment: Node, n: int, halfWidth: real)
    requires n >= 1
    ensures |StripVertices(segment, n, halfWidth)| == 2 * (n + 1)
    ensures forall i :: 0 <= i <= n ==>
      && StripVertices(segment, n, halfWidth)[2 * i] == Vertex(segment, i as real / n as real, -halfWidth)
      && StripVertices(segment, n, halfWidth)[2 * i + 1] == Vertex(segment, i as real / n as real, halfWidth)
  {
    forall i | 0 <= i <= n
      ensures StripVertices(segment, n, halfWidth)[2 * i] == Vertex(segment, i as real / n as real, -halfWidth)
      ensures StripVertices(segment, n, halfWidth)[2 * i + 1] == Vertex(segment, i as real / n as real, halfWidth)
    {
      assert (2 * i) / 2 == i && (2 * i) % 2 == 0;
      assert (2 * i + 1) / 2 == i && (2 * i + 1) % 2 == 1;
    }
  }

  /** Every index of an n-quad strip addresses one of its own 2(n+1) vertices. */
  lemma {:induction false} StripIndicesInRange(n: nat, baseIndex: int)
    ensures forall k :: 0 <= k < 6 * n ==>
      baseIndex <= StripTriangles(n, baseIndex)[k] < baseIndex + 2 * (n + 1)
  {
    if n > 0 {
      StripIndicesInRange(n - 1, baseIndex);
      var front, quad := StripTriangles(n - 1, baseIndex), QuadTriangles(n - 1, baseIndex);
      forall k | 0 <= k < 6 * n
        ensures baseIndex <= StripTriangles(n, baseIndex)[k] < baseIndex + 2 * (n + 1)
      {
        if k < 6 * (n - 1) {
          assert StripTriangles(n, baseIndex)[k] == front[k];
        } else {
          assert StripTriangles(n, baseIndex)[k] == quad[k - 6 * (n - 1)];
        }
      }
    }
  }

  /** Index 6i + j of the list is corner j of quad i. */
  lemma {:induction false} TriangleIndex(n: nat, baseIndex: int, i: int, j: int)
    requires 0 <= i < n && 0 <= j < 6
    ensures 6 * i + j < 6 * n
    ensures StripTriangles(n, baseIndex)[6 * i + j] == QuadTriangles(i, baseIndex)[j]
  {
    if i < n - 1 {
      TriangleIndex(n - 1, baseIndex, i, j);
    }
  }

  /** The directed edge from corner e to corner e + 1 (cyclically) of triangle k. */
  function StripEdge(n: int, baseIndex: int, k: int, e: int): (int, int)
    requires n >= 1 && 0 <= k < 2 * n && 0 <= e < 3
  {
    var tris := StripTriangles(n, baseIndex);
    (tris[3 * k + e], tris[3 * k + (e + 1) % 3])
  }

  /** Offset from vertex 2i of corner e of the first (s = 0) or second (s = 1) triangle
      of quad i. */
  function CornerOffset(s: int, e: int): int {
    if s == 0 then (if e == 0 then 2 else if e == 1 then 1 else 0)
    else (if e == 0 then 2 else if e == 1 then 3 else 1)
  }

  /** The closed form of every edge: its end points relative to vertex 2i of its quad. */
  lemma StripEdgeClosedForm(n: int, baseIndex: int, k: int, e: int)
    requires n >= 1 && 0 <= k < 2 * n && 0 <= e < 3
    ensures var i, s := k / 2, k % 2;
            && k == 2 * i + s
            && StripEdge(n, baseIndex, k, e)
               == (baseIndex + 2 * i + CornerOffset(s, e), baseIndex + 2 * i + CornerOffset(s, (e + 1) % 3))
  {
    var i, s := k / 2, k % 2;
    assert k == 2 * i + s && 0 <= s < 2 && 0 <= i < n;
    if s == 0 {
      FirstTriangleEdges(n, baseIndex, i);
    } else {
      SecondTriangleEdges(n, baseIndex, i);
    }
  }

  /** The three edges of the first triangle of quad i: 2i+2 -> 2i+1 -> 2i -> 2i+2. */
  lemma FirstTriangleEdges(n: int, baseIndex: int, i: int)
    requires 0 <= i < n
    ensures StripEdge(n, baseIndex, 2 * i, 0) == (baseIndex + 2 * i + 2, baseIndex + 2 * i + 1)
    ensures StripEdge(n, baseIndex, 2 * i, 1) == (baseIndex + 2 * i + 1, baseIndex + 2 * i)
    ensures StripEdge(n, baseIndex, 2 * i, 2) == (baseIndex + 2 * i, baseIndex + 2 * i + 2)
  {
    TriangleIndex(n, baseIndex, i, 0);
    TriangleIndex(n, baseIndex, i, 1);
    TriangleIndex(n, baseIndex, i, 2);
  }

  /** The three edges of the second triangle of quad i: 2i+2 -> 2i+3 -> 2i+1 -> 2i+2. */
  lemma SecondTriangleEdges(n: int, baseIndex: int, i: int)
    requires 0 <= i < n
    ensures StripEdge(n, baseIndex, 2 * i + 1, 0) == (baseIndex + 2 * i + 2, baseIndex + 2 * i + 3)
    ensures StripEdge(n, baseIndex, 2 * i + 1, 1) == (baseIndex + 2 * i + 3, baseIndex + 2 * i + 1)
    ensures StripEdge(n, baseIndex, 2 * i + 1, 2) == (baseIndex + 2 * i + 1, baseIndex + 2 * i + 2)
  {
    TriangleIndex(n, baseIndex, i, 3);
    TriangleIndex(n, baseIndex, i, 4);
    TriangleIndex(n, baseIndex, i, 5);
  }

  /** Every triangle has three distinct corners, and no directed edge occurs twice in the
      strip: all triangles are wound the same way, so the strip is an orientable surface. */
  lemma StripConsistentlyOriented(n: int, baseIndex: int)
    requires n >= 1
    ensures forall k, e | 0 <= k < 2 * n && 0 <= e < 3 ::
      StripEdge(n, baseIndex, k, e).0 != StripEdge(n, baseIndex, k, e).1
    ensures forall k1, e1, k2, e2 |
        && 0 <= k1 < 2 * n && 0 <= e1 < 3 && 0 <= k2 < 2 * n && 0 <= e2 < 3
        && StripEdge(n, baseIndex, k1, e1) == StripEdge(n, baseIndex, k2, e2) ::
      k1 == k2 && e1 == e2
  {
    forall k, e | 0 <= k < 2 * n && 0 <= e < 3
      ensures StripEdge(n, baseIndex, k, e).0 != StripEdge(n, baseIndex, k, e).1
    {
      StripEdgeClosedForm(n, baseIndex, k, e);
    }
    forall k1, e1, k2, e2 |
        && 0 <= k1 < 2 * n && 0 <= e1 < 3 && 0 <= k2 < 2 * n && 0 <= e2 < 3
        && StripEdge(n, baseIndex, k1, e1) == StripEdge(n, baseIndex, k2, e2)
      ensures k1 == k2 && e1 == e2
    {
      EdgeDetermined(n, baseIndex, k1, e1, k2, e2);
    }
  }

  lemma EdgeDetermined(n: int, baseIndex: int, k1: int, e1: int, k2: int, e2: int)
    requires n >= 1
    requires 0 <= k1 < 2 * n && 0 <= e1 < 3 && 0 <= k2 < 2 * n && 0 <= e2 < 3
    requires StripEdge(n, baseIndex, k1, e1) == StripEdge(n, baseIndex, k2, e2)
    ensures k1 == k2 && e1 == e2
  {
    StripEdgeClosedForm(n, baseIndex, k1, e1);
    StripEdgeClosedForm(n, baseIndex, k2, e2);
    OffsetsDetermined(k1 / 2, k1 % 2, e1, k2 / 2, k2 % 2, e2);
  }

  /** Within quads, the start and end offsets of an edge identify the quad, the triangle
      and the corner: the step and the parity of the start differ between the six edges. */
  lemma OffsetsDetermined(i1: int, s1: int, e1: int, i2: int, s2: int, e2: int)
    requires 0 <= s1 < 2 && 0 <= e1 < 3 && 0 <= s2 < 2 && 0 <= e2 < 3
    requires 2 * i1 + CornerOffset(s1, e1) == 2 * i2 + CornerOffset(s2, e2)
    requires 2 * i1 + CornerOffset(s1, (e1 + 1) % 3) == 2 * i2 + CornerOffset(s2, (e2 + 1) % 3)
    ensures i1 == i2 && s1 == s2 && e1 == e2
  {
    if s1 == 0 && e1 == 0 {
    } else if s1 == 0 && e1 == 1 {
    } else if s1 == 0 && e1 == 2 {
    } else if s1 == 1 && e1 == 0 {
    } else if s1 == 1 && e1 == 1 {
    } else {
    }
  }

  /** Neighbouring triangles share an edge, traversed in opposite directions: the diagonal
      of each quad, and the rung between quad i and quad i + 1. */
  lemma StripSharedEdges(n: int, baseIndex: int)
    requires n >= 1
    ensures forall i | 0 <= i < n ::
      var (a, b) := StripEdge(n, baseIndex, 2 * i, 0);
      StripEdge(n, baseIndex, 2 * i + 1, 2) == (b, a)
    ensures forall i | 0 <= i < n - 1 ::
      var (a, b) := StripEdge(n, baseIndex, 2 * i + 1, 0);
      StripEdge(n, baseIndex, 2 * i + 2, 1) == (b, a)
  {
    forall i | 0 <= i < n
      ensures var (a, b) := StripEdge(n, baseIndex, 2 * i, 0);
              StripEdge(n, baseIndex, 2 * i + 1, 2) == (b, a)
    {
      QuadDiagonal(n, baseIndex, i);
    }
    forall i | 0 <= i < n - 1
      ensures var (a, b) := StripEdge(n, baseIndex, 2 * i + 1, 0);
              StripEdge(n, baseIndex, 2 * i + 2, 1) == (b, a)
    {
      QuadRung(n, baseIndex, i);
    }
  }

  lemma QuadDiagonal(n: int, baseIndex: int, i: int)
    requires 0 <= i < n
    ensures StripEdge(n, baseIndex, 2 * i, 0) == (baseIndex + 2 * i + 2, baseIndex + 2 * i + 1)
    ensures StripEdge(n, baseIndex, 2 * i + 1, 2) == (baseIndex + 2 * i + 1, baseIndex + 2 * i + 2)
  {
    FirstTriangleEdges(n, baseIndex, i);
    SecondTriangleEdges(n, baseIndex, i);
  }

  lemma QuadRung(n: int, baseIndex: int, i: int)
    requires 0 <= i < n - 1
    ensures StripEdge(n, baseIndex, 2 * i + 1, 0) == (baseIndex + 2 * i + 2, baseIndex + 2 * i + 3)
    ensures StripEdge(n, baseIndex, 2 * i + 2, 1) == (baseIndex + 2 * i + 3, baseIndex + 2 * i + 2)
  {
    SecondTriangleEdges(n, baseIndex, i);
    FirstTriangleEdges(n, baseIndex, i + 1);
  }

  /** A shrink never lengthens a non-negative length nor makes it negative; a percent at or
      below 0 keeps it and one at or above 1 collapses it. */
  lemma ShrunkBounds(length: real, percent: real)
    ensures length >= 0.0 ==> 0.0 <= Shrunk(length, percent) <= length
    ensures percent <= 0.0 ==> Shrunk(length, percent) == length
    ensures percent >= 1.0 ==> Shrunk(length, percent) == 0.0
  {
    var keep := 1.0 - Clamp01(percent);
    assert 0.0 <= keep <= 1.0;
    if length >= 0.0 {
      ProductNonnegative(length, keep);
      ProductNonnegative(length, 1.0 - keep);
      assert length - Shrunk(length, percent) == length * (1.0 - keep);
    }
  }

  /** Two shrinks compound multiplicatively, so their order does not matter. */
  lemma ShrunkCompounds(length: real, p: real, q: real)
    ensures Shrunk(Shrunk(length, p), q) == length * (1.0 - Clamp01(p)) * (1.0 - Clamp01(q))
    ensures Shrunk(Shrunk(length, p), q) == Shrunk(Shrunk(length, q), p)
  {
    var a, b := 1.0 - Clamp01(p), 1.0 - Clamp01(q);
    assert Shrunk(Shrunk(length, p), q) == (length * a) * b;
    assert Shrunk(Shrunk(length, q), p) == (length * b) * a;
    assert (length * a) * b == (length * b) * a;
  }

  /** A Smooth node's centre curve runs from its start point to its end point. */
  lemma SmoothCurveEnds(s: Node)
    ensures GetPoint(s.BezierPoints(), 0.0) == s.startPoint
    ensures GetPoint(s.BezierPoints(), 1.0) == s.endPoint
  {
    PointAtStart(s.BezierPoints());
    PointAtEnd(s.BezierPoints());
  }

  /** A clone of a Smooth node has lost the original's roll: it rolls by 0 everywhere. */
  lemma SmoothCloneHasNoRoll(c: Node, o: Node, t: real)
    requires IsCloneOf(c, o) && o.kind == Smooth
    ensures c.RollAt(t) == 0.0
  {
  }
}
