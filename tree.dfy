/** The road as a tree of Segments.Node objects, described by a ghost datatype.

    A `Tree` names a node and, slot by slot, what its `children` array holds: `Empty` for
    null or the child's own tree. `Represents(t)` is the parent/child invariant of the
    road: at every node the children array agrees with the slots and every child's
    `parent` points back at the node holding it; no node occurs twice and no two nodes
    share a children array. */
module RoadTree {
  import opened Segments

  datatype Tree = Tree(node: Node, slots: seq<Slot>)
  datatype Slot = Empty | Full(tree: Tree)

  /** The node a slot holds, null for an empty slot. */
  function SlotNode(s: Slot): Node? {
    if s.Empty? then null else s.tree.node
  }

  /** No node occurs twice in the sequence. */
  ghost predicate NoDup(s: seq<Node>) {
    forall i, j | 0 <= i < j < |s| :: s[i] != s[j]
  }

  /** The nodes of a sequence. */
  ghost function Elems(s: seq<Node>): set<Node> {
    set x | x in s
  }

  /** The nodes of a tree. */
  ghost function Nodes(t: Tree): (r: set<Node>)
    ensures t.node in r
    ensures forall i | 0 <= i < |t.slots| && t.slots[i].Full? :: Nodes(t.slots[i].tree) <= r
    ensures forall i | 0 <= i < |t.slots| && t.slots[i].Full? :: t.slots[i].tree.node in r
  {
    {t.node} + (set i, n | 0 <= i < |t.slots| && t.slots[i].Full? && n in Nodes(t.slots[i].tree) :: n)
  }

  /** A node of a tree is its root or a node of one of its subtrees. */
  lemma {:induction false} NodesCases(t: Tree, n: Node)
    requires n in Nodes(t)
    ensures n == t.node || exists i :: 0 <= i < |t.slots| && t.slots[i].Full? && n in Nodes(t.slots[i].tree)
  {
  }

  /** All subtrees of a tree, itself included. */
  ghost function Subtrees(t: Tree): (r: set<Tree>)
    ensures t in r
    ensures forall i | 0 <= i < |t.slots| && t.slots[i].Full? :: Subtrees(t.slots[i].tree) <= r
    ensures forall s | s in r :: Nodes(s) <= Nodes(t)
  {
    var below := set i, s | 0 <= i < |t.slots| && t.slots[i].Full? && s in Subtrees(t.slots[i].tree) :: s;
    assert forall s | s in below :: Nodes(s) <= Nodes(t) by {
      forall s | s in below ensures Nodes(s) <= Nodes(t) {
        var i :| 0 <= i < |t.slots| && t.slots[i].Full? && s in Subtrees(t.slots[i].tree);
      }
    }
    {t} + below
  }

  /** A subtree is the tree itself or a subtree of one of its children. */
  lemma {:induction false} SubtreesCases(t: Tree, s: Tree)
    requires s in Subtrees(t)
    ensures s == t || exists i :: 0 <= i < |t.slots| && t.slots[i].Full? && s in Subtrees(t.slots[i].tree)
  {
  }

  /** Every node is the root of one of the subtrees. */
  lemma {:induction false} NodeHasSubtree(t: Tree, n: Node)
    requires n in Nodes(t)
    ensures exists s :: s in Subtrees(t) && s.node == n
  {
    NodesCases(t, n);
    if n != t.node {
      var i :| 0 <= i < |t.slots| && t.slots[i].Full? && n in Nodes(t.slots[i].tree);
      NodeHasSubtree(t.slots[i].tree, n);
    }
  }

  /** The children arrays of the nodes of a road. */
  ghost function Arrays(t: Tree): set<array<Node?>> {
    set n | n in Nodes(t) :: n.children
  }

  /** The objects a tree's description reads: its nodes and their children arrays. */
  ghost function Repr(t: Tree): (r: set<object>)
    ensures Nodes(t) <= r
    ensures forall n | n in Nodes(t) :: n.children in r
    ensures forall i | 0 <= i < |t.slots| && t.slots[i].Full? :: Repr(t.slots[i].tree) <= r
  {
    Nodes(t) + set n | n in Nodes(t) :: n.children
  }

  ghost function SlotNodes(s: Slot): set<Node> {
    if s.Empty? then {} else Nodes(s.tree)
  }

  ghost function SlotRepr(s: Slot): set<object> {
    if s.Empty? then {} else Repr(s.tree)
  }

  /** A node's children array, under a name of its own: ArraysDistinct is stated on it, so
      that a proof brings distinctness up only for the nodes it names. */
  ghost function ArrayOf(n: Node): array<Node?> {
    n.children
  }

  /** Distinct nodes own distinct children arrays. */
  ghost predicate ArraysDistinct(ns: set<Node>) {
    forall a, b | a in ns && b in ns && a != b :: ArrayOf(a) != ArrayOf(b)
  }

  /** No node occurs twice: the root is in none of its subtrees and sibling subtrees share
      no node. */
  ghost predicate Unique(t: Tree) {
    && (forall i | 0 <= i < |t.slots| && t.slots[i].Full? ::
          t.node !in Nodes(t.slots[i].tree) && Unique(t.slots[i].tree))
    && (forall i, j | 0 <= i < j < |t.slots| && t.slots[i].Full? && t.slots[j].Full? ::
          Nodes(t.slots[i].tree) !! Nodes(t.slots[j].tree))
  }

  /** The nodes in the slots of a tree's root. */
  ghost function KidNodes(s: Tree): set<Node> {
    set i | 0 <= i < |s.slots| && s.slots[i].Full? :: s.slots[i].tree.node
  }

  /** At the root of `s`: the children array has the slots' length (the kind's arity),
      holds the slots' nodes, and each child's parent is the root. */
  ghost predicate LinkedAt(s: Tree)
    reads s.node, s.node.children, KidNodes(s)
  {
    && s.node.children.Length == |s.slots| == Arity(s.node.kind)
    && (forall i | 0 <= i < |s.slots| :: s.node.children[i] == SlotNode(s.slots[i]))
    && (forall i | 0 <= i < |s.slots| && s.slots[i].Full? :: s.slots[i].tree.node.parent == s.node)
  }

  /** What the heap holds for a set of nodes: each node's children, in slot order. */
  ghost function Kids(ns: set<Node>): map<Node, seq<Node?>>
    reads ns, set o | o in ns :: o.children
  {
    map o | o in ns :: o.children[..]
  }

  /** What the heap holds for a set of nodes: each node's parent. */
  ghost function Parents(ns: set<Node>): map<Node, Node?>
    reads ns
  {
    map o | o in ns :: o.parent
  }

  /** LinkedAt, read off snapshots `kids` and `parents` of the heap instead of the heap. */
  ghost predicate LinkedIn(s: Tree, kids: map<Node, seq<Node?>>, parents: map<Node, Node?>) {
    && s.node in kids
    && |kids[s.node]| == |s.slots| == Arity(s.node.kind)
    && (forall j | 0 <= j < |s.slots| :: kids[s.node][j] == SlotNode(s.slots[j]))
    && (forall j | 0 <= j < |s.slots| && s.slots[j].Full? ::
          s.slots[j].tree.node in parents && parents[s.slots[j].tree.node] == s.node)
  }

  /** LinkedIn at every subtree. */
  ghost predicate LinkedAll(t: Tree, kids: map<Node, seq<Node?>>, parents: map<Node, Node?>) {
    forall s | s in Subtrees(t) :: LinkedIn(s, kids, parents)
  }

  /** The parent/child invariant of the road rooted at `t.node`: no node occurs twice, no
      two nodes share a children array, and at every node the children array agrees with
      the slots and each child's parent is that node. */
  ghost predicate Represents(t: Tree)
    reads Repr(t)
  {
    && Unique(t)
    && ArraysDistinct(Nodes(t))
    && LinkedAll(t, Kids(Nodes(t)), Parents(Nodes(t)))
  }

  /** `root` (possibly null, for an empty road) is described by `s`. */
  ghost predicate SlotRepresents(root: Node?, s: Slot)
    reads SlotRepr(s)
  {
    root == SlotNode(s) && (s.Full? ==> Represents(s.tree))
  }

  /** The snapshot form agrees with the heap form. */
  lemma {:induction false} LinkedInIffAt(s: Tree, ns: set<Node>)
    requires Nodes(s) <= ns
    ensures LinkedIn(s, Kids(ns), Parents(ns)) <==> LinkedAt(s)
  {
    assert KidNodes(s) <= Nodes(s);
    if LinkedAt(s) {
      forall j | 0 <= j < |s.slots| && s.slots[j].Full?
        ensures s.slots[j].tree.node in ns
      {
        assert s.slots[j].tree.node in KidNodes(s);
      }
    }
  }

  /** Represents, in terms of the heap. */
  lemma {:induction false} RepresentsLinked(t: Tree)
    requires Represents(t)
    ensures forall s | s in Subtrees(t) :: LinkedAt(s)
  {
    forall s | s in Subtrees(t) ensures LinkedAt(s) {
      LinkedInIffAt(s, Nodes(t));
    }
  }

  /** Represents, from the heap. */
  lemma {:induction false} LinkedRepresents(t: Tree)
    requires Unique(t) && ArraysDistinct(Nodes(t))
    requires forall s | s in Subtrees(t) :: LinkedAt(s)
    ensures Represents(t)
  {
    forall s | s in Subtrees(t) ensures LinkedIn(s, Kids(Nodes(t)), Parents(Nodes(t))) {
      LinkedInIffAt(s, Nodes(t));
    }
  }

  /** Each child subtree of a represented tree is represented. */
  lemma {:induction false} RepresentsKid(t: Tree, i: int)
    requires Represents(t)
    requires 0 <= i < |t.slots| && t.slots[i].Full?
    ensures Represents(t.slots[i].tree)
    ensures t.node.children.Length == |t.slots| && t.node.children[i] == t.slots[i].tree.node
  {
    RepresentsLinked(t);
    assert LinkedAt(t);
    LinkedRepresents(t.slots[i].tree);
  }

  /** The root's children array has one entry per slot, as many as its kind's arity. */
  lemma {:induction false} RepresentsArity(t: Tree)
    requires Represents(t)
    ensures t.node.children.Length == |t.slots| == Arity(t.node.kind)
  {
    RepresentsLinked(t);
    assert LinkedAt(t);
  }

  /** Slot i of a represented tree holds, in the root's children array, the node its
      description names, and that node (when there is one) roots a represented tree. */
  lemma {:induction false} RepresentsSlot(t: Tree, i: int)
    requires Represents(t)
    requires 0 <= i < |t.slots|
    ensures t.node.children.Length == |t.slots|
    ensures SlotRepresents(t.node.children[i], t.slots[i])
  {
    RepresentsLinked(t);
    assert LinkedAt(t);
    if t.slots[i].Full? {
      RepresentsKid(t, i);
    }
  }

  /** Every node of a represented tree but its root hangs in a slot of its parent, which
      is a node of the tree. */
  lemma {:induction false} HasParent(t: Tree, x: Node)
    requires Represents(t) && x in Nodes(t) && x != t.node
    ensures x.parent != null && x.parent in Nodes(t)
    ensures exists j :: 0 <= j < x.parent.children.Length && x.parent.children[j] == x
  {
    NodesCases(t, x);
    var i :| 0 <= i < |t.slots| && t.slots[i].Full? && x in Nodes(t.slots[i].tree);
    var kid := t.slots[i].tree;
    RepresentsKid(t, i);
    if x == kid.node {
      RepresentsLinked(t);
      assert LinkedAt(t);
      assert x.parent == t.node && t.node.children[i] == x;
    } else {
      HasParent(kid, x);
    }
  }

  /** Every object of a tree's description is allocated, so a method that allocates new
      nodes never mistakes one of them for a node of the tree. */
  lemma {:induction false} ReprAllocated(t: Tree)
    ensures forall o :: o in Repr(t) ==> allocated(o)
  {
    forall i | 0 <= i < |t.slots| && t.slots[i].Full? {
      ReprAllocated(t.slots[i].tree);
    }
  }

  /** The root of a tree without repeated nodes is nobody's child inside it. */
  lemma {:induction false} RootIsNoChild(t: Tree, s: Tree)
    requires Unique(t) && s in Subtrees(t)
    ensures t.node !in KidNodes(s)
  {
    SubtreesCases(t, s);
    if s != t {
      var i :| 0 <= i < |t.slots| && t.slots[i].Full? && s in Subtrees(t.slots[i].tree);
      assert KidNodes(s) <= Nodes(s);
    }
  }

  /** Seen from the heap, a represented tree is closed under children: every non-null
      slot of one of its nodes holds another of its nodes, whose parent is that node and
      which is not the root. Every node has its kind's arity. */
  lemma {:induction false} LinkedClosed(t: Tree)
    requires Represents(t)
    ensures forall o | o in Nodes(t) :: o.children.Length == Arity(o.kind)
    ensures forall o, i | o in Nodes(t) && 0 <= i < o.children.Length && o.children[i] != null ::
      && o.children[i] in Nodes(t)
      && o.children[i].parent == o
      && o.children[i] != t.node
  {
    RepresentsLinked(t);
    forall o | o in Nodes(t)
      ensures o.children.Length == Arity(o.kind)
      ensures forall i | 0 <= i < o.children.Length && o.children[i] != null ::
        && o.children[i] in Nodes(t)
        && o.children[i].parent == o
        && o.children[i] != t.node
    {
      NodeHasSubtree(t, o);
      var s :| s in Subtrees(t) && s.node == o;
      assert LinkedAt(s);
      RootIsNoChild(t, s);
      forall i | 0 <= i < o.children.Length && o.children[i] != null
        ensures o.children[i] in KidNodes(s)
      {
        assert o.children[i] == s.slots[i].tree.node;
      }
      assert KidNodes(s) <= Nodes(s);
    }
  }

  /** A set of nodes that holds the root and is closed under non-null children holds every
      node of the tree. */
  lemma {:induction false} ClosedSetCoversTree(t: Tree, c: set<Node>)
    requires forall s | s in Subtrees(t) :: LinkedAt(s)
    requires t.node in c
    requires forall o, i | o in c && 0 <= i < o.children.Length && o.children[i] != null :: o.children[i] in c
    ensures Nodes(t) <= c
  {
    assert LinkedAt(t);
    forall i | 0 <= i < |t.slots| && t.slots[i].Full?
      ensures Nodes(t.slots[i].tree) <= c
    {
      assert t.node.children[i] == t.slots[i].tree.node;
      ClosedSetCoversTree(t.slots[i].tree, c);
    }
  }

  /** Two trees of the same shape: the same kinds and the same empty/non-empty pattern in
      every slot. */
  ghost predicate SameShape(a: Tree, b: Tree) {
    && a.node.kind == b.node.kind
    && |a.slots| == |b.slots|
    && forall i | 0 <= i < |a.slots| ::
         && (a.slots[i].Empty? <==> b.slots[i].Empty?)
         && (a.slots[i].Full? && b.slots[i].Full? ==> SameShape(a.slots[i].tree, b.slots[i].tree))
  }

  /** The tree whose nodes are the images of `t`'s nodes under `m`. */
  ghost function MapTree(t: Tree, m: map<Node, Node>): (r: Tree)
    requires Nodes(t) <= m.Keys
    ensures r.node == m[t.node] && |r.slots| == |t.slots|
    ensures forall i | 0 <= i < |t.slots| ::
      (t.slots[i].Empty? <==> r.slots[i].Empty?) &&
      (t.slots[i].Full? ==> r.slots[i].tree == MapTree(t.slots[i].tree, m))
  {
    Tree(m[t.node], seq(|t.slots|, i requires 0 <= i < |t.slots| =>
      if t.slots[i].Empty? then Empty else Full(MapTree(t.slots[i].tree, m))))
  }

  /** The nodes of the image are the images of the nodes. */
  lemma {:induction false} MapTreeNodes(t: Tree, m: map<Node, Node>)
    requires Nodes(t) <= m.Keys
    ensures Nodes(MapTree(t, m)) == set o | o in Nodes(t) :: m[o]
  {
    var r := MapTree(t, m);
    forall i | 0 <= i < |t.slots| && t.slots[i].Full? {
      MapTreeNodes(t.slots[i].tree, m);
    }
    forall x | x in Nodes(r)
      ensures exists o :: o in Nodes(t) && x == m[o]
    {
      NodesCases(r, x);
      if x != r.node {
        var j :| 0 <= j < |r.slots| && r.slots[j].Full? && x in Nodes(r.slots[j].tree);
        var o :| o in Nodes(t.slots[j].tree) && x == m[o];
      }
    }
    forall o | o in Nodes(t)
      ensures m[o] in Nodes(r)
    {
      NodesCases(t, o);
      if o != t.node {
        var j :| 0 <= j < |t.slots| && t.slots[j].Full? && o in Nodes(t.slots[j].tree);
        assert m[o] in Nodes(r.slots[j].tree);
      }
    }
  }

  /** An image under a kind-preserving map has the original's shape. */
  lemma {:induction false} MapTreeShape(t: Tree, m: map<Node, Node>)
    requires Nodes(t) <= m.Keys
    requires forall o | o in Nodes(t) :: m[o].kind == o.kind
    ensures SameShape(t, MapTree(t, m))
  {
    forall i | 0 <= i < |t.slots| && t.slots[i].Full? {
      MapTreeShape(t.slots[i].tree, m);
    }
  }

  /** Every subtree of the image is the image of a subtree. */
  lemma {:induction false} MapTreeSubtrees(t: Tree, m: map<Node, Node>)
    requires Nodes(t) <= m.Keys
    ensures forall s' | s' in Subtrees(MapTree(t, m)) :: exists s :: s in Subtrees(t) && s' == MapTree(s, m)
  {
    var r := MapTree(t, m);
    forall s' | s' in Subtrees(r)
      ensures exists s :: s in Subtrees(t) && s' == MapTree(s, m)
    {
      SubtreesCases(r, s');
      if s' != r {
        var j :| 0 <= j < |r.slots| && r.slots[j].Full? && s' in Subtrees(r.slots[j].tree);
        MapTreeSubtrees(t.slots[j].tree, m);
        var s :| s in Subtrees(t.slots[j].tree) && s' == MapTree(s, m);
      }
    }
  }

  /** A one-to-one image of a tree without repeated nodes has none either. */
  lemma {:induction false} MapTreeUnique(t: Tree, m: map<Node, Node>)
    requires Nodes(t) <= m.Keys
    requires forall a, b | a in Nodes(t) && b in Nodes(t) && a != b :: m[a] != m[b]
    requires Unique(t)
    ensures Unique(MapTree(t, m))
  {
    var r := MapTree(t, m);
    forall i | 0 <= i < |t.slots| && t.slots[i].Full?
      ensures r.node !in Nodes(r.slots[i].tree) && Unique(r.slots[i].tree)
    {
      MapTreeUnique(t.slots[i].tree, m);
      MapTreeNodes(t.slots[i].tree, m);
    }
    forall i, j | 0 <= i < j < |t.slots| && t.slots[i].Full? && t.slots[j].Full?
      ensures Nodes(r.slots[i].tree) !! Nodes(r.slots[j].tree)
    {
      MapTreeNodes(t.slots[i].tree, m);
      MapTreeNodes(t.slots[j].tree, m);
    }
  }

  /** The conditions under which the image of a represented tree is itself represented:
      `m` is one-to-one, each image node has the original's kind and a children array of
      the same length, and each image array holds the images of the original's children,
      whose parents are the image node. */
  ghost predicate MirrorsLinks(ns: set<Node>, m: map<Node, Node>)
    reads ns, m.Values, set o | o in ns :: o.children, set o | o in ns && o in m :: m[o].children
  {
    && ns <= m.Keys
    && (forall a, b | a in ns && b in ns && a != b :: m[a] != m[b])
    && forall o | o in ns ::
         && m[o].kind == o.kind
         && m[o].children.Length == o.children.Length
         && forall i | 0 <= i < o.children.Length ::
              && (o.children[i] == null ==> m[o].children[i] == null)
              && (o.children[i] != null ==>
                    && o.children[i] in m
                    && m[o].children[i] == m[o.children[i]]
                    && m[o.children[i]].parent == m[o])
  }

  /** The image of a represented tree under a map that mirrors its links, onto nodes with
      distinct arrays, is represented. */
  lemma {:induction false} MapTreeRepresents(t: Tree, m: map<Node, Node>)
    requires Represents(t)
    requires MirrorsLinks(Nodes(t), m)
    requires ArraysDistinct(set o | o in Nodes(t) :: m[o])
    ensures Represents(MapTree(t, m))
  {
    var r := MapTree(t, m);
    MapTreeNodes(t, m);
    MapTreeUnique(t, m);
    MapTreeSubtrees(t, m);
    RepresentsLinked(t);
    forall s' | s' in Subtrees(r)
      ensures LinkedAt(s')
    {
      var s :| s in Subtrees(t) && s' == MapTree(s, m);
      MapLinkedAt(Nodes(t), s, m);
    }
    LinkedRepresents(r);
  }

  /** Mirrored links at the root of `s` are links at the root of its image. */
  lemma {:induction false} MapLinkedAt(ns: set<Node>, s: Tree, m: map<Node, Node>)
    requires MirrorsLinks(ns, m)
    requires Nodes(s) <= ns && LinkedAt(s)
    ensures LinkedAt(MapTree(s, m))
  {
    var s' := MapTree(s, m);
    var o := s.node;
    assert o in ns;
    forall i | 0 <= i < |s.slots|
      ensures s'.node.children[i] == SlotNode(s'.slots[i])
      ensures s'.slots[i].Full? ==> s'.slots[i].tree.node.parent == s'.node
    {
      assert o.children[i] == SlotNode(s.slots[i]);
      if s.slots[i].Full? {
        assert s'.slots[i].tree == MapTree(s.slots[i].tree, m);
      }
    }
  }

  /** Grafting: the tree after `leaf` is hung in slot `i` of node `p`. */
  ghost function Graft(t: Tree, p: Node, i: int, leaf: Tree): (r: Tree)
    ensures r.node == t.node && |r.slots| == |t.slots|
    ensures t.node == p && 0 <= i < |t.slots| ==> r.slots == t.slots[i := Full(leaf)]
    ensures !(t.node == p && 0 <= i < |t.slots|) ==> forall j | 0 <= j < |t.slots| ::
      (t.slots[j].Empty? <==> r.slots[j].Empty?) &&
      (t.slots[j].Full? ==> r.slots[j].tree == Graft(t.slots[j].tree, p, i, leaf))
  {
    if t.node == p && 0 <= i < |t.slots| then
      Tree(t.node, t.slots[i := Full(leaf)])
    else
      Tree(t.node, seq(|t.slots|, j requires 0 <= j < |t.slots| =>
        if t.slots[j].Empty? then Empty else Full(Graft(t.slots[j].tree, p, i, leaf))))
  }

  /** Grafting below a node that is not in the tree changes nothing. */
  lemma {:induction false} GraftAbsent(t: Tree, p: Node, i: int, leaf: Tree)
    requires p !in Nodes(t)
    ensures Graft(t, p, i, leaf) == t
  {
    forall j | 0 <= j < |t.slots| && t.slots[j].Full? {
      GraftAbsent(t.slots[j].tree, p, i, leaf);
    }
    assert Graft(t, p, i, leaf).slots == t.slots;
  }

  /** Grafting adds at most the leaf's nodes. */
  lemma {:induction false} GraftNodesWithin(t: Tree, p: Node, i: int, leaf: Tree)
    ensures Nodes(Graft(t, p, i, leaf)) <= Nodes(t) + Nodes(leaf)
  {
    var r := Graft(t, p, i, leaf);
    forall x | x in Nodes(r) ensures x in Nodes(t) + Nodes(leaf) {
      NodesCases(r, x);
      if x != r.node {
        var j :| 0 <= j < |r.slots| && r.slots[j].Full? && x in Nodes(r.slots[j].tree);
        if !(t.node == p && 0 <= i < |t.slots|) {
          GraftNodesWithin(t.slots[j].tree, p, i, leaf);
        } else if j != i {
          assert r.slots[j] == t.slots[j];
        }
      }
    }
  }

  /** The subtrees rooted at `p` have slot `i` empty. */
  ghost predicate EmptyAt(t: Tree, p: Node, i: int) {
    forall s | s in Subtrees(t) && s.node == p :: 0 <= i < |s.slots| && s.slots[i].Empty?
  }

  /** Grafting into an empty slot of a node of the tree adds exactly the leaf's nodes. */
  lemma {:induction false} GraftNodesExact(t: Tree, p: Node, i: int, leaf: Tree)
    requires Unique(t) && p in Nodes(t) && EmptyAt(t, p, i)
    ensures Nodes(Graft(t, p, i, leaf)) == Nodes(t) + Nodes(leaf)
  {
    if t.node == p {
      GraftNodesAtRoot(t, i, leaf);
    } else {
      NodesCases(t, p);
      var k :| 0 <= k < |t.slots| && t.slots[k].Full? && p in Nodes(t.slots[k].tree);
      var kid := t.slots[k].tree;
      EmptyAtKid(t, p, i, k);
      GraftNodesExact(kid, p, i, leaf);
      GraftNodesBelow(t, p, i, leaf, k);
    }
  }

  /** A slot empty everywhere in a tree is empty in each of its child subtrees. */
  lemma {:induction false} EmptyAtKid(t: Tree, p: Node, i: int, k: int)
    requires EmptyAt(t, p, i) && 0 <= k < |t.slots| && t.slots[k].Full?
    ensures EmptyAt(t.slots[k].tree, p, i)
  {
    forall s | s in Subtrees(t.slots[k].tree) && s.node == p
      ensures 0 <= i < |s.slots| && s.slots[i].Empty?
    {
      assert s in Subtrees(t);
    }
  }

  lemma {:induction false} GraftNodesAtRoot(t: Tree, i: int, leaf: Tree)
    requires EmptyAt(t, t.node, i)
    ensures Nodes(Graft(t, t.node, i, leaf)) == Nodes(t) + Nodes(leaf)
  {
    assert t in Subtrees(t);
    GraftNodesWithin(t, t.node, i, leaf);
    assert Graft(t, t.node, i, leaf).slots[i] == Full(leaf);
    forall x | x in Nodes(t) ensures x in Nodes(Graft(t, t.node, i, leaf)) {
      GraftAtRootKeepsNode(t, i, leaf, x);
    }
  }

  /** A node of the tree is still there after grafting into an empty slot of the root. */
  lemma {:induction false} GraftAtRootKeepsNode(t: Tree, i: int, leaf: Tree, x: Node)
    requires 0 <= i < |t.slots| && t.slots[i].Empty? && x in Nodes(t)
    ensures x in Nodes(Graft(t, t.node, i, leaf))
  {
    var r := Graft(t, t.node, i, leaf);
    NodesCases(t, x);
    if x != t.node {
      var j :| 0 <= j < |t.slots| && t.slots[j].Full? && x in Nodes(t.slots[j].tree);
      assert r.slots[j] == t.slots[j];
    }
  }

  lemma {:induction false} GraftNodesBelow(t: Tree, p: Node, i: int, leaf: Tree, k: int)
    requires Unique(t) && t.node != p
    requires 0 <= k < |t.slots| && t.slots[k].Full? && p in Nodes(t.slots[k].tree)
    requires Nodes(Graft(t.slots[k].tree, p, i, leaf)) == Nodes(t.slots[k].tree) + Nodes(leaf)
    ensures Nodes(Graft(t, p, i, leaf)) == Nodes(t) + Nodes(leaf)
  {
    GraftNodesWithin(t, p, i, leaf);
    GraftKeepsLeaf(t, p, i, leaf, k);
    forall x | x in Nodes(t) ensures x in Nodes(Graft(t, p, i, leaf)) {
      GraftKeepsNode(t, p, i, leaf, k, x);
    }
  }

  /** The leaf is in the tree after grafting below its `k`-th child. */
  lemma {:induction false} GraftKeepsLeaf(t: Tree, p: Node, i: int, leaf: Tree, k: int)
    requires t.node != p
    requires 0 <= k < |t.slots| && t.slots[k].Full?
    requires Nodes(Graft(t.slots[k].tree, p, i, leaf)) == Nodes(t.slots[k].tree) + Nodes(leaf)
    ensures Nodes(leaf) <= Nodes(Graft(t, p, i, leaf))
  {
    var r := Graft(t, p, i, leaf);
    assert r.slots[k].tree == Graft(t.slots[k].tree, p, i, leaf);
  }

  /** A node of the tree is still there after grafting below its `k`-th child. */
  lemma {:induction false} GraftKeepsNode(t: Tree, p: Node, i: int, leaf: Tree, k: int, x: Node)
    requires Unique(t) && t.node != p
    requires 0 <= k < |t.slots| && t.slots[k].Full? && p in Nodes(t.slots[k].tree)
    requires Nodes(Graft(t.slots[k].tree, p, i, leaf)) == Nodes(t.slots[k].tree) + Nodes(leaf)
    requires x in Nodes(t)
    ensures x in Nodes(Graft(t, p, i, leaf))
  {
    var r := Graft(t, p, i, leaf);
    NodesCases(t, x);
    if x != t.node {
      var j :| 0 <= j < |t.slots| && t.slots[j].Full? && x in Nodes(t.slots[j].tree);
      if j != k {
        assert Nodes(t.slots[j].tree) !! Nodes(t.slots[k].tree) by {
          if j < k { assert Unique(t); } else { assert Unique(t); }
        }
        GraftAbsent(t.slots[j].tree, p, i, leaf);
      }
      assert r.slots[j].tree == Graft(t.slots[j].tree, p, i, leaf);
      assert x in Nodes(r.slots[j].tree);
    }
  }

  /** Grafting a leaf whose nodes are new keeps every node unique. */
  lemma {:induction false} GraftUnique(t: Tree, p: Node, i: int, leaf: Tree)
    requires Unique(t) && Unique(leaf) && Nodes(leaf) !! Nodes(t)
    ensures Unique(Graft(t, p, i, leaf))
  {
    var r := Graft(t, p, i, leaf);
    forall j | 0 <= j < |t.slots| && t.slots[j].Full?
      ensures Unique(Graft(t.slots[j].tree, p, i, leaf))
      ensures Nodes(Graft(t.slots[j].tree, p, i, leaf)) <= Nodes(t.slots[j].tree) + Nodes(leaf)
    {
      GraftUnique(t.slots[j].tree, p, i, leaf);
      GraftNodesWithin(t.slots[j].tree, p, i, leaf);
    }
    if !(t.node == p && 0 <= i < |t.slots|) {
      forall a, b | 0 <= a < b < |t.slots| && t.slots[a].Full? && t.slots[b].Full?
        ensures Nodes(r.slots[a].tree) !! Nodes(r.slots[b].tree)
      {
        if p in Nodes(t.slots[a].tree) {
          GraftAbsent(t.slots[b].tree, p, i, leaf);
        } else {
          GraftAbsent(t.slots[a].tree, p, i, leaf);
        }
      }
    }
  }

  /** Every subtree after grafting is the leaf's or the graft of an old subtree. */
  lemma {:induction false} GraftSubtrees(t: Tree, p: Node, i: int, leaf: Tree)
    requires Unique(t)
    ensures forall s' | s' in Subtrees(Graft(t, p, i, leaf)) ::
      s' in Subtrees(leaf) || exists s :: s in Subtrees(t) && s' == Graft(s, p, i, leaf)
  {
    var r := Graft(t, p, i, leaf);
    forall s' | s' in Subtrees(r)
      ensures s' in Subtrees(leaf) || exists s :: s in Subtrees(t) && s' == Graft(s, p, i, leaf)
    {
      SubtreesCases(r, s');
      if s' == r {
        assert t in Subtrees(t);
      } else {
        var j :| 0 <= j < |r.slots| && r.slots[j].Full? && s' in Subtrees(r.slots[j].tree);
        if t.node == p && 0 <= i < |t.slots| {
          if j != i {
            var kid := t.slots[j].tree;
            assert r.slots[j] == t.slots[j];
            assert p !in Nodes(kid);
            assert Nodes(s') <= Nodes(kid);
            GraftAbsent(s', p, i, leaf);
            assert s' in Subtrees(t) && s' == Graft(s', p, i, leaf);
          }
        } else {
          var kid := t.slots[j].tree;
          assert r.slots[j].tree == Graft(kid, p, i, leaf);
          GraftSubtrees(kid, p, i, leaf);
          if s' !in Subtrees(leaf) {
            var s :| s in Subtrees(kid) && s' == Graft(s, p, i, leaf);
            assert s in Subtrees(t);
          }
        }
      }
    }
  }

  /** A detached leaf: a node whose every slot is empty. */
  ghost function Leaf(n: Node): Tree {
    Tree(n, seq(n.children.Length, _ => Empty))
  }

  /** A leaf is one node without repeats, linked in any snapshot that shows its children
      array empty. */
  lemma {:induction false} LeafLinked(n: Node, kids: map<Node, seq<Node?>>, parents: map<Node, Node?>)
    requires n.children.Length == Arity(n.kind)
    requires n in kids && |kids[n]| == n.children.Length
    requires forall k | 0 <= k < |kids[n]| :: kids[n][k] == null
    ensures Nodes(Leaf(n)) == {n} && Subtrees(Leaf(n)) == {Leaf(n)} && Unique(Leaf(n))
    ensures LinkedAll(Leaf(n), kids, parents)
  {
    assert forall k | 0 <= k < |Leaf(n).slots| :: Leaf(n).slots[k].Empty?;
  }

  /** A freshly built node is a represented one-node tree. */
  lemma {:induction false} LeafRepresents(n: Node)
    requires n.children.Length == Arity(n.kind)
    requires forall k :: 0 <= k < n.children.Length ==> n.children[k] == null
    ensures Represents(Leaf(n)) && Nodes(Leaf(n)) == {n}
  {
    LeafLinked(n, Kids({n}), Parents({n}));
  }

  /** The links at the root of one subtree carry over to its graft, given how the
      snapshots changed: at `p` slot `i` now holds the leaf, whose parent is `p`; nothing
      else changed at the subtree's root and its children. */
  lemma {:induction false} GraftLinkedIn(s: Tree, p: Node, i: int, leaf: Tree,
                      k0: map<Node, seq<Node?>>, p0: map<Node, Node?>,
                      k1: map<Node, seq<Node?>>, p1: map<Node, Node?>)
    requires LinkedIn(s, k0, p0)
    requires s.node != p ==> s.node in k1 && k1[s.node] == k0[s.node]
    requires s.node == p ==>
      && 0 <= i < |s.slots| && p in k1 && k1[p] == k0[p][i := leaf.node]
      && leaf.node in p1 && p1[leaf.node] == p
    requires forall j | 0 <= j < |s.slots| && s.slots[j].Full? ::
      s.slots[j].tree.node in p1 && p1[s.slots[j].tree.node] == p0[s.slots[j].tree.node]
    ensures LinkedIn(Graft(s, p, i, leaf), k1, p1)
  {
    var s' := Graft(s, p, i, leaf);
    if s.node != p {
      forall j | 0 <= j < |s.slots|
        ensures k1[s'.node][j] == SlotNode(s'.slots[j])
        ensures s'.slots[j].Full? ==> s'.slots[j].tree.node in p1 && p1[s'.slots[j].tree.node] == s'.node
      {
        if s.slots[j].Full? {
          assert s'.slots[j].tree == Graft(s.slots[j].tree, p, i, leaf);
        }
      }
    }
  }

  /** Grafting, on snapshots: every subtree of the grafted tree is linked in the new
      snapshots when the old tree was linked in the old ones and the snapshots differ only
      by the graft. */
  lemma {:induction false} GraftLinkedAll(t: Tree, p: Node, i: int, leaf: Tree,
                       k0: map<Node, seq<Node?>>, p0: map<Node, Node?>,
                       k1: map<Node, seq<Node?>>, p1: map<Node, Node?>)
    requires Unique(t) && LinkedAll(t, k0, p0) && LinkedAll(leaf, k1, p1)
    requires forall o | o in Nodes(t) && o != p :: o in k0 && o in k1 && k1[o] == k0[o]
    requires p in k0 && p in k1 && 0 <= i < |k0[p]| && k1[p] == k0[p][i := leaf.node]
    requires forall o | o in Nodes(t) :: o in p0 && o in p1 && p1[o] == p0[o]
    requires leaf.node in p1 && p1[leaf.node] == p
    ensures LinkedAll(Graft(t, p, i, leaf), k1, p1)
  {
    var r := Graft(t, p, i, leaf);
    GraftSubtrees(t, p, i, leaf);
    forall s' | s' in Subtrees(r)
      ensures LinkedIn(s', k1, p1)
    {
      if s' !in Subtrees(leaf) {
        var s :| s in Subtrees(t) && s' == Graft(s, p, i, leaf);
        assert LinkedIn(s, k0, p0);
        assert s.node in Nodes(t) && KidNodes(s) <= Nodes(s) <= Nodes(t);
        forall j | 0 <= j < |s.slots| && s.slots[j].Full?
          ensures s.slots[j].tree.node in p1 && p1[s.slots[j].tree.node] == p0[s.slots[j].tree.node]
        {
          assert s.slots[j].tree.node in KidNodes(s);
        }
        GraftLinkedIn(s, p, i, leaf, k0, p0, k1, p1);
      }
    }
  }

  /** `kids` and `parents` are snapshots in which the road `t` is linked, and the heap
      still agrees with them except on the array of `p` and the parents of `others`. */
  ghost predicate SnapshotOf(t: Tree, p: Node, others: set<Node>,
                             kids: map<Node, seq<Node?>>, parents: map<Node, Node?>)
    reads Nodes(t), Arrays(t)
  {
    && Unique(t) && ArraysDistinct(Nodes(t)) && LinkedAll(t, kids, parents)
    && p in Nodes(t) && p in kids
    && (forall o | o in Nodes(t) && o != p :: o in kids && o.children[..] == kids[o])
    && (forall o | o in Nodes(t) && o !in others :: o in parents && o.parent == parents[o])
  }

  /** The snapshots of a road taken before a change that touched no object of the road
      except the array of `p` and the nodes in `others`: the road was linked in them, and
      they still agree with the heap on every other node. */
  twostate lemma {:induction false} Snapshots(t: Tree, new p: Node, new others: set<Node>)
    returns (kids: map<Node, seq<Node?>>, parents: map<Node, Node?>)
    requires old(allocated(Repr(t))) && old(Represents(t)) && p in Nodes(t)
    requires unchanged(Nodes(t) - others) && unchanged(Arrays(t) - {p.children})
    ensures SnapshotOf(t, p, others, kids, parents)
    ensures kids[p] == old(p.children[..])
  {
    kids := old(Kids(Nodes(t)));
    parents := old(Parents(Nodes(t)));
    forall o | o in Nodes(t) && o != p
      ensures o in kids && o.children[..] == kids[o]
    {
      assert o.children in Arrays(t) && ArrayOf(o) != ArrayOf(p);
    }
    forall o | o in Nodes(t) && o !in others
      ensures o in parents && o.parent == parents[o]
    {
    }
  }

  /** A road whose nodes and arrays are untouched is still described by the same tree. */
  twostate lemma RepresentsKept(t: Tree)
    requires old(allocated(Repr(t))) && old(Represents(t)) && unchanged(Repr(t))
    ensures Represents(t)
  {
  }

  /** AddNode on an empty slot keeps the road a tree. The heap change is the one AddNode
      makes when it hangs a new detached node `n` in the empty slot `i` of the road's node
      `p`: that slot now holds `n`, `n`'s parent is `p`, and no other object of the road
      changed. The road gains exactly the node `n`. */
  twostate lemma {:induction false} GraftRepresents(t: Tree, new p: Node, new i: int, new n: Node)
    requires old(allocated(Repr(t))) && old(Represents(t))
    requires p in Nodes(t) && 0 <= i < p.children.Length && old(p.children[i]) == null
    requires n !in Nodes(t) && n.children !in Repr(t)
    requires n.children.Length == Arity(n.kind)
    requires forall k :: 0 <= k < n.children.Length ==> n.children[k] == null
    requires n.parent == p
    requires p.children[..] == old(p.children[..])[i := n]
    requires unchanged(Nodes(t)) && unchanged(Arrays(t) - {p.children})
    ensures Represents(Graft(t, p, i, Leaf(n))) && n in Nodes(Graft(t, p, i, Leaf(n)))
  {
    var k0, p0 := Snapshots(t, p, {n});
    GraftAfter(t, p, i, n, k0, p0);
  }

  /** The single-state half of GraftRepresents: the heap now differs from the snapshots
      `k0` and `p0` of the road by the graft alone. */
  lemma {:induction false} GraftAfter(t: Tree, p: Node, i: int, n: Node, k0: map<Node, seq<Node?>>, p0: map<Node, Node?>)
    requires SnapshotOf(t, p, {n}, k0, p0)
    requires 0 <= i < |k0[p]| && k0[p][i] == null && p.children[..] == k0[p][i := n]
    requires n !in Nodes(t) && n.children !in Repr(t)
    requires n.children.Length == Arity(n.kind)
    requires forall k :: 0 <= k < n.children.Length ==> n.children[k] == null
    requires n.parent == p
    ensures Represents(Graft(t, p, i, Leaf(n)))
    ensures Nodes(Graft(t, p, i, Leaf(n))) == Nodes(t) + {n}
  {
    var leaf := Leaf(n);
    var r := Graft(t, p, i, leaf);
    LinkedEmptyAt(t, p, i, k0, p0);
    var ns := Nodes(t) + {n};
    var k1 := Kids(ns);
    var p1 := Parents(ns);
    GraftMaps(t, p, i, n, k0, p0);
    LeafLinked(n, k1, p1);
    GraftNodesExact(t, p, i, leaf);
    GraftUnique(t, p, i, leaf);
    GraftLinkedAll(t, p, i, leaf, k0, p0, k1, p1);
    ArraysDistinctAdd(t, n);
  }

  /** On the nodes after the graft, the heap agrees with the snapshots except for the
      filled slot of `p` and the parent of the new node. */
  lemma {:induction false} GraftMaps(t: Tree, p: Node, i: int, n: Node,
                                     k0: map<Node, seq<Node?>>, p0: map<Node, Node?>)
    requires SnapshotOf(t, p, {n}, k0, p0)
    requires 0 <= i < |k0[p]| && p.children[..] == k0[p][i := n]
    requires n !in Nodes(t) && n.parent == p
    ensures forall o | o in Nodes(t) && o != p ::
      o in k0 && o in Kids(Nodes(t) + {n}) && Kids(Nodes(t) + {n})[o] == k0[o]
    ensures p in Kids(Nodes(t) + {n}) && Kids(Nodes(t) + {n})[p] == k0[p][i := n]
    ensures forall o | o in Nodes(t) :: o in p0 && o in Parents(Nodes(t) + {n}) && Parents(Nodes(t) + {n})[o] == p0[o]
    ensures n in Parents(Nodes(t) + {n}) && Parents(Nodes(t) + {n})[n] == p
  {
  }

  /** A slot that is null in the snapshot is empty in the tree. */
  lemma {:induction false} LinkedEmptyAt(t: Tree, p: Node, i: int,
                                         kids: map<Node, seq<Node?>>, parents: map<Node, Node?>)
    requires LinkedAll(t, kids, parents)
    requires p in kids && 0 <= i < |kids[p]| && kids[p][i] == null
    ensures EmptyAt(t, p, i)
  {
    forall s | s in Subtrees(t) && s.node == p
      ensures 0 <= i < |s.slots| && s.slots[i].Empty?
    {
      assert LinkedIn(s, kids, parents);
    }
  }

  /** A node whose array is not in the tree keeps the arrays distinct. */
  lemma {:induction false} ArraysDistinctAdd(t: Tree, n: Node)
    requires ArraysDistinct(Nodes(t)) && n.children !in Repr(t)
    ensures ArraysDistinct(Nodes(t) + {n})
  {
    forall a, b | a in Nodes(t) + {n} && b in Nodes(t) + {n} && a != b
      ensures ArrayOf(a) != ArrayOf(b)
    {
      if a == n {
        assert b.children in Repr(t);
      } else if b == n {
        assert a.children in Repr(t);
      } else {
        assert ArrayOf(a) != ArrayOf(b);
      }
    }
  }

  /** Pruning: the tree after the subtree rooted at `x` is cut off. */
  ghost function Prune(t: Tree, x: Node): (r: Tree)
    ensures r.node == t.node && |r.slots| == |t.slots|
    ensures forall j | 0 <= j < |t.slots| ::
      ((t.slots[j].Empty? || t.slots[j].tree.node == x) <==> r.slots[j].Empty?) &&
      (t.slots[j].Full? && t.slots[j].tree.node != x ==> r.slots[j].tree == Prune(t.slots[j].tree, x))
  {
    Tree(t.node, seq(|t.slots|, j requires 0 <= j < |t.slots| =>
      if t.slots[j].Empty? || t.slots[j].tree.node == x then Empty
      else Full(Prune(t.slots[j].tree, x))))
  }

  /** Pruning never adds a node, and below the root it removes `x`. */
  lemma {:induction false} PruneNodes(t: Tree, x: Node)
    requires Unique(t)
    ensures Nodes(Prune(t, x)) <= Nodes(t)
    ensures x != t.node ==> x !in Nodes(Prune(t, x))
  {
    var r := Prune(t, x);
    forall j | 0 <= j < |t.slots| && t.slots[j].Full? && t.slots[j].tree.node != x {
      PruneNodes(t.slots[j].tree, x);
    }
    forall y | y in Nodes(r) ensures y in Nodes(t) && (x != t.node ==> y != x) {
      NodesCases(r, y);
    }
  }

  /** The nodes of the subtrees rooted at `x`: `x` with everything below it. */
  ghost function Below(t: Tree, x: Node): (r: set<Node>)
    ensures r <= Nodes(t)
  {
    set s, n | s in Subtrees(t) && s.node == x && n in Nodes(s) :: n
  }

  /** A node is below `x` in a tree rooted elsewhere exactly when it is below `x` in one
      of the child subtrees. */
  lemma {:induction false} BelowCases(t: Tree, x: Node, y: Node)
    requires t.node != x
    ensures y in Below(t, x) <==> exists k :: 0 <= k < |t.slots| && t.slots[k].Full? && y in Below(t.slots[k].tree, x)
  {
    if y in Below(t, x) {
      var s :| s in Subtrees(t) && s.node == x && y in Nodes(s);
      SubtreesCases(t, s);
      var k :| 0 <= k < |t.slots| && t.slots[k].Full? && s in Subtrees(t.slots[k].tree);
      assert y in Below(t.slots[k].tree, x);
    }
    if exists k :: 0 <= k < |t.slots| && t.slots[k].Full? && y in Below(t.slots[k].tree, x) {
      var k :| 0 <= k < |t.slots| && t.slots[k].Full? && y in Below(t.slots[k].tree, x);
      var s :| s in Subtrees(t.slots[k].tree) && s.node == x && y in Nodes(s);
      assert s in Subtrees(t);
    }
  }

  /** A node of one child subtree that is not below `x` there is below `x` in no child
      subtree, siblings sharing no node. */
  lemma {:induction false} NotBelowSiblings(t: Tree, x: Node, y: Node, j: int)
    requires Unique(t) && 0 <= j < |t.slots| && t.slots[j].Full?
    requires y in Nodes(t.slots[j].tree) && y !in Below(t.slots[j].tree, x)
    ensures forall k | 0 <= k < |t.slots| && t.slots[k].Full? :: y !in Below(t.slots[k].tree, x)
  {
    forall k | 0 <= k < |t.slots| && t.slots[k].Full? && k != j ensures y !in Nodes(t.slots[k].tree) {
      if k < j {
        assert Nodes(t.slots[k].tree) !! Nodes(t.slots[j].tree);
      } else {
        assert Nodes(t.slots[j].tree) !! Nodes(t.slots[k].tree);
      }
    }
  }

  /** Cutting `x` off below the root removes exactly `x` and everything below it. */
  lemma {:induction false} PruneNodesExact(t: Tree, x: Node)
    requires Unique(t) && x != t.node
    ensures x in Nodes(t) ==> x in Below(t, x)
    ensures Nodes(Prune(t, x)) == Nodes(t) - Below(t, x)
  {
    if x in Nodes(t) {
      NodeHasSubtree(t, x);
      var s :| s in Subtrees(t) && s.node == x;
      assert x in Nodes(s);
    }
    forall y | y in Nodes(Prune(t, x)) ensures y in Nodes(t) && y !in Below(t, x) {
      PrunedNotBelow(t, x, y);
    }
    forall y | y in Nodes(t) && y !in Below(t, x) ensures y in Nodes(Prune(t, x)) {
      NotBelowPruned(t, x, y);
    }
  }

  /** A node left after the cut was in the tree, and not below `x`. */
  lemma {:induction false} PrunedNotBelow(t: Tree, x: Node, y: Node)
    requires Unique(t) && x != t.node && y in Nodes(Prune(t, x))
    ensures y in Nodes(t) && y !in Below(t, x)
  {
    var r := Prune(t, x);
    NodesCases(r, y);
    BelowCases(t, x, y);
    if y != t.node {
      var j :| 0 <= j < |r.slots| && r.slots[j].Full? && y in Nodes(r.slots[j].tree);
      assert t.slots[j].Full? && t.slots[j].tree.node != x;
      var kid := t.slots[j].tree;
      assert t.slots[j] in t.slots && r.slots[j].tree == Prune(kid, x);
      PrunedNotBelow(kid, x, y);
      NotBelowSiblings(t, x, y, j);
    }
  }

  /** A node of the tree not below `x` is still there after the cut. */
  lemma {:induction false} NotBelowPruned(t: Tree, x: Node, y: Node)
    requires Unique(t) && x != t.node && y in Nodes(t) && y !in Below(t, x)
    ensures y in Nodes(Prune(t, x))
  {
    NodesCases(t, y);
    BelowCases(t, x, y);
    if y != t.node {
      var j :| 0 <= j < |t.slots| && t.slots[j].Full? && y in Nodes(t.slots[j].tree);
      var kid := t.slots[j].tree;
      // A child rooted at `x` would put `y` below `x`.
      assert kid in Subtrees(t);
      if kid.node != x {
        NotBelowPruned(kid, x, y);
      }
    }
  }

  /** Pruning keeps every node unique. */
  lemma {:induction false} PruneUnique(t: Tree, x: Node)
    requires Unique(t)
    ensures Unique(Prune(t, x))
  {
    forall j | 0 <= j < |t.slots| && t.slots[j].Full? && t.slots[j].tree.node != x
      ensures Unique(Prune(t.slots[j].tree, x))
      ensures Nodes(Prune(t.slots[j].tree, x)) <= Nodes(t.slots[j].tree)
    {
      PruneUnique(t.slots[j].tree, x);
      PruneNodes(t.slots[j].tree, x);
    }
  }

  /** Every subtree after pruning is the pruning of an old subtree. */
  lemma {:induction false} PruneSubtrees(t: Tree, x: Node)
    ensures forall s' | s' in Subtrees(Prune(t, x)) :: exists s :: s in Subtrees(t) && s' == Prune(s, x)
  {
    var r := Prune(t, x);
    forall s' | s' in Subtrees(r)
      ensures exists s :: s in Subtrees(t) && s' == Prune(s, x)
    {
      SubtreesCases(r, s');
      if s' != r {
        var j :| 0 <= j < |r.slots| && r.slots[j].Full? && s' in Subtrees(r.slots[j].tree);
        PruneSubtrees(t.slots[j].tree, x);
      }
    }
  }

  /** The node holding `x` stays when `x` is cut off. */
  lemma {:induction false} PruneKeepsParent(t: Tree, x: Node, s: Tree, j: int)
    requires Unique(t) && s in Subtrees(t)
    requires 0 <= j < |s.slots| && s.slots[j].Full? && s.slots[j].tree.node == x
    ensures s.node in Nodes(Prune(t, x))
    decreases t
  {
    SubtreesCases(t, s);
    if s != t {
      var m :| 0 <= m < |t.slots| && t.slots[m].Full? && s in Subtrees(t.slots[m].tree);
      var kid := t.slots[m].tree;
      assert Unique(kid);
      RootIsNoChild(kid, s);
      assert x in KidNodes(s);
      assert kid.node != x;
      assert t.slots[m] in t.slots;
      PruneKeepsParent(kid, x, s, j);
      var r := Prune(t, x);
      assert r.slots[m].Full? && r.slots[m].tree == Prune(kid, x);
      assert Nodes(Prune(kid, x)) <= Nodes(r);
    }
  }

  /** A subtree of a tree without repeated nodes has none either. */
  lemma {:induction false} SubtreeUnique(t: Tree, s: Tree)
    requires Unique(t) && s in Subtrees(t)
    ensures Unique(s)
  {
    SubtreesCases(t, s);
    if s != t {
      var m :| 0 <= m < |t.slots| && t.slots[m].Full? && s in Subtrees(t.slots[m].tree);
      assert t.slots[m] in t.slots;
      SubtreeUnique(t.slots[m].tree, s);
    }
  }

  /** The links at the root of one subtree carry over to its pruning, given how the
      snapshots changed: at `p` the slot `j` that held `x` is now null; nothing else
      changed at the subtree's root and at the children it keeps. */
  lemma {:induction false} PruneLinkedIn(s: Tree, x: Node, p: Node, j: int,
                      k0: map<Node, seq<Node?>>, p0: map<Node, Node?>,
                      k1: map<Node, seq<Node?>>, p1: map<Node, Node?>)
    requires LinkedIn(s, k0, p0)
    requires s.node != p ==> s.node in k1 && k1[s.node] == k0[s.node] && x !in KidNodes(s)
    requires s.node == p ==>
      && 0 <= j < |s.slots| && s.slots[j].Full? && s.slots[j].tree.node == x
      && p in k1 && k1[p] == k0[p][j := null]
      && forall k | 0 <= k < |s.slots| && k != j && s.slots[k].Full? :: s.slots[k].tree.node != x
    requires forall k | 0 <= k < |s.slots| && s.slots[k].Full? && s.slots[k].tree.node != x ::
      s.slots[k].tree.node in p1 && p1[s.slots[k].tree.node] == p0[s.slots[k].tree.node]
    ensures LinkedIn(Prune(s, x), k1, p1)
  {
    var s' := Prune(s, x);
    forall k | 0 <= k < |s.slots|
      ensures k1[s'.node][k] == SlotNode(s'.slots[k])
      ensures s'.slots[k].Full? ==> s'.slots[k].tree.node in p1 && p1[s'.slots[k].tree.node] == s'.node
    {
      if s.slots[k].Full? && s.slots[k].tree.node != x {
        assert s'.slots[k].tree == Prune(s.slots[k].tree, x);
      }
      if s.node != p && s.slots[k].Full? {
        assert s.slots[k].tree.node in KidNodes(s);
      }
    }
  }

  /** Pruning one subtree, on snapshots: its root stays linked when the snapshots differ
      only by the cut at `p` on the nodes the pruned subtree keeps. */
  lemma {:induction false} PruneLinkedSub(s: Tree, x: Node, p: Node, j: int,
                       k0: map<Node, seq<Node?>>, p0: map<Node, Node?>,
                       k1: map<Node, seq<Node?>>, p1: map<Node, Node?>)
    requires Unique(s) && LinkedIn(s, k0, p0) && s.node != x
    requires forall o | o in Nodes(Prune(s, x)) && o != p :: o in k0 && o in k1 && k1[o] == k0[o]
    requires p in k0 && p in k1 && 0 <= j < |k0[p]| && k0[p][j] == x && k1[p] == k0[p][j := null]
    requires x in p0 && p0[x] == p
    requires forall o | o in Nodes(Prune(s, x)) :: o in p0 && o in p1 && p1[o] == p0[o]
    ensures LinkedIn(Prune(s, x), k1, p1)
  {
    var s' := Prune(s, x);
    assert s.node in Nodes(s');
    if s.node == p {
      assert s.slots[j].Full? && s.slots[j].tree.node == x;
      forall k | 0 <= k < |s.slots| && k != j && s.slots[k].Full?
        ensures s.slots[k].tree.node != x
      {
        assert s.slots[k].tree.node in Nodes(s.slots[k].tree);
        assert s.slots[j].tree.node in Nodes(s.slots[j].tree);
      }
    } else {
      forall k | 0 <= k < |s.slots| && s.slots[k].Full?
        ensures s.slots[k].tree.node != x
      {
        assert p0[s.slots[k].tree.node] == s.node;
      }
    }
    forall k | 0 <= k < |s.slots| && s.slots[k].Full? && s.slots[k].tree.node != x
      ensures s.slots[k].tree.node in Nodes(s')
    {
      assert s'.slots[k].tree == Prune(s.slots[k].tree, x);
    }
    PruneLinkedIn(s, x, p, j, k0, p0, k1, p1);
  }

  /** Pruning, on snapshots: every subtree of the pruned tree is linked in the new
      snapshots when the old tree was linked in the old ones and the snapshots differ only
      by the cut. */
  lemma {:induction false} PruneLinkedAll(t: Tree, x: Node, p: Node, j: int,
                       k0: map<Node, seq<Node?>>, p0: map<Node, Node?>,
                       k1: map<Node, seq<Node?>>, p1: map<Node, Node?>)
    requires Unique(t) && LinkedAll(t, k0, p0) && x != t.node
    requires forall o | o in Nodes(Prune(t, x)) && o != p :: o in k0 && o in k1 && k1[o] == k0[o]
    requires p in k0 && p in k1 && 0 <= j < |k0[p]| && k0[p][j] == x && k1[p] == k0[p][j := null]
    requires x in p0 && p0[x] == p
    requires forall o | o in Nodes(Prune(t, x)) :: o in p0 && o in p1 && p1[o] == p0[o]
    ensures LinkedAll(Prune(t, x), k1, p1)
  {
    var r := Prune(t, x);
    PruneSubtrees(t, x);
    PruneNodes(t, x);
    forall s' | s' in Subtrees(r)
      ensures LinkedIn(s', k1, p1)
    {
      var s :| s in Subtrees(t) && s' == Prune(s, x);
      assert LinkedIn(s, k0, p0);
      assert Nodes(s') <= Nodes(r);
      assert s.node in Nodes(s');
      SubtreeUnique(t, s);
      PruneLinkedSub(s, x, p, j, k0, p0, k1, p1);
    }
  }

  /** RemoveChild on a node of the road keeps the road a tree. The heap change is the one
      RemoveChild makes when it detaches `x` from slot `j` of its parent `p`: the slot is
      now null, `x`'s parent is null, and no other object of the road changed. Afterwards
      `x` and its subtree are no longer part of the road, and `p` still is. */
  twostate lemma {:induction false} PruneRepresents(t: Tree, new x: Node, new p: Node, new j: int)
    requires old(allocated(Repr(t))) && old(Represents(t))
    requires x in Nodes(t) && x != t.node
    requires p in Nodes(t) && 0 <= j < p.children.Length && old(p.children[j]) == x
    requires p.children[..] == old(p.children[..])[j := null]
    requires x.parent == null
    requires unchanged(Nodes(t) - {x}) && unchanged(Arrays(t) - {p.children})
    ensures Represents(Prune(t, x))
    ensures Nodes(Prune(t, x)) <= Nodes(t)
    ensures x !in Nodes(Prune(t, x)) && p in Nodes(Prune(t, x))
  {
    var k0, p0 := Snapshots(t, p, {x});
    PruneAfter(t, x, p, j, k0, p0);
  }

  /** The single-state half of PruneRepresents: the heap now differs from the snapshots
      `k0` and `p0` of the road by the cut alone. */
  lemma {:induction false} PruneAfter(t: Tree, x: Node, p: Node, j: int, k0: map<Node, seq<Node?>>, p0: map<Node, Node?>)
    requires SnapshotOf(t, p, {x}, k0, p0)
    requires x in Nodes(t) && x != t.node
    requires 0 <= j < |k0[p]| && k0[p][j] == x && p.children[..] == k0[p][j := null]
    ensures Represents(Prune(t, x))
    ensures Nodes(Prune(t, x)) <= Nodes(t)
    ensures x !in Nodes(Prune(t, x)) && p in Nodes(Prune(t, x))
  {
    var r := Prune(t, x);
    NodeHasSubtree(t, p);
    var sp :| sp in Subtrees(t) && sp.node == p;
    assert LinkedIn(sp, k0, p0);
    assert sp.slots[j].Full? && sp.slots[j].tree.node == x;
    assert x in p0 && p0[x] == p;
    PruneNodes(t, x);
    PruneUnique(t, x);
    PruneKeepsParent(t, x, sp, j);
    var ns := Nodes(r);
    PruneMaps(t, x, p, j, k0, p0, ns);
    PruneLinkedAll(t, x, p, j, k0, p0, Kids(ns), Parents(ns));
  }

  /** On the nodes left after the cut, the heap agrees with the snapshots except for the
      freed slot of `p`. */
  lemma {:induction false} PruneMaps(t: Tree, x: Node, p: Node, j: int,
                                     k0: map<Node, seq<Node?>>, p0: map<Node, Node?>, ns: set<Node>)
    requires SnapshotOf(t, p, {x}, k0, p0)
    requires ns <= Nodes(t) && x !in ns && p in ns
    requires 0 <= j < |k0[p]| && p.children[..] == k0[p][j := null]
    ensures forall o | o in ns && o != p :: o in k0 && o in Kids(ns) && Kids(ns)[o] == k0[o]
    ensures p in k0 && p in Kids(ns) && Kids(ns)[p] == k0[p][j := null]
    ensures forall o | o in ns :: o in p0 && o in Parents(ns) && Parents(ns)[o] == p0[o]
    ensures ArraysDistinct(ns)
  {
  }
}
