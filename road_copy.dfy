/** The breadth-first deep copy of RoadMeshCreator.CopyRoad (Assets/Scripts/RoadMeshCreator.cs),
    stated on snapshots of the heap.

    `kids` records, for every node of the original road, what its children array holds;
    the copy never writes to the original, so the snapshot stays exact for the whole
    copy. The progress of the copy is described by the map `m` from each original node
    reached so far to its clone, by `ck` and `cp`, what each clone's children array and
    parent hold, by the set `done` of nodes whose clone has been dequeued and processed,
    and by the queue `pending` of nodes whose clone waits in the queue. */
module RoadCopy {
  import opened Segments
  import opened RoadTree

  /** Facts about a snapshot of a represented road: every node has its kind's number of
      slots, a child is a node of the road other than the root, and a node sits in at
      most one slot of at most one parent. */
  ghost predicate Snap(ns: set<Node>, root: Node, kids: map<Node, seq<Node?>>) {
    && root in ns
    && (forall o | o in ns :: o in kids && |kids[o]| == Arity(o.kind))
    && (forall o, j | o in ns && 0 <= j < |kids[o]| && kids[o][j] != null ::
          kids[o][j] in ns && kids[o][j] != root)
    && (forall o1, j1, o2, j2 |
          && o1 in ns && o2 in ns && 0 <= j1 < |kids[o1]| && 0 <= j2 < |kids[o2]|
          && kids[o1][j1] != null && kids[o1][j1] == kids[o2][j2] ::
          o1 == o2 && j1 == j2)
  }

  /** A subtree rooted at a given node of the tree. */
  lemma SubtreeAt(t: Tree, o: Node) returns (s: Tree)
    requires o in Nodes(t)
    ensures s in Subtrees(t) && s.node == o
  {
    NodeHasSubtree(t, o);
    s :| s in Subtrees(t) && s.node == o;
  }

  /** A snapshot that the road's links agree with has the facts of Snap. */
  lemma SnapOfLinked(t: Tree, kids: map<Node, seq<Node?>>, parents: map<Node, Node?>)
    requires Unique(t) && LinkedAll(t, kids, parents)
    ensures Snap(Nodes(t), t.node, kids)
  {
    forall o | o in Nodes(t) ensures o in kids && |kids[o]| == Arity(o.kind) {
      var s := SubtreeAt(t, o);
      assert LinkedIn(s, kids, parents);
    }
    forall o, j | o in Nodes(t) && 0 <= j < |kids[o]| && kids[o][j] != null
      ensures kids[o][j] in Nodes(t) && kids[o][j] != t.node
    {
      KidInRoad(t, kids, parents, o, j);
    }
    forall o1, j1, o2, j2 |
      && o1 in Nodes(t) && o2 in Nodes(t) && 0 <= j1 < |kids[o1]| && 0 <= j2 < |kids[o2]|
      && kids[o1][j1] != null && kids[o1][j1] == kids[o2][j2]
      ensures o1 == o2 && j1 == j2
    {
      OneSlotEach(t, kids, parents, o1, j1, o2, j2);
    }
  }

  lemma KidInRoad(t: Tree, kids: map<Node, seq<Node?>>, parents: map<Node, Node?>, o: Node, j: int)
    requires Unique(t) && LinkedAll(t, kids, parents)
    requires o in Nodes(t) && o in kids && 0 <= j < |kids[o]| && kids[o][j] != null
    ensures kids[o][j] in Nodes(t) && kids[o][j] != t.node
  {
    var s := SubtreeAt(t, o);
    assert LinkedIn(s, kids, parents);
    assert kids[o][j] == s.slots[j].tree.node;
    assert kids[o][j] in KidNodes(s);
    RootIsNoChild(t, s);
  }

  lemma OneSlotEach(t: Tree, kids: map<Node, seq<Node?>>, parents: map<Node, Node?>,
                    o1: Node, j1: int, o2: Node, j2: int)
    requires Unique(t) && LinkedAll(t, kids, parents)
    requires o1 in Nodes(t) && o2 in Nodes(t) && o1 in kids && o2 in kids
    requires 0 <= j1 < |kids[o1]| && 0 <= j2 < |kids[o2]|
    requires kids[o1][j1] != null && kids[o1][j1] == kids[o2][j2]
    ensures o1 == o2 && j1 == j2
  {
    var s1 := SubtreeAt(t, o1);
    var s2 := SubtreeAt(t, o2);
    assert LinkedIn(s1, kids, parents) && LinkedIn(s2, kids, parents);
    var c := kids[o1][j1];
    assert c == s1.slots[j1].tree.node && parents[c] == o1;
    assert c == s2.slots[j2].tree.node && parents[c] == o2;
    SubtreeUnique(t, s1);
  }

  /** A set that holds the root and every snapshot child of its members holds the road. */
  lemma {:induction false} SnapCover(t: Tree, kids: map<Node, seq<Node?>>, parents: map<Node, Node?>, c: set<Node>)
    requires LinkedAll(t, kids, parents)
    requires t.node in c
    requires forall o, j | o in c && o in kids && 0 <= j < |kids[o]| && kids[o][j] != null :: kids[o][j] in c
    ensures Nodes(t) <= c
  {
    assert LinkedIn(t, kids, parents);
    forall j | 0 <= j < |t.slots| && t.slots[j].Full?
      ensures Nodes(t.slots[j].tree) <= c
    {
      assert kids[t.node][j] == t.slots[j].tree.node;
      assert Subtrees(t.slots[j].tree) <= Subtrees(t);
      SnapCover(t.slots[j].tree, kids, parents, c);
    }
  }

  /** Slots 0 .. upto - 1 of `o`'s clone mirror `o`'s: an empty slot stays empty, and a
      child's slot holds the child's clone, whose parent is `o`'s clone. */
  ghost predicate Mirrored(o: Node, kids: map<Node, seq<Node?>>, m: map<Node, Node>,
                           ck: map<Node, seq<Node?>>, cp: map<Node, Node?>, upto: int)
  {
    && o in kids && o in ck && o in m && |ck[o]| == |kids[o]| && upto <= |kids[o]|
    && forall j | 0 <= j < upto ::
         && (kids[o][j] == null ==> ck[o][j] == null)
         && (kids[o][j] != null ==>
               kids[o][j] in m && ck[o][j] == m[kids[o][j]]
               && kids[o][j] in cp && cp[kids[o][j]] == m[o])
  }

  /** The nodes reached are nodes of the road, among them the root and `p`, which is not
      yet processed; a reached child sits in a slot already copied: one of a processed
      node, or one of `p`'s before i. */
  ghost predicate Reached(ns: set<Node>, root: Node, kids: map<Node, seq<Node?>>, m: map<Node, Node>,
                          done: set<Node>, p: Node, i: int)
  {
    && m.Keys <= ns && root in m && p in m && p !in done && p in kids && 0 <= i <= |kids[p]|
    && forall o, j | o in ns && o in kids && 0 <= j < |kids[o]| && kids[o][j] != null && kids[o][j] in m ::
         o in done || (o == p && j < i)
  }

  /** Each reached node is processed, current, or queued once. */
  ghost predicate Queued(m: map<Node, Node>, done: set<Node>, p: Node, pending: seq<Node>) {
    && m.Keys == done + {p} + Elems(pending)
    && (forall k | 0 <= k < |pending| :: pending[k] !in done && pending[k] != p)
    && NoDup(pending)
  }

  /** Each reached node has its snapshot, its clone's children and its clone's parent. */
  ghost predicate Tables(kids: map<Node, seq<Node?>>, m: map<Node, Node>,
                         ck: map<Node, seq<Node?>>, cp: map<Node, Node?>)
  {
    forall o | o in m :: o in kids && o in ck && o in cp && |ck[o]| == |kids[o]|
  }

  /** Every processed node's clone mirrors it. */
  ghost predicate AllMirrored(done: set<Node>, kids: map<Node, seq<Node?>>, m: map<Node, Node>,
                              ck: map<Node, seq<Node?>>, cp: map<Node, Node?>)
  {
    forall o | o in done :: o in kids && Mirrored(o, kids, m, ck, cp, |kids[o]|)
  }

  /** The clones not yet processed, and the slots from i on of `p`'s, still hold the
      original's children. */
  ghost predicate Untouched(kids: map<Node, seq<Node?>>, m: map<Node, Node>, ck: map<Node, seq<Node?>>,
                            done: set<Node>, p: Node, i: int)
  {
    && p in kids && p in ck && |ck[p]| == |kids[p]|
    && (forall j | 0 <= i <= j < |kids[p]| :: ck[p][j] == kids[p][j])
    && (forall o | o in m && o !in done && o != p :: o in kids && o in ck && ck[o] == kids[o])
  }

  /** Between two nodes of the copy: the nodes reached are nodes of the road, among them
      the root, and a reached child sits in a slot of a processed node; each reached node
      is processed or queued, once; a processed
      node's clone mirrors it, and a queued node's clone still holds the original's
      children. */
  ghost predicate Copying(ns: set<Node>, root: Node, kids: map<Node, seq<Node?>>, m: map<Node, Node>,
                          ck: map<Node, seq<Node?>>, cp: map<Node, Node?>,
                          done: set<Node>, pending: seq<Node>)
  {
    && m.Keys <= ns && root in m
    && m.Keys == done + Elems(pending)
    && (forall k | 0 <= k < |pending| :: pending[k] !in done)
    && NoDup(pending)
    && (forall o, j | o in ns && o in kids && 0 <= j < |kids[o]| && kids[o][j] != null && kids[o][j] in m ::
          o in done)
    && Tables(kids, m, ck, cp)
    && AllMirrored(done, kids, m, ck, cp)
    && (forall o | o in m && o !in done :: ck[o] == kids[o])
  }

  /** While node p, dequeued, has its slots before i copied. */
  ghost predicate CopyingAt(ns: set<Node>, root: Node, kids: map<Node, seq<Node?>>, m: map<Node, Node>,
                            ck: map<Node, seq<Node?>>, cp: map<Node, Node?>,
                            done: set<Node>, p: Node, i: int, pending: seq<Node>)
  {
    && Reached(ns, root, kids, m, done, p, i)
    && Queued(m, done, p, pending)
    && Tables(kids, m, ck, cp)
    && AllMirrored(done, kids, m, ck, cp)
    && Mirrored(p, kids, m, ck, cp, i)
    && Untouched(kids, m, ck, done, p, i)
  }

  /** The copy starts with the root's clone queued. */
  lemma CopyStart(ns: set<Node>, root: Node, kids: map<Node, seq<Node?>>, r: Node, rp: Node?)
    requires Snap(ns, root, kids)
    ensures Copying(ns, root, kids, map[root := r], map[root := kids[root]], map[root := rp], {}, [root])
  {
    assert Elems([root]) == {root};
  }

  /** Dequeuing the next node. */
  lemma CopyDequeue(ns: set<Node>, root: Node, kids: map<Node, seq<Node?>>, m: map<Node, Node>,
                    ck: map<Node, seq<Node?>>, cp: map<Node, Node?>, done: set<Node>, pending: seq<Node>)
    requires Copying(ns, root, kids, m, ck, cp, done, pending) && |pending| > 0
    ensures CopyingAt(ns, root, kids, m, ck, cp, done, pending[0], 0, pending[1..])
  {
    var p := pending[0];
    assert pending == [p] + pending[1..];
    assert Elems(pending) == {p} + Elems(pending[1..]);
    forall k | 0 <= k < |pending[1..]| ensures pending[1..][k] != p {
      assert pending[1..][k] == pending[k + 1];
    }
  }

  /** An empty slot of the current node: nothing to copy. */
  lemma CopySkip(ns: set<Node>, root: Node, kids: map<Node, seq<Node?>>, m: map<Node, Node>,
                 ck: map<Node, seq<Node?>>, cp: map<Node, Node?>, done: set<Node>, p: Node, i: int,
                 pending: seq<Node>)
    requires CopyingAt(ns, root, kids, m, ck, cp, done, p, i, pending)
    requires i < |kids[p]| && kids[p][i] == null
    ensures CopyingAt(ns, root, kids, m, ck, cp, done, p, i + 1, pending)
  {
  }

  /** The child in slot i of the current node was not reached before, and reaching it
      extends the reached nodes by one slot. */
  lemma ReachedChild(ns: set<Node>, root: Node, kids: map<Node, seq<Node?>>, m: map<Node, Node>,
                     done: set<Node>, p: Node, i: int, c: Node, x: Node)
    requires Snap(ns, root, kids)
    requires Reached(ns, root, kids, m, done, p, i) && done <= ns
    requires i < |kids[p]| && kids[p][i] == c
    ensures c in ns && c in kids && c !in m
    ensures Reached(ns, root, kids, m[c := x], done, p, i + 1)
  {
    forall o, j | o in ns && o in kids && 0 <= j < |kids[o]| && kids[o][j] != null && kids[o][j] in m[c := x]
      ensures o in done || (o == p && j < i + 1)
    {
      if kids[o][j] == c {
        assert o == p && j == i;
      }
    }
  }

  /** The clones' children after the clone `x` of `c` takes slot i of `p`'s clone, `c`'s
      clone starting with `row`. */
  ghost function Relink(ck: map<Node, seq<Node?>>, p: Node, i: int, x: Node, c: Node, row: seq<Node?>)
    : map<Node, seq<Node?>>
    requires p in ck && 0 <= i < |ck[p]|
  {
    ck[p := ck[p][i := x]][c := row]
  }

  /** The child in slot i of the current node is an original not reached before. */
  lemma ChildUnreached(ns: set<Node>, root: Node, kids: map<Node, seq<Node?>>, m: map<Node, Node>,
                       ck: map<Node, seq<Node?>>, cp: map<Node, Node?>, done: set<Node>, p: Node, i: int,
                       pending: seq<Node>, c: Node)
    requires Snap(ns, root, kids)
    requires CopyingAt(ns, root, kids, m, ck, cp, done, p, i, pending)
    requires i < |kids[p]| && kids[p][i] == c
    ensures c in ns && c !in m
  {
    ReachedChild(ns, root, kids, m, done, p, i, c, c);
  }

  /** A child in slot i of the current node: its clone `x` is recorded, queued, written into
      slot i of the current clone, and given the current clone as parent. */
  lemma CopyChild(ns: set<Node>, root: Node, kids: map<Node, seq<Node?>>, m: map<Node, Node>,
                  ck: map<Node, seq<Node?>>, cp: map<Node, Node?>, done: set<Node>, p: Node, i: int,
                  pending: seq<Node>, c: Node, x: Node)
    requires Snap(ns, root, kids)
    requires CopyingAt(ns, root, kids, m, ck, cp, done, p, i, pending)
    requires i < |kids[p]| && kids[p][i] == c
    ensures c in kids && c !in m
    ensures CopyingAt(ns, root, kids, m[c := x], Relink(ck, p, i, x, c, kids[c]), cp[c := m[p]],
                      done, p, i + 1, pending + [c])
  {
    ReachedChild(ns, root, kids, m, done, p, i, c, x);
    PendingAppend(m, pending, c, done, p, x);
    TablesChild(kids, m, ck, cp, p, i, c, x);
    AllMirroredChild(done, kids, m, ck, cp, p, i, c, x);
    MirroredAdvance(p, kids, m, ck, cp, i, c, x);
    UntouchedChild(kids, m, ck, done, p, i, c, x);
  }

  lemma TablesChild(kids: map<Node, seq<Node?>>, m: map<Node, Node>, ck: map<Node, seq<Node?>>,
                    cp: map<Node, Node?>, p: Node, i: int, c: Node, x: Node)
    requires Tables(kids, m, ck, cp) && p in m && 0 <= i < |ck[p]| && c in kids
    ensures Tables(kids, m[c := x], ck[p := ck[p][i := x]][c := kids[c]], cp[c := m[p]])
  {
  }

  lemma AllMirroredChild(done: set<Node>, kids: map<Node, seq<Node?>>, m: map<Node, Node>,
                         ck: map<Node, seq<Node?>>, cp: map<Node, Node?>, p: Node, i: int, c: Node, x: Node)
    requires AllMirrored(done, kids, m, ck, cp) && p !in done && p in ck && 0 <= i < |ck[p]|
    requires c !in m && c in kids && p in m
    ensures AllMirrored(done, kids, m[c := x], ck[p := ck[p][i := x]][c := kids[c]], cp[c := m[p]])
  {
    forall o | o in done
      ensures o in kids && Mirrored(o, kids, m[c := x], ck[p := ck[p][i := x]][c := kids[c]], cp[c := m[p]], |kids[o]|)
    {
      MirroredGrow(o, kids, m, ck, cp, |kids[o]|, c, x, m[p], p, ck[p][i := x]);
    }
  }

  lemma UntouchedChild(kids: map<Node, seq<Node?>>, m: map<Node, Node>, ck: map<Node, seq<Node?>>,
                       done: set<Node>, p: Node, i: int, c: Node, x: Node)
    requires Untouched(kids, m, ck, done, p, i) && 0 <= i < |kids[p]| && c in kids && c != p
    ensures Untouched(kids, m[c := x], ck[p := ck[p][i := x]][c := kids[c]], done, p, i + 1)
  {
  }

  /** Queuing a node not reached before keeps the queue free of repeats and of processed
      nodes. */
  lemma PendingAppend(m: map<Node, Node>, pending: seq<Node>, c: Node, done: set<Node>, p: Node, x: Node)
    requires Queued(m, done, p, pending) && c !in m
    ensures Queued(m[c := x], done, p, pending + [c])
  {
    var q := pending + [c];
    assert Elems(q) == Elems(pending) + {c};
    forall a, b | 0 <= a < b < |q| ensures q[a] != q[b] {
      assert q[a] == pending[a] && pending[a] in Elems(pending);
    }
    forall k | 0 <= k < |q| ensures q[k] !in done && q[k] != p {
      if k < |pending| {
        assert q[k] == pending[k];
      }
    }
  }

  /** Adding a clone for a node not yet reached keeps a node other than the current one
      mirrored. */
  lemma MirroredGrow(o: Node, kids: map<Node, seq<Node?>>, m: map<Node, Node>,
                     ck: map<Node, seq<Node?>>, cp: map<Node, Node?>, upto: int, c: Node, x: Node, cur: Node,
                     p: Node, row: seq<Node?>)
    requires Mirrored(o, kids, m, ck, cp, upto) && c !in m && c in kids && o != p
    ensures Mirrored(o, kids, m[c := x], ck[p := row][c := kids[c]], cp[c := cur], upto)
  {
  }

  /** Mirroring slot i of the current node `p` after its child `c` got clone `x`. */
  lemma MirroredAdvance(p: Node, kids: map<Node, seq<Node?>>, m: map<Node, Node>,
                        ck: map<Node, seq<Node?>>, cp: map<Node, Node?>, i: int, c: Node, x: Node)
    requires Mirrored(p, kids, m, ck, cp, i) && c !in m
    requires 0 <= i < |kids[p]| && kids[p][i] == c && c in kids
    ensures Mirrored(p, kids, m[c := x], ck[p := ck[p][i := x]][c := kids[c]], cp[c := m[p]], i + 1)
  {
  }

  /** All slots of the current node copied: it joins the processed nodes. */
  lemma CopyFinish(ns: set<Node>, root: Node, kids: map<Node, seq<Node?>>, m: map<Node, Node>,
                   ck: map<Node, seq<Node?>>, cp: map<Node, Node?>, done: set<Node>, p: Node,
                   pending: seq<Node>)
    requires p in kids
    requires CopyingAt(ns, root, kids, m, ck, cp, done, p, |kids[p]|, pending)
    ensures Copying(ns, root, kids, m, ck, cp, done + {p}, pending)
  {
  }

  /** With the queue empty every node of the road has a clone that mirrors it. */
  lemma CopyDone(t: Tree, kids: map<Node, seq<Node?>>, parents: map<Node, Node?>, m: map<Node, Node>,
                 ck: map<Node, seq<Node?>>, cp: map<Node, Node?>, done: set<Node>)
    requires Unique(t) && LinkedAll(t, kids, parents)
    requires Copying(Nodes(t), t.node, kids, m, ck, cp, done, [])
    ensures m.Keys == Nodes(t) == done
    ensures forall o | o in Nodes(t) :: o in kids && Mirrored(o, kids, m, ck, cp, |kids[o]|)
  {
    assert Elems([]) == {};
    forall o, j | o in done && o in kids && 0 <= j < |kids[o]| && kids[o][j] != null
      ensures kids[o][j] in done
    {
      assert Mirrored(o, kids, m, ck, cp, |kids[o]|);
    }
    SnapCover(t, kids, parents, done);
  }

  /** When the heap holds the snapshots (the originals' children arrays are `kids`, the
      clones' are `ck` and their parents `cp`) and every node is mirrored, the clones carry
      the links of the originals. */
  lemma MirrorsFromSnapshots(ns: set<Node>, kids: map<Node, seq<Node?>>, m: map<Node, Node>,
                             ck: map<Node, seq<Node?>>, cp: map<Node, Node?>)
    requires forall o | o in ns :: o in kids && o.children[..] == kids[o]
    requires forall o | o in m :: o in ck && o in cp && m[o].children[..] == ck[o] && m[o].parent == cp[o]
    requires forall o | o in ns :: o in m && Mirrored(o, kids, m, ck, cp, |kids[o]|) && m[o].kind == o.kind
    requires forall a, b | a in ns && b in ns && a != b :: m[a] != m[b]
    ensures MirrorsLinks(ns, m)
  {
    forall o | o in ns ensures m[o].children.Length == o.children.Length {
      assert |ck[o]| == |kids[o]|;
    }
    forall o, i | o in ns && 0 <= i < o.children.Length
      ensures o.children[i] == null ==> m[o].children[i] == null
      ensures o.children[i] != null ==>
                && o.children[i] in m
                && m[o].children[i] == m[o.children[i]]
                && m[o.children[i]].parent == m[o]
    {
      assert o.children[i] == kids[o][i];
      assert m[o].children[i] == ck[o][i];
    }
  }

  /** The heap holds the originals' snapshot: each original's children array is `kids`. */
  ghost predicate OriginalsHeld(ns: set<Node>, kids: map<Node, seq<Node?>>)
    reads set o | o in ns :: o.children
  {
    forall o | o in ns :: o in kids && o.children[..] == kids[o] && |kids[o]| == Arity(o.kind)
  }

  /** The heap holds the clones' snapshot: each clone's children array is `ck`, its parent
      `cp`. */
  ghost predicate ClonesHeld(m: map<Node, Node>, ck: map<Node, seq<Node?>>, cp: map<Node, Node?>)
    reads m.Values, set o | o in m :: m[o].children
  {
    forall o | o in m :: o in ck && o in cp && m[o].children[..] == ck[o] && m[o].parent == cp[o]
  }

  /** Distinct originals have distinct clones, with distinct children arrays, none of them
      an original's. */
  ghost predicate ClonesApart(ns: set<Node>, m: map<Node, Node>) {
    && (forall a, b | a in m && b in m && a != b :: m[a] != m[b] && m[a].children != m[b].children)
    && (forall a, b | a in m && b in ns :: m[a].children != b.children)
  }

  /** The heap state the copy works on: both snapshots held, the clones apart. */
  ghost predicate Held(ns: set<Node>, kids: map<Node, seq<Node?>>, m: map<Node, Node>,
                       ck: map<Node, seq<Node?>>, cp: map<Node, Node?>)
    reads m.Values, set o | o in ns :: o.children, set o | o in m :: m[o].children
  {
    OriginalsHeld(ns, kids) && ClonesHeld(m, ck, cp) && ClonesApart(ns, m)
  }

  /** A new clone `x` whose node and array are unlike any recorded keeps the clones apart. */
  lemma ApartGrow(ns: set<Node>, m: map<Node, Node>, c: Node, x: Node)
    requires ClonesApart(ns, m) && c !in m
    requires forall o | o in m :: m[o] != x && m[o].children != x.children
    requires forall b | b in ns :: b.children != x.children
    ensures ClonesApart(ns, m[c := x])
  {
  }

  /** Queuing the clone `x` of a node `c` not reached before keeps the queue the clones
      of the pending nodes. */
  lemma QueueGrows(queue: seq<Node>, rest: seq<Node>, m: map<Node, Node>, c: Node, x: Node)
    requires |queue| == |rest| && forall k | 0 <= k < |queue| :: rest[k] in m && queue[k] == m[rest[k]]
    requires c !in m
    ensures forall k | 0 <= k < |queue| + 1 :: (rest + [c])[k] in m[c := x] && (queue + [x])[k] == m[c := x][(rest + [c])[k]]
  {
    forall k | 0 <= k < |queue| + 1
      ensures (rest + [c])[k] in m[c := x] && (queue + [x])[k] == m[c := x][(rest + [c])[k]]
    {
      if k < |queue| {
        assert (rest + [c])[k] == rest[k] && (queue + [x])[k] == queue[k];
      }
    }
  }

  /** Adding a node not reached before keeps the earlier clones and their parents. */
  lemma KeepsEarlier(m: map<Node, Node>, cp: map<Node, Node?>, m': map<Node, Node>, cp': map<Node, Node?>,
                     c: Node, x: Node, cur: Node)
    requires forall o | o in m :: o in cp && o in m' && m'[o] == m[o] && o in cp' && cp'[o] == cp[o]
    requires c !in m'
    ensures forall o | o in m :: o in m'[c := x] && m'[c := x][o] == m[o] && o in cp'[c := cur] && cp'[c := cur][o] == cp[o]
  {
  }

  /** Every recorded copy carries the values of its original. */
  ghost predicate AllClones(m: map<Node, Node>)
    reads (m.Keys + m.Values)`startPoint, (m.Keys + m.Values)`endPoint, (m.Keys + m.Values)`length
    reads (m.Keys + m.Values)`pitch, (m.Keys + m.Values)`roll, (m.Keys + m.Values)`yaw
    reads (m.Keys + m.Values)`centerLeft, (m.Keys + m.Values)`centerRight
    reads (m.Keys + m.Values)`centerLeftYaw, (m.Keys + m.Values)`centerRightYaw
    reads (m.Keys + m.Values)`midPoint, (m.Keys + m.Values)`startRoll, (m.Keys + m.Values)`endRoll
    reads (m.Keys + m.Values)`angle, (m.Keys + m.Values)`radius
    reads (m.Keys + m.Values)`startYaw, (m.Keys + m.Values)`endYaw
  {
    forall o | o in m :: IsCloneOf(m[o], o)
  }

  /** The clones recorded keep being clones of their originals when `x`, a clone of `c`,
      is added. */
  lemma ClonesGrow(m: map<Node, Node>, c: Node, x: Node)
    requires AllClones(m) && IsCloneOf(x, c)
    ensures AllClones(m[c := x])
  {
  }

  /** The queue holds the clones of the pending nodes, in order. */
  ghost predicate QueueHolds(queue: seq<Node>, pending: seq<Node>, m: map<Node, Node>) {
    |queue| == |pending| && forall k | 0 <= k < |queue| :: pending[k] in m && queue[k] == m[pending[k]]
  }

  /** Finishing a node not finished before leaves fewer nodes to finish. */
  lemma FinishShrinks(ns: set<Node>, done: set<Node>, p: Node)
    requires p in ns - done
    ensures |ns - (done + {p})| < |ns - done|
  {
    assert ns - done == (ns - (done + {p})) + {p};
  }

  /** Taking the head of a queue of clones leaves a queue of clones. */
  lemma QueueDequeue(queue: seq<Node>, pending: seq<Node>, m: map<Node, Node>)
    requires QueueHolds(queue, pending, m) && |queue| > 0
    ensures pending[0] in m && queue[0] == m[pending[0]] && QueueHolds(queue[1..], pending[1..], m)
  {
    forall k | 0 <= k < |queue| - 1 ensures pending[1..][k] in m && queue[1..][k] == m[pending[1..][k]] {
      assert pending[1..][k] == pending[k + 1] && queue[1..][k] == queue[k + 1];
    }
  }

  /** `m` and `cp` keep every entry of `m0` and `cp0`. */
  ghost predicate Extends(m0: map<Node, Node>, cp0: map<Node, Node?>, m: map<Node, Node>, cp: map<Node, Node?>) {
    forall o | o in m0 :: o in cp0 && o in m && m[o] == m0[o] && o in cp && cp[o] == cp0[o]
  }

  /** The state of the copy while the slots of `p` are visited, from the state `m0`,
      `cp0` it started them in. */
  ghost predicate Slots(ns: set<Node>, root: Node, kids: map<Node, seq<Node?>>,
                        m0: map<Node, Node>, cp0: map<Node, Node?>,
                        m: map<Node, Node>, ck: map<Node, seq<Node?>>, cp: map<Node, Node?>,
                        done: set<Node>, p: Node, i: int, pending: seq<Node>, queue: seq<Node>)
  {
    && CopyingAt(ns, root, kids, m, ck, cp, done, p, i, pending)
    && QueueHolds(queue, pending, m)
    && Extends(m0, cp0, m, cp)
  }

  /** Visiting slot i of `p` when it holds the child `c`, whose clone `x` is queued. */
  lemma SlotCopied(ns: set<Node>, root: Node, kids: map<Node, seq<Node?>>,
                   m0: map<Node, Node>, cp0: map<Node, Node?>,
                   m: map<Node, Node>, ck: map<Node, seq<Node?>>, cp: map<Node, Node?>,
                   done: set<Node>, p: Node, i: int, pending: seq<Node>, queue: seq<Node>, c: Node, x: Node)
    requires Snap(ns, root, kids)
    requires Slots(ns, root, kids, m0, cp0, m, ck, cp, done, p, i, pending, queue)
    requires i < |kids[p]| && kids[p][i] == c
    ensures Slots(ns, root, kids, m0, cp0, m[c := x], Relink(ck, p, i, x, c, kids[c]), cp[c := m[p]],
                  done, p, i + 1, pending + [c], queue + [x])
  {
    CopyChild(ns, root, kids, m, ck, cp, done, p, i, pending, c, x);
    QueueGrows(queue, pending, m, c, x);
    KeepsEarlier(m0, cp0, m, cp, c, x, m[p]);
  }

  /** Visiting an empty slot i of `p`. */
  lemma SlotSkipped(ns: set<Node>, root: Node, kids: map<Node, seq<Node?>>,
                    m0: map<Node, Node>, cp0: map<Node, Node?>,
                    m: map<Node, Node>, ck: map<Node, seq<Node?>>, cp: map<Node, Node?>,
                    done: set<Node>, p: Node, i: int, pending: seq<Node>, queue: seq<Node>)
    requires Slots(ns, root, kids, m0, cp0, m, ck, cp, done, p, i, pending, queue)
    requires i < |kids[p]| && kids[p][i] == null
    ensures Slots(ns, root, kids, m0, cp0, m, ck, cp, done, p, i + 1, pending, queue)
  {
    CopySkip(ns, root, kids, m, ck, cp, done, p, i, pending);
  }
}
