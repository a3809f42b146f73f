/**
 * The per-face passes the level-of-detail manager runs every frame: the
 * breadth-first merge pass, the breadth-first split pass and the pass that
 * sets the edge-smoothing flags of the leaves.
 *
 * The split decision compares a camera distance with a node size, both
 * computed in floating point from the face and the node's code; with the
 * camera fixed it is a predicate `P(face, code)` and is taken here as a
 * parameter. The edge-smoothing decisions likewise become a parameter
 * `Coarse(face, parentCode, side)`.
 *
 * The split guard tests the node's code level, not the stored level field
 * the original reads (see AsWrittenMaySplit below).
 */
module LodPasses {
  import opened Wrappers
  import opened NodeCode
  import opened QuadTree

  // ---------------------------------------------------------------------------
  // The shape of a pass's outcome

  /** Every internal node of the tree wants to be split. */
  ghost predicate InternalsSatisfy(ns: seq<QuadNode>, face: nat, P: (nat, bv32) -> bool)
  {
    forall e | 0 <= e < |ns| && InTree(ns, e) && ns[e].children.Some? :: P(face, ns[e].code)
  }

  /** No leaf of the tree both wants and is allowed to be split. */
  ghost predicate LeavesSettled(ns: seq<QuadNode>, face: nat, P: (nat, bv32) -> bool)
  {
    forall e | 0 <= e < |ns| && InTree(ns, e) && ns[e].children.None? ::
      !(P(face, ns[e].code) && Level(ns[e].code) < MAX_LEVEL)
  }

  /**
   * The merge pass adds no node and changes no code, parent or flag; it only
   * drops the child lists of nodes that do not want to be split.
   */
  ghost predicate MergeOutcome(ns0: seq<QuadNode>, ns: seq<QuadNode>, face: nat, P: (nat, bv32) -> bool)
  {
    |ns| == |ns0|
    && forall j | 0 <= j < |ns| ::
         ns[j].code == ns0[j].code && ns[j].parent == ns0[j].parent && ns[j].flags == ns0[j].flags
         && (ns[j].children == ns0[j].children || (ns[j].children.None? && !P(face, ns[j].code)))
  }

  /**
   * The split pass only appends nodes, each with flags 0; old nodes keep
   * their code, parent, flags and child lists, except that leaves may gain
   * children; every node that became internal wants to be split and is below
   * the last level.
   */
  ghost predicate SplitOutcome(ns0: seq<QuadNode>, ns: seq<QuadNode>, face: nat, P: (nat, bv32) -> bool)
  {
    |ns0| <= |ns|
    && (forall j | 0 <= j < |ns0| ::
          ns[j].code == ns0[j].code && ns[j].parent == ns0[j].parent && ns[j].flags == ns0[j].flags
          && (ns0[j].children.Some? ==> ns[j].children == ns0[j].children))
    && (forall j | |ns0| <= j < |ns| :: ns[j].flags == 0)
    && (forall j | 0 <= j < |ns| && ns[j].children.Some? && (j >= |ns0| || ns0[j].children.None?) ::
          P(face, ns[j].code) && Level(ns[j].code) < MAX_LEVEL)
  }

  /** Every node of the old tree is still in the tree. */
  ghost predicate KeepsNodes(ns0: seq<QuadNode>, ns: seq<QuadNode>)
    requires |ns0| <= |ns|
  {
    forall e | 0 <= e < |ns0| && InTree(ns0, e) :: InTree(ns, e)
  }

  // ---------------------------------------------------------------------------
  // The work measure of a breadth-first queue

  /** One more than four times the weight of the next level: bounds the visits a node at level `l` can still cause. */
  function Weight(l: bv32): (w: nat)
    ensures w >= 1
    decreases MAX_LEVEL as int - l as int
  {
    if l >= MAX_LEVEL then 1 else 1 + 4 * Weight(l + 1)
  }

  ghost predicate InArena(ns: seq<QuadNode>, queue: seq<nat>)
  {
    forall i | 0 <= i < |queue| :: queue[i] < |ns|
  }

  ghost function QueueWeight(ns: seq<QuadNode>, queue: seq<nat>): nat
    requires InArena(ns, queue)
  {
    if |queue| == 0 then 0 else Weight(Level(ns[queue[0]].code)) + QueueWeight(ns, queue[1..])
  }

  lemma {:induction false} QueueWeightAppend(ns: seq<QuadNode>, a: seq<nat>, b: seq<nat>)
    requires InArena(ns, a) && InArena(ns, b)
    ensures InArena(ns, a + b)
    ensures QueueWeight(ns, a + b) == QueueWeight(ns, a) + QueueWeight(ns, b)
  {
    if |a| > 0 {
      assert (a + b)[1..] == a[1..] + b;
      QueueWeightAppend(ns, a[1..], b);
    } else {
      assert a + b == b;
    }
  }

  lemma {:induction false} QueueWeightFrame(ns: seq<QuadNode>, ns': seq<QuadNode>, queue: seq<nat>)
    requires |ns| <= |ns'| && forall j | 0 <= j < |ns| :: ns'[j].code == ns[j].code
    requires InArena(ns, queue)
    ensures InArena(ns', queue)
    ensures QueueWeight(ns', queue) == QueueWeight(ns, queue)
  {
    if |queue| > 0 {
      QueueWeightFrame(ns, ns', queue[1..]);
    }
  }

  // ---------------------------------------------------------------------------
  // The breadth-first queue invariant

  /** No queued node is an ancestor of another. */
  ghost predicate Independent(ns: seq<QuadNode>, queue: seq<nat>)
  {
    forall a, b | 0 <= a < |queue| && 0 <= b < |queue| && a != b && queue[b] < |ns| :: !Above(ns, queue[a], queue[b])
  }

  /** Every queued node is in the tree, and none is an ancestor of another. */
  ghost predicate QueueOk(ns: seq<QuadNode>, queue: seq<nat>)
  {
    InArena(ns, queue) && (forall i | 0 <= i < |queue| :: InTree(ns, queue[i])) && Independent(ns, queue)
  }

  /** No queued node is `e` or an ancestor of `e`: the pass will not visit `e` again. */
  ghost predicate Uncovered(ns: seq<QuadNode>, queue: seq<nat>, e: nat)
    requires e < |ns|
  {
    forall i | 0 <= i < |queue| :: !Above(ns, queue[i], e)
  }

  /** Dequeuing keeps the queue invariant. */
  lemma DequeueOk(ns: seq<QuadNode>, queue: seq<nat>)
    requires QueueOk(ns, queue) && |queue| > 0
    ensures QueueOk(ns, queue[1..])
    ensures forall i | 0 <= i < |queue| - 1 :: queue[1..][i] == queue[i + 1]
    ensures forall i | 1 <= i < |queue| :: !Above(ns, queue[0], queue[i]) && !Above(ns, queue[i], queue[0])
  {
  }

  /** A node the rest of the queue does not cover, and the head does not cover, is not covered by the whole queue. */
  lemma UncoveredDequeue(ns: seq<QuadNode>, queue: seq<nat>, e: nat)
    requires e < |ns| && |queue| > 0 && Uncovered(ns, queue[1..], e) && !Above(ns, queue[0], e)
    ensures Uncovered(ns, queue, e)
  {
    forall i | 0 < i < |queue| ensures !Above(ns, queue[i], e) {
      assert queue[i] == queue[1..][i - 1];
    }
  }

  /** The four children of a node of the tree are in the tree, below it. */
  lemma ChildrenFacts(ns: seq<QuadNode>, q: nat)
    requires WellFormed(ns) && q < |ns| && InTree(ns, q) && ns[q].children.Some?
    ensures NodeOk(ns, q) && |ns[q].children.value| == 4
    ensures forall k | 0 <= k < 4 ::
              var c := ns[q].children.value[k];
              q < c < |ns| && ns[c].parent == Some(q) && InTree(ns, c) && Above(ns, q, c)
  {
    assert NodeOk(ns, q);
    var cs := ns[q].children.value;
    forall k | 0 <= k < 4
      ensures q < cs[k] < |ns| && ns[cs[k]].parent == Some(q) && InTree(ns, cs[k]) && Above(ns, q, cs[k])
    {
      ChildAttached(ns, q, k);
      AttachedTrans(ns, 0, q, cs[k]);
    }
  }

  /** The four children of an internal node are distinct. */
  lemma ChildrenDistinctHandles(ns: seq<QuadNode>, q: nat)
    requires q < |ns| && ns[q].children.Some? && NodeOk(ns, q)
    ensures forall j, k | 0 <= j < 4 && 0 <= k < 4 && j != k :: ns[q].children.value[j] != ns[q].children.value[k]
  {
    ChildrenDistinct(ns[q].code);
    assert ChildOk(ns, q, 0) && ChildOk(ns, q, 1) && ChildOk(ns, q, 2) && ChildOk(ns, q, 3);
  }

  /** The four children of an internal node are one level deeper, and weigh four times their level's weight. */
  lemma ChildrenLevels(ns: seq<QuadNode>, q: nat)
    requires q < |ns| && ns[q].children.Some? && NodeOk(ns, q)
    ensures InArena(ns, ns[q].children.value)
    ensures forall k | 0 <= k < 4 :: Level(ns[ns[q].children.value[k]].code) == Level(ns[q].code) + 1
    ensures QueueWeight(ns, ns[q].children.value) == 4 * Weight(Level(ns[q].code) + 1)
  {
    var cs := ns[q].children.value;
    forall k | 0 <= k < 4 ensures cs[k] < |ns| && Level(ns[cs[k]].code) == Level(ns[q].code) + 1 {
      assert ChildOk(ns, q, k);
      ChildLevel(ns[q].code, k);
    }
    QueueWeightFour(ns, cs, Level(ns[q].code) + 1);
  }

  /** The weight of four queued nodes at level `l`. */
  lemma QueueWeightFour(ns: seq<QuadNode>, cs: seq<nat>, l: bv32)
    requires |cs| == 4 && InArena(ns, cs) && forall i | 0 <= i < 4 :: Level(ns[cs[i]].code) == l
    ensures QueueWeight(ns, cs) == 4 * Weight(l)
  {
    var w := Weight(l);
    assert cs[3..][1..] == [];
    assert QueueWeight(ns, cs[3..]) == w;
    assert cs[2..][1..] == cs[3..];
    assert QueueWeight(ns, cs[2..]) == 2 * w;
    assert cs[1..][1..] == cs[2..];
    assert QueueWeight(ns, cs[1..]) == 3 * w;
  }

  /** Replacing the head of an independent queue by four distinct children of it keeps the queue independent. */
  lemma DescendIndependent(ns: seq<QuadNode>, queue: seq<nat>, cs: seq<nat>)
    requires InArena(ns, queue) && Independent(ns, queue) && |queue| > 0 && |cs| == 4
    requires forall k | 0 <= k < 4 :: queue[0] < cs[k] < |ns| && ns[cs[k]].parent == Some(queue[0]) && Above(ns, queue[0], cs[k])
    requires forall j, k | 0 <= j < 4 && 0 <= k < 4 && j != k :: cs[j] != cs[k]
    ensures Independent(ns, queue[1..] + cs)
  {
    var q := queue[0];
    var rest := queue[1..];
    var nq := rest + cs;
    forall a, b | 0 <= a < |nq| && 0 <= b < |nq| && a != b && nq[b] < |ns| ensures !Above(ns, nq[a], nq[b]) {
      if a < |rest| && b < |rest| {
        assert nq[a] == queue[a + 1] && nq[b] == queue[b + 1];
      } else if a < |rest| {
        DescendIndependentRestChild(ns, queue, nq[a], a + 1, nq[b]);
      } else if b < |rest| {
        assert nq[b] == queue[b + 1];
        if Above(ns, nq[a], nq[b]) {
          AboveTrans(ns, q, nq[a], nq[b]);
        }
      } else {
        assert nq[a] == cs[a - |rest|] && nq[b] == cs[b - |rest|];
        if Above(ns, nq[a], q) {
          AboveLe(ns, nq[a], q);
        }
      }
    }
  }

  /** A queued node other than the head is not above a child of the head. */
  lemma DescendIndependentRestChild(ns: seq<QuadNode>, queue: seq<nat>, x: nat, i: nat, y: nat)
    requires InArena(ns, queue) && Independent(ns, queue) && 0 < i < |queue| && x == queue[i]
    requires queue[0] < y < |ns| && ns[y].parent == Some(queue[0]) && Above(ns, queue[0], y)
    ensures !Above(ns, x, y)
  {
    assert !Above(ns, queue[0], x) && !Above(ns, x, queue[0]);
  }

  /** Replacing an internal node at the head of the queue by its children keeps the queue invariant and lowers the weight. */
  lemma DescendOk(ns: seq<QuadNode>, queue: seq<nat>)
    requires WellFormed(ns) && QueueOk(ns, queue) && |queue| > 0 && ns[queue[0]].children.Some?
    ensures NodeOk(ns, queue[0])
    ensures QueueOk(ns, queue[1..] + ns[queue[0]].children.value)
    ensures QueueWeight(ns, queue[1..] + ns[queue[0]].children.value) < QueueWeight(ns, queue)
  {
    var q := queue[0];
    var rest := queue[1..];
    var cs := ns[q].children.value;
    ChildrenFacts(ns, q);
    ChildrenLevels(ns, q);
    ChildrenDistinctHandles(ns, q);
    DequeueOk(ns, queue);
    DescendIndependent(ns, queue, cs);
    AppendInTree(ns, rest, cs);
    DescendWeight(ns, queue, cs);
  }

  /** Two queues of nodes of the tree make one. */
  lemma AppendInTree(ns: seq<QuadNode>, a: seq<nat>, b: seq<nat>)
    requires forall i | 0 <= i < |a| :: a[i] < |ns| && InTree(ns, a[i])
    requires forall i | 0 <= i < |b| :: b[i] < |ns| && InTree(ns, b[i])
    ensures forall i | 0 <= i < |a + b| :: (a + b)[i] < |ns| && InTree(ns, (a + b)[i])
  {
    forall i | 0 <= i < |a + b| ensures (a + b)[i] < |ns| && InTree(ns, (a + b)[i]) {
      if i < |a| {
        assert (a + b)[i] == a[i];
      } else {
        assert (a + b)[i] == b[i - |a|];
      }
    }
  }

  /** Replacing the head of the queue by four nodes one level deeper lowers the weight. */
  lemma DescendWeight(ns: seq<QuadNode>, queue: seq<nat>, cs: seq<nat>)
    requires InArena(ns, queue) && |queue| > 0 && InArena(ns, cs) && Level(ns[queue[0]].code) < MAX_LEVEL
    requires QueueWeight(ns, cs) == 4 * Weight(Level(ns[queue[0]].code) + 1)
    ensures InArena(ns, queue[1..] + cs)
    ensures QueueWeight(ns, queue[1..] + cs) < QueueWeight(ns, queue)
  {
    WeightStep(Level(ns[queue[0]].code));
    QueueWeightHead(ns, queue);
    QueueWeightAppend(ns, queue[1..], cs);
  }

  lemma WeightStep(l: bv32)
    requires l < MAX_LEVEL
    ensures Weight(l) == 1 + 4 * Weight(l + 1)
  {
  }

  lemma QueueWeightHead(ns: seq<QuadNode>, queue: seq<nat>)
    requires InArena(ns, queue) && |queue| > 0
    ensures QueueWeight(ns, queue) == Weight(Level(ns[queue[0]].code)) + QueueWeight(ns, queue[1..])
  {
  }

  /** A tree path that passes through a node enters one of its children. */
  lemma PathThroughLeaf(ns: seq<QuadNode>, q: nat, e: nat)
    requires WellFormed(ns) && q < |ns| && e < |ns|
    requires InTree(ns, e) && Above(ns, q, e) && e != q
    ensures ns[q].children.Some?
  {
    if q != 0 && Above(ns, q, 0) {
      AboveRoot(ns, q);
    }
    var k := ChildOnPath(ns, 0, q, e);
  }

  /** A tree whose root is a leaf has no other node. */
  lemma RootLeafAlone(ns: seq<QuadNode>, e: nat)
    requires WellFormed(ns) && ns[0].children.None? && e < |ns|
    ensures InTree(ns, e) ==> e == 0
  {
    if InTree(ns, e) && e != 0 {
      var k := AttachedChildOnPath(ns, 0, e);
    }
  }

  /** A node of the tree that a dequeued internal node covers is covered by one of its children, or is that node. */
  lemma CoveredByChild(ns: seq<QuadNode>, queue: seq<nat>, e: nat)
    requires WellFormed(ns) && QueueOk(ns, queue) && |queue| > 0 && ns[queue[0]].children.Some?
    requires e < |ns| && InTree(ns, e) && Uncovered(ns, queue[1..] + ns[queue[0]].children.value, e)
    ensures Uncovered(ns, queue, e) || e == queue[0]
  {
    var q := queue[0];
    var rest := queue[1..];
    assert Uncovered(ns, rest, e) by {
      forall i | 0 <= i < |rest| ensures !Above(ns, rest[i], e) {
        assert rest[i] == (rest + ns[q].children.value)[i];
      }
    }
    if Above(ns, q, e) && e != q {
      var i := CoveringChild(ns, rest, q, e);
    } else if e != q {
      UncoveredDequeue(ns, queue, e);
    }
  }

  /** A node of the tree strictly below `q` is covered by the queue that ends with `q`'s children. */
  lemma CoveringChild(ns: seq<QuadNode>, rest: seq<nat>, q: nat, e: nat) returns (i: nat)
    requires WellFormed(ns) && q < |ns| && e < |ns| && InTree(ns, e) && Above(ns, q, e) && e != q
    ensures ns[q].children.Some? && i < |rest + ns[q].children.value|
    ensures Above(ns, (rest + ns[q].children.value)[i], e)
  {
    if q != 0 && Above(ns, q, 0) {
      AboveRoot(ns, q);
    }
    var k := ChildOnPath(ns, 0, q, e);
    i := |rest| + k;
    assert (rest + ns[q].children.value)[i] == ns[q].children.value[k];
  }

  // ---------------------------------------------------------------------------
  // merge_quad_trees, one face

  /** Internal nodes in the tree that no queued node covers: the merge pass has settled them. */
  ghost predicate MergeFrontier(ns: seq<QuadNode>, queue: seq<nat>, face: nat, P: (nat, bv32) -> bool)
  {
    forall e | 0 <= e < |ns| && InTree(ns, e) && ns[e].children.Some? && Uncovered(ns, queue, e) :: P(face, ns[e].code)
  }

  ghost predicate MergeInv(ns0: seq<QuadNode>, ns: seq<QuadNode>, queue: seq<nat>, face: nat, P: (nat, bv32) -> bool)
  {
    WellFormed(ns) && MergeOutcome(ns0, ns, face, P) && QueueOk(ns, queue) && MergeFrontier(ns, queue, face, P)
  }

  /** Dequeuing a node that does not want to be split and merging it keeps the merge invariant. */
  lemma MergeMergeStep(ns0: seq<QuadNode>, ns: seq<QuadNode>, queue: seq<nat>, face: nat, P: (nat, bv32) -> bool)
    requires MergeInv(ns0, ns, queue, face, P) && |queue| > 0 && !P(face, ns[queue[0]].code)
    ensures MergeInv(ns0, MergeNodes(ns, queue[0]), queue[1..], face, P)
    ensures QueueWeight(MergeNodes(ns, queue[0]), queue[1..]) < QueueWeight(ns, queue)
  {
    var q := queue[0];
    var rest := queue[1..];
    var ns' := MergeNodes(ns, q);
    DequeueOk(ns, queue);
    forall i | 0 <= i < |rest| ensures InTree(ns', rest[i]) {
      AttachedFrame(ns, ns', 0, rest[i]);
    }
    forall a, b | 0 <= a < |rest| && 0 <= b < |rest| && a != b && rest[b] < |ns'| ensures !Above(ns', rest[a], rest[b]) {
      AboveFrame(ns, ns', rest[a], rest[b]);
      assert queue[a + 1] == rest[a] && queue[b + 1] == rest[b];
    }
    forall e | 0 <= e < |ns'| && InTree(ns', e) && ns'[e].children.Some? && Uncovered(ns', rest, e)
      ensures P(face, ns'[e].code)
    {
      if Above(ns', q, e) {
        PathThroughLeaf(ns', q, e);
      }
      AboveFrame(ns, ns', q, e);
      AttachedFrame(ns', ns, 0, e);
      forall i | 0 <= i < |rest| ensures !Above(ns, rest[i], e) {
        AboveFrame(ns, ns', rest[i], e);
      }
      UncoveredDequeue(ns, queue, e);
    }
    QueueWeightFrame(ns, ns', rest);
  }

  /** Dequeuing an internal node that wants to be split and queuing its children keeps the merge invariant. */
  lemma MergeDescendStep(ns0: seq<QuadNode>, ns: seq<QuadNode>, queue: seq<nat>, face: nat, P: (nat, bv32) -> bool)
    requires MergeInv(ns0, ns, queue, face, P) && |queue| > 0
    requires P(face, ns[queue[0]].code) && ns[queue[0]].children.Some?
    ensures MergeInv(ns0, ns, queue[1..] + ns[queue[0]].children.value, face, P)
    ensures QueueWeight(ns, queue[1..] + ns[queue[0]].children.value) < QueueWeight(ns, queue)
  {
    var nq := queue[1..] + ns[queue[0]].children.value;
    DescendOk(ns, queue);
    forall e | 0 <= e < |ns| && InTree(ns, e) && ns[e].children.Some? && Uncovered(ns, nq, e)
      ensures P(face, ns[e].code)
    {
      CoveredByChild(ns, queue, e);
    }
  }

  /** Dequeuing a leaf that wants to be split keeps the merge invariant. */
  lemma MergeLeafStep(ns0: seq<QuadNode>, ns: seq<QuadNode>, queue: seq<nat>, face: nat, P: (nat, bv32) -> bool)
    requires MergeInv(ns0, ns, queue, face, P) && |queue| > 0
    requires ns[queue[0]].children.None?
    ensures MergeInv(ns0, ns, queue[1..], face, P)
    ensures QueueWeight(ns, queue[1..]) < QueueWeight(ns, queue)
  {
    var q := queue[0];
    DequeueOk(ns, queue);
    forall e | 0 <= e < |ns| && InTree(ns, e) && ns[e].children.Some? && Uncovered(ns, queue[1..], e)
      ensures P(face, ns[e].code)
    {
      if Above(ns, q, e) {
        PathThroughLeaf(ns, q, e);
      }
      UncoveredDequeue(ns, queue, e);
    }
  }

  /**
   * The merge pass over one face: breadth first from the root, a node that
   * does not want to be split is merged, and the children of one that does
   * are queued. A tree that is only its root is skipped.
   */
  method MergeTree(t: LodQuadTree, face: nat, P: (nat, bv32) -> bool)
    requires t.Valid()
    modifies t
    ensures t.Valid()
    ensures MergeOutcome(old(t.nodes), t.nodes, face, P)
    ensures InternalsSatisfy(t.nodes, face, P)
  {
    ghost var ns0 := t.nodes;
    if t.nodes[0].children.None? {
      forall e | 0 <= e < |ns0| ensures InTree(ns0, e) ==> e == 0 {
        RootLeafAlone(ns0, e);
      }
      return;
    }
    var queue: seq<nat> := [0];
    forall e | 0 <= e < |ns0| && InTree(ns0, e) ensures Above(ns0, 0, e) {
      AttachedAbove(ns0, 0, e);
    }
    while |queue| > 0
      invariant t.Valid()
      invariant MergeInv(ns0, t.nodes, queue, face, P)
      decreases QueueWeight(t.nodes, queue)
    {
      var q := queue[0];
      if !P(face, t.nodes[q].code) {
        MergeMergeStep(ns0, t.nodes, queue, face, P);
        t.Merge(q);
        queue := queue[1..];
      } else if t.nodes[q].children.Some? {
        MergeDescendStep(ns0, t.nodes, queue, face, P);
        queue := queue[1..] + t.nodes[q].children.value;
      } else {
        MergeLeafStep(ns0, t.nodes, queue, face, P);
        queue := queue[1..];
      }
    }
  }

  // ---------------------------------------------------------------------------
  // split_quad_trees, one face

  /** Leaves in the tree that no queued node covers: the split pass has settled them. */
  ghost predicate SplitFrontier(ns: seq<QuadNode>, queue: seq<nat>, face: nat, P: (nat, bv32) -> bool)
  {
    forall e | 0 <= e < |ns| && InTree(ns, e) && ns[e].children.None? && Uncovered(ns, queue, e) ::
      !(P(face, ns[e].code) && Level(ns[e].code) < MAX_LEVEL)
  }

  ghost predicate SplitInv(ns0: seq<QuadNode>, ns: seq<QuadNode>, queue: seq<nat>, face: nat, P: (nat, bv32) -> bool)
  {
    WellFormed(ns) && SplitOutcome(ns0, ns, face, P) && KeepsNodes(ns0, ns)
    && (InternalsSatisfy(ns0, face, P) ==> InternalsSatisfy(ns, face, P))
    && QueueOk(ns, queue) && SplitFrontier(ns, queue, face, P)
  }

  /** After a leaf is split, the old nodes in the tree are exactly those that were in it. */
  lemma SplitKeepsTree(ns: seq<QuadNode>, q: nat, e: nat)
    requires WellFormed(ns) && q < |ns| && ns[q].children.None? && Level(ns[q].code) < MAX_LEVEL && e < |ns|
    ensures InTree(SplitNodes(ns, q), e) == InTree(ns, e)
  {
    var ns' := SplitNodes(ns, q);
    if Above(ns, q, e) && e != q {
      AboveFrame(ns, ns', q, e);
      if InTree(ns, e) {
        PathThroughLeaf(ns, q, e);
      }
      if InTree(ns', e) {
        if q != 0 && Above(ns', q, 0) {
          AboveRoot(ns', q);
        }
        var k := ChildOnPath(ns', 0, q, e);
        AboveLe(ns', ns'[q].children.value[k], e);
      }
    } else {
      AttachedFrame(ns, ns', 0, e);
    }
  }

  /** Dequeuing a leaf that wants and may be split, splitting it and queuing its children keeps the split invariant. */
  lemma SplitSplitStep(ns0: seq<QuadNode>, ns: seq<QuadNode>, queue: seq<nat>, face: nat, P: (nat, bv32) -> bool)
    requires SplitInv(ns0, ns, queue, face, P) && |queue| > 0
    requires ns[queue[0]].children.None? && P(face, ns[queue[0]].code) && Level(ns[queue[0]].code) < MAX_LEVEL
    ensures var ns' := SplitNodes(ns, queue[0]);
            SplitInv(ns0, ns', queue[1..] + ns'[queue[0]].children.value, face, P)
            && QueueWeight(ns', queue[1..] + ns'[queue[0]].children.value) < QueueWeight(ns, queue)
  {
    var q := queue[0];
    var ns' := SplitNodes(ns, q);
    SplitKeepsOutcome(ns0, ns, q, face, P);
    SplitKeepsNodes(ns0, ns, q);
    SplitKeepsInternals(ns0, ns, q, face, P);
    SplitKeepsQueue(ns, queue);
    var nq := queue[1..] + ns'[q].children.value;
    forall e | 0 <= e < |ns'| ensures InTree(ns', e) && ns'[e].children.None? && Uncovered(ns', nq, e) ==>
                                      !(P(face, ns'[e].code) && Level(ns'[e].code) < MAX_LEVEL)
    {
      SplitSettledOne(ns, queue, face, P, e);
    }
  }

  /** One node's share of the split frontier after a split step. */
  lemma SplitSettledOne(ns: seq<QuadNode>, queue: seq<nat>, face: nat, P: (nat, bv32) -> bool, e: nat)
    requires WellFormed(ns) && InArena(ns, queue) && |queue| > 0 && SplitFrontier(ns, queue, face, P)
    requires ns[queue[0]].children.None? && Level(ns[queue[0]].code) < MAX_LEVEL && e < |ns| + 4
    ensures var ns' := SplitNodes(ns, queue[0]);
            var nq := queue[1..] + ns'[queue[0]].children.value;
            InTree(ns', e) && ns'[e].children.None? && Uncovered(ns', nq, e) ==>
              !(P(face, ns'[e].code) && Level(ns'[e].code) < MAX_LEVEL)
  {
    var q := queue[0];
    var n := |ns|;
    var ns' := SplitNodes(ns, q);
    var nq := queue[1..] + ns'[q].children.value;
    if e >= n {
      assert nq[|queue| - 1 + (e - n)] == e;
    } else if InTree(ns', e) && ns'[e].children.None? && Uncovered(ns', nq, e) {
      SplitKeepsTree(ns, q, e);
      forall i | 0 <= i < |queue| - 1 ensures !Above(ns, queue[1..][i], e) {
        assert nq[i] == queue[1..][i];
        AboveFrame(ns, ns', queue[1..][i], e);
      }
      if Above(ns, q, e) && e != q {
        PathThroughLeaf(ns, q, e);
      }
      if e != q {
        UncoveredDequeue(ns, queue, e);
      }
    }
  }

  /** Splitting a leaf that wants and may be split keeps the shape of the split pass's outcome. */
  lemma SplitKeepsOutcome(ns0: seq<QuadNode>, ns: seq<QuadNode>, q: nat, face: nat, P: (nat, bv32) -> bool)
    requires WellFormed(ns) && SplitOutcome(ns0, ns, face, P)
    requires q < |ns| && ns[q].children.None? && P(face, ns[q].code) && Level(ns[q].code) < MAX_LEVEL
    ensures SplitOutcome(ns0, SplitNodes(ns, q), face, P)
  {
  }

  /** Splitting a leaf keeps every node of the original tree in the tree. */
  lemma SplitKeepsNodes(ns0: seq<QuadNode>, ns: seq<QuadNode>, q: nat)
    requires WellFormed(ns) && |ns0| <= |ns| && KeepsNodes(ns0, ns)
    requires q < |ns| && ns[q].children.None? && Level(ns[q].code) < MAX_LEVEL
    ensures KeepsNodes(ns0, SplitNodes(ns, q))
  {
    forall e | 0 <= e < |ns0| && InTree(ns0, e) ensures InTree(SplitNodes(ns, q), e) {
      SplitKeepsTree(ns, q, e);
    }
  }

  /** Splitting a leaf that wants to be split keeps every internal node wanting to be split. */
  lemma SplitKeepsInternals(ns0: seq<QuadNode>, ns: seq<QuadNode>, q: nat, face: nat, P: (nat, bv32) -> bool)
    requires WellFormed(ns) && (InternalsSatisfy(ns0, face, P) ==> InternalsSatisfy(ns, face, P))
    requires q < |ns| && ns[q].children.None? && P(face, ns[q].code) && Level(ns[q].code) < MAX_LEVEL
    ensures InternalsSatisfy(ns0, face, P) ==> InternalsSatisfy(SplitNodes(ns, q), face, P)
  {
    var ns' := SplitNodes(ns, q);
    if InternalsSatisfy(ns0, face, P) {
      forall e | 0 <= e < |ns'| && InTree(ns', e) && ns'[e].children.Some? ensures P(face, ns'[e].code) {
        if e != q {
          SplitKeepsTree(ns, q, e);
        }
      }
    }
  }

  /** Splitting a leaf changes neither the queue invariant nor the weight of a queue of old nodes. */
  lemma SplitKeepsQueueOk(ns: seq<QuadNode>, queue: seq<nat>, q: nat)
    requires WellFormed(ns) && QueueOk(ns, queue)
    requires q < |ns| && ns[q].children.None? && Level(ns[q].code) < MAX_LEVEL
    ensures QueueOk(SplitNodes(ns, q), queue)
    ensures QueueWeight(SplitNodes(ns, q), queue) == QueueWeight(ns, queue)
  {
    var ns' := SplitNodes(ns, q);
    forall i | 0 <= i < |queue| ensures InTree(ns', queue[i]) {
      SplitKeepsTree(ns, q, queue[i]);
    }
    forall a, b | 0 <= a < |queue| && 0 <= b < |queue| && a != b && queue[b] < |ns'|
      ensures !Above(ns', queue[a], queue[b])
    {
      AboveFrame(ns, ns', queue[a], queue[b]);
    }
    QueueWeightFrame(ns, ns', queue);
  }

  /** Splitting the leaf at the head of the queue and queuing its new children keeps the queue invariant and lowers the weight. */
  lemma SplitKeepsQueue(ns: seq<QuadNode>, queue: seq<nat>)
    requires WellFormed(ns) && QueueOk(ns, queue) && |queue| > 0
    requires ns[queue[0]].children.None? && Level(ns[queue[0]].code) < MAX_LEVEL
    ensures var ns' := SplitNodes(ns, queue[0]);
            QueueOk(ns', queue[1..] + ns'[queue[0]].children.value)
            && QueueWeight(ns', queue[1..] + ns'[queue[0]].children.value) < QueueWeight(ns, queue)
  {
    SplitKeepsQueueOk(ns, queue, queue[0]);
    DescendOk(SplitNodes(ns, queue[0]), queue);
  }

  /** Dequeuing a leaf that does not want, or may not, be split keeps the split invariant. */
  lemma SplitLeafStep(ns0: seq<QuadNode>, ns: seq<QuadNode>, queue: seq<nat>, face: nat, P: (nat, bv32) -> bool)
    requires SplitInv(ns0, ns, queue, face, P) && |queue| > 0
    requires ns[queue[0]].children.None? && !(P(face, ns[queue[0]].code) && Level(ns[queue[0]].code) < MAX_LEVEL)
    ensures SplitInv(ns0, ns, queue[1..], face, P)
    ensures QueueWeight(ns, queue[1..]) < QueueWeight(ns, queue)
  {
    var q := queue[0];
    DequeueOk(ns, queue);
    forall e | 0 <= e < |ns| && InTree(ns, e) && ns[e].children.None? && Uncovered(ns, queue[1..], e)
      ensures !(P(face, ns[e].code) && Level(ns[e].code) < MAX_LEVEL)
    {
      if Above(ns, q, e) && e != q {
        PathThroughLeaf(ns, q, e);
      }
      if e != q {
        UncoveredDequeue(ns, queue, e);
      }
    }
  }

  /** Dequeuing an internal node and queuing its children keeps the split invariant. */
  lemma SplitDescendStep(ns0: seq<QuadNode>, ns: seq<QuadNode>, queue: seq<nat>, face: nat, P: (nat, bv32) -> bool)
    requires SplitInv(ns0, ns, queue, face, P) && |queue| > 0 && ns[queue[0]].children.Some?
    ensures SplitInv(ns0, ns, queue[1..] + ns[queue[0]].children.value, face, P)
    ensures QueueWeight(ns, queue[1..] + ns[queue[0]].children.value) < QueueWeight(ns, queue)
  {
    var nq := queue[1..] + ns[queue[0]].children.value;
    DescendOk(ns, queue);
    forall e | 0 <= e < |ns| && InTree(ns, e) && ns[e].children.None? && Uncovered(ns, nq, e)
      ensures !(P(face, ns[e].code) && Level(ns[e].code) < MAX_LEVEL)
    {
      CoveredByChild(ns, queue, e);
    }
  }

  /**
   * The split pass over one face: breadth first from the root, the children
   * of an internal node are queued, and a leaf that wants to be split and is
   * below the last level is split and its new children queued.
   */
  method SplitTree(t: LodQuadTree, face: nat, P: (nat, bv32) -> bool)
    requires t.Valid()
    modifies t
    ensures t.Valid()
    ensures SplitOutcome(old(t.nodes), t.nodes, face, P)
    ensures KeepsNodes(old(t.nodes), t.nodes)
    ensures LeavesSettled(t.nodes, face, P)
    ensures InternalsSatisfy(old(t.nodes), face, P) ==> InternalsSatisfy(t.nodes, face, P)
  {
    ghost var ns0 := t.nodes;
    var queue: seq<nat> := [0];
    forall e | 0 <= e < |ns0| && InTree(ns0, e) ensures Above(ns0, 0, e) {
      AttachedAbove(ns0, 0, e);
    }
    while |queue| > 0
      invariant t.Valid()
      invariant SplitInv(ns0, t.nodes, queue, face, P)
      decreases QueueWeight(t.nodes, queue)
    {
      var q := queue[0];
      if t.nodes[q].children.Some? {
        SplitDescendStep(ns0, t.nodes, queue, face, P);
        queue := queue[1..] + t.nodes[q].children.value;
      } else if P(face, t.nodes[q].code) && Level(t.nodes[q].code) < MAX_LEVEL {
        SplitSplitStep(ns0, t.nodes, queue, face, P);
        t.Split(q);
        queue := queue[1..] + t.nodes[q].children.value;
      } else {
        SplitLeafStep(ns0, t.nodes, queue, face, P);
        queue := queue[1..];
      }
    }
  }

  // ---------------------------------------------------------------------------
  // close_holes, one face

  /** The four edges of a node. */
  datatype Side = Left | Right | Top | Bottom

  /** The edge-smoothing flag bits. */
  const LEFT_FLAG: bv32 := 1
  const RIGHT_FLAG: bv32 := 2
  const TOP_FLAG: bv32 := 4
  const BOTTOM_FLAG: bv32 := 8

  /** `flags` with the bits of `bit` set when `on` holds and cleared otherwise. */
  function SetOrClear(flags: bv32, bit: bv32, on: bool): bv32
  {
    if on then flags | bit else flags & !bit
  }

  /** The flags after the four edge decisions, applied left, right, top, bottom. */
  function EdgeFlags(flags: bv32, left: bool, right: bool, top: bool, bottom: bool): bv32
  {
    SetOrClear(SetOrClear(SetOrClear(SetOrClear(flags, LEFT_FLAG, left), RIGHT_FLAG, right), TOP_FLAG, top), BOTTOM_FLAG, bottom)
  }

  /** The four flag bits alone. */
  function LowFlags(left: bool, right: bool, top: bool, bottom: bool): (r: bv32)
    ensures r & 0xffff_fff0 == 0
  {
    (if left then 1 else 0) | (if right then 2 else 0) | (if top then 4 else 0) | (if bottom then 8 else 0)
  }

  /** The four steps amount to replacing the low four bits. */
  lemma EdgeFlagsMask(flags: bv32, left: bool, right: bool, top: bool, bottom: bool)
    ensures EdgeFlags(flags, left, right, top, bottom) == (flags & 0xffff_fff0) | LowFlags(left, right, top, bottom)
  {
  }

  /** Each flag bit records its own edge's decision, and the bits above the four flags are kept. */
  lemma EdgeFlagsMeaning(flags: bv32, left: bool, right: bool, top: bool, bottom: bool)
    ensures var r := EdgeFlags(flags, left, right, top, bottom);
            (r & LEFT_FLAG != 0) == left && (r & RIGHT_FLAG != 0) == right
            && (r & TOP_FLAG != 0) == top && (r & BOTTOM_FLAG != 0) == bottom
            && r & 0xffff_fff0 == flags & 0xffff_fff0
  {
    EdgeFlagsMask(flags, left, right, top, bottom);
  }

  /** Deciding the same edges twice gives the flags of deciding them once. */
  lemma EdgeFlagsIdempotent(flags: bv32, left: bool, right: bool, top: bool, bottom: bool)
    ensures EdgeFlags(EdgeFlags(flags, left, right, top, bottom), left, right, top, bottom)
            == EdgeFlags(flags, left, right, top, bottom)
  {
    var r := EdgeFlags(flags, left, right, top, bottom);
    EdgeFlagsMask(flags, left, right, top, bottom);
    EdgeFlagsMask(r, left, right, top, bottom);
    MaskTwice(flags, LowFlags(left, right, top, bottom));
  }

  lemma MaskTwice(x: bv32, bits: bv32)
    requires bits & 0xffff_fff0 == 0
    ensures ((((x & 0xffff_fff0) | bits) & 0xffff_fff0) | bits) == (x & 0xffff_fff0) | bits
  {
  }

  /**
   * The flags close_holes gives a leaf whose parent has code `parentCode`:
   * an edge is smoothed when the neighbour of the parent across it is not
   * split (`Coarse`).
   */
  function SmoothedFlags(flags: bv32, face: nat, parentCode: bv32, Coarse: (nat, bv32, Side) -> bool): (r: bv32)
    ensures (r & LEFT_FLAG != 0) == Coarse(face, parentCode, Left)
    ensures (r & RIGHT_FLAG != 0) == Coarse(face, parentCode, Right)
    ensures (r & TOP_FLAG != 0) == Coarse(face, parentCode, Top)
    ensures (r & BOTTOM_FLAG != 0) == Coarse(face, parentCode, Bottom)
    ensures r & 0xffff_fff0 == flags & 0xffff_fff0
  {
    EdgeFlagsMeaning(flags, Coarse(face, parentCode, Left), Coarse(face, parentCode, Right),
                     Coarse(face, parentCode, Top), Coarse(face, parentCode, Bottom));
    EdgeFlags(flags, Coarse(face, parentCode, Left), Coarse(face, parentCode, Right),
              Coarse(face, parentCode, Top), Coarse(face, parentCode, Bottom))
  }

  /** What node `e` ends up with, given the set of leaves visited. */
  ghost function FlagsAfter(ns0: seq<QuadNode>, e: nat, visited: bool, face: nat, Coarse: (nat, bv32, Side) -> bool): bv32
    requires e < |ns0|
  {
    if visited && ns0[e].parent.Some? && ns0[e].parent.value < |ns0|
    then SmoothedFlags(ns0[e].flags, face, ns0[ns0[e].parent.value].code, Coarse)
    else ns0[e].flags
  }

  /** The outcome of close_holes on one face: only the flags of the tree's non-root leaves change. */
  ghost predicate ClosedHoles(ns0: seq<QuadNode>, ns: seq<QuadNode>, face: nat, Coarse: (nat, bv32, Side) -> bool)
  {
    SameShape(ns0, ns)
    && forall e | 0 <= e < |ns0| ::
         ns[e].flags == FlagsAfter(ns0, e, InTree(ns0, e) && ns0[e].children.None?, face, Coarse)
  }

  /** After visiting the leaves `visited`, each node holds the flags FlagsAfter gives it. */
  ghost predicate HolesProgress(ns0: seq<QuadNode>, ns: seq<QuadNode>, visited: seq<nat>, face: nat,
                                Coarse: (nat, bv32, Side) -> bool)
  {
    SameShape(ns0, ns)
    && forall e | 0 <= e < |ns0| :: ns[e].flags == FlagsAfter(ns0, e, e in visited, face, Coarse)
  }

  /** The arena after close_holes visits node `e`. */
  function SmoothNode(ns: seq<QuadNode>, e: nat, face: nat, Coarse: (nat, bv32, Side) -> bool): (r: seq<QuadNode>)
    requires WellFormed(ns) && e < |ns|
    ensures WellFormed(r) && SameShape(ns, r)
  {
    assert NodeOk(ns, e);
    if ns[e].parent.Some?
    then WithFlags(ns, e, SmoothedFlags(ns[e].flags, face, ns[ns[e].parent.value].code, Coarse))
    else ns
  }

  /** Visiting one more leaf, possibly a second time, keeps the progress invariant. */
  lemma SmoothStep(ns0: seq<QuadNode>, ns: seq<QuadNode>, visited: seq<nat>, e: nat, face: nat,
                   Coarse: (nat, bv32, Side) -> bool)
    requires WellFormed(ns) && e < |ns| && HolesProgress(ns0, ns, visited, face, Coarse)
    ensures HolesProgress(ns0, SmoothNode(ns, e, face, Coarse), visited + [e], face, Coarse)
  {
    var r := SmoothNode(ns, e, face, Coarse);
    assert NodeOk(ns, e);
    if ns[e].parent.Some? {
      var pc := ns[ns[e].parent.value].code;
      EdgeFlagsIdempotent(ns0[e].flags, Coarse(face, pc, Left), Coarse(face, pc, Right),
                          Coarse(face, pc, Top), Coarse(face, pc, Bottom));
    }
    forall d | 0 <= d < |ns0| ensures r[d].flags == FlagsAfter(ns0, d, d in visited + [e], face, Coarse) {
      assert (d in visited + [e]) == (d in visited || d == e);
    }
  }

  /** close_holes on one face: every leaf but the root gets its four edge flags from the parent's neighbours. */
  method CloseHolesTree(t: LodQuadTree, face: nat, Coarse: (nat, bv32, Side) -> bool)
    requires t.Valid()
    modifies t
    ensures t.Valid()
    ensures ClosedHoles(old(t.nodes), t.nodes, face, Coarse)
  {
    ghost var ns0 := t.nodes;
    var leaves := AllChildrenLeaves(t.nodes, 0);
    for j := 0 to |leaves|
      invariant t.Valid() && HolesProgress(ns0, t.nodes, leaves[..j], face, Coarse)
    {
      var e := leaves[j];
      assert e in leaves && e < |t.nodes|;
      assert leaves[..j + 1] == leaves[..j] + [e];
      assert NodeOk(t.nodes, e);
      SmoothStep(ns0, t.nodes, leaves[..j], e, face, Coarse);
      if t.nodes[e].parent.Some? {
        var pc := t.nodes[t.nodes[e].parent.value].code;
        t.SetFlags(e, SmoothedFlags(t.nodes[e].flags, face, pc, Coarse));
      }
    }
    assert leaves[..|leaves|] == leaves;
    forall e | 0 <= e < |ns0| ensures (e in leaves) == (InTree(ns0, e) && ns0[e].children.None?) {
      AllChildrenLeavesAttached(ns0, 0, e);
    }
  }

  /** Passes that change only flags keep the outcome of the merge and split passes. */
  lemma SettledShape(ns: seq<QuadNode>, ns': seq<QuadNode>, face: nat, P: (nat, bv32) -> bool)
    requires WellFormed(ns) && SameShape(ns, ns')
    ensures InternalsSatisfy(ns', face, P) == InternalsSatisfy(ns, face, P)
    ensures LeavesSettled(ns', face, P) == LeavesSettled(ns, face, P)
  {
    forall e | 0 <= e < |ns| ensures InTree(ns', e) == InTree(ns, e) {
      ShapeKeepsTree(ns, ns', e);
    }
  }

  // ---------------------------------------------------------------------------
  // The split guard as written

  /** The level field the original reads in its split guard: its constructor never assigns it, so it is always 0. */
  function StoredLevel(n: QuadNode): bv32
  {
    0
  }

  /** The split guard as written: it passes for every node. */
  predicate AsWrittenMaySplit(n: QuadNode): (b: bool)
    ensures b
  {
    StoredLevel(n) < MAX_LEVEL
  }

  /** The split guard as intended: the node's level, read from its code, is below the last level. */
  predicate MaySplit(n: QuadNode)
  {
    Level(n.code) < MAX_LEVEL
  }

  /**
   * The guard as written lets a node at the last level split, and the
   * children it then makes have their level wrap around to 0, where the
   * guard lets them split again (see AsWrittenSplitsForever).
   */
  lemma AsWrittenGuardSplitsLastLevel(n: QuadNode)
    requires Level(n.code) == MAX_LEVEL
    ensures AsWrittenMaySplit(n) && !MaySplit(n)
    ensures forall k | 0 <= k < 4 :: Level(GenerateChildren(n.code)[k]) == 0
  {
    ChildLevel(n.code, 0);
    ChildLevel(n.code, 1);
    ChildLevel(n.code, 2);
    ChildLevel(n.code, 3);
  }

  /** The code reached from `code` by taking the first child `k` times. */
  function FirstDescendant(code: bv32, k: nat): bv32
    decreases k
  {
    if k == 0 then code else FirstDescendant(GenerateChildren(code)[0], k - 1)
  }

  /**
   * Under a split decision that always holds, the split pass as written never
   * stops: every node passes the as-written guard, and along any chain of
   * first children the level only cycles through 0..15, so there is always a
   * leaf that the decision and the guard both let split.
   */
  lemma {:induction false} AsWrittenSplitsForever(code: bv32, k: nat)
    ensures AsWrittenMaySplit(NewNode(FirstDescendant(code, k), None))
    ensures Level(FirstDescendant(code, k)) as int == (Level(code) as int + k) % 16
    decreases k
  {
    if k > 0 {
      var child := GenerateChildren(code)[0];
      FirstChildLevel(code);
      AsWrittenSplitsForever(child, k - 1);
      ModShift(Level(code) as int + 1, k - 1);
    }
  }

  /** The first child's level is one more than its parent's, modulo 16. */
  lemma FirstChildLevel(code: bv32)
    ensures Level(GenerateChildren(code)[0]) as int == (Level(code) as int + 1) % 16
  {
    ChildLevel(code, 0);
    if Level(code) < MAX_LEVEL {
      assert Level(GenerateChildren(code)[0]) == Level(code) + 1;
    } else {
      assert Level(GenerateChildren(code)[0]) == 0;
    }
  }

  /** Reducing the first summand modulo 16 does not change the sum modulo 16. */
  lemma ModShift(a: nat, b: nat)
    ensures (a % 16 + b) % 16 == (a + b) % 16
  {
    var q := a / 16;
    assert a == 16 * q + a % 16;
    assert a + b == 16 * q + (a % 16 + b);
  }
}
