/**
 * The quadtree of one cube face, kept as an arena of node records indexed by
 * integer handles. Handle 0 is the root. Splitting a node appends its four
 * children at the end of the arena, so a child's handle is always larger
 * than its parent's; merging a node drops its child list, leaving the old
 * subtree in the arena as unreachable records (what the garbage collector
 * reclaims in the original). A node is part of the tree when the chain of
 * parent links from it up to the root is matched by the parents' child lists.
 *
 * The original never stores a node's level (its constructor ignores the
 * argument), so the level is read from the low four bits of the node code.
 */
module QuadTree {
  import opened Wrappers
  import opened NodeCode

  /** One node: its code, its parent's handle, its four children's handles when split, and its edge-smoothing flags. */
  datatype QuadNode = QuadNode(code: bv32, parent: Option<nat>, children: Option<seq<nat>>, flags: bv32)

  /** The record of a freshly created node. */
  function NewNode(code: bv32, parent: Option<nat>): QuadNode
  {
    QuadNode(code, parent, None, 0)
  }

  /** Child `k` of node `i` is a valid handle that links back to `i` and carries child code `k`. */
  ghost predicate ChildOk(ns: seq<QuadNode>, i: nat, k: nat)
    requires i < |ns| && ns[i].children.Some? && |ns[i].children.value| == 4 && k < 4
  {
    var c := ns[i].children.value[k];
    i < c < |ns| && ns[c].parent == Some(i) && ns[c].code == GenerateChildren(ns[i].code)[k]
  }

  ghost predicate NodeOk(ns: seq<QuadNode>, i: nat)
    requires i < |ns|
  {
    (i == 0 <==> ns[i].parent.None?)
    && (ns[i].parent.Some? ==> ns[i].parent.value < i)
    && (ns[i].children.Some? ==>
          Level(ns[i].code) < MAX_LEVEL && |ns[i].children.value| == 4
          && forall k | 0 <= k < 4 :: ChildOk(ns, i, k))
  }

  /** The arena invariant. */
  ghost predicate WellFormed(ns: seq<QuadNode>)
  {
    |ns| > 0 && ns[0].code == ROOT_NODE_CODE && forall i | 0 <= i < |ns| :: NodeOk(ns, i)
  }

  /** `a` is `e` or an ancestor of `e` along parent links (child lists are not consulted). */
  ghost predicate Above(ns: seq<QuadNode>, a: nat, e: nat)
    requires e < |ns|
    decreases e
  {
    e == a || (ns[e].parent.Some? && ns[e].parent.value < e && Above(ns, a, ns[e].parent.value))
  }

  /** `e` is in the subtree of `a`: every link on the way up from `e` to `a` is in the parent's child list. */
  ghost predicate AttachedTo(ns: seq<QuadNode>, a: nat, e: nat)
    requires e < |ns|
    decreases e
  {
    e == a ||
    (ns[e].parent.Some? && ns[e].parent.value < e
     && ns[ns[e].parent.value].children.Some?
     && e in ns[ns[e].parent.value].children.value
     && AttachedTo(ns, a, ns[e].parent.value))
  }

  /** `e` is a node of the tree. */
  ghost predicate InTree(ns: seq<QuadNode>, e: nat)
    requires e < |ns|
  {
    AttachedTo(ns, 0, e)
  }

  // ---------------------------------------------------------------------------
  // GetAllChildren and GetAllChildrenLeaves

  /** The proper descendants of node `i`, in pre-order. */
  function AllChildren(ns: seq<QuadNode>, i: nat): (r: seq<nat>)
    requires WellFormed(ns) && i < |ns|
    ensures forall e | e in r :: i < e < |ns|
    decreases |ns| - i
  {
    match ns[i].children
    case None => []
    case Some(cs) =>
      assert NodeOk(ns, i);
      assert ChildOk(ns, i, 0) && ChildOk(ns, i, 1) && ChildOk(ns, i, 2) && ChildOk(ns, i, 3);
      [cs[0]] + AllChildren(ns, cs[0]) + [cs[1]] + AllChildren(ns, cs[1])
      + [cs[2]] + AllChildren(ns, cs[2]) + [cs[3]] + AllChildren(ns, cs[3])
  }

  /** The leaves of the subtree of node `i`, left to right. */
  function AllChildrenLeaves(ns: seq<QuadNode>, i: nat): (r: seq<nat>)
    requires WellFormed(ns) && i < |ns|
    ensures |r| > 0
    ensures forall e | e in r :: i <= e < |ns| && ns[e].children.None?
    decreases |ns| - i
  {
    match ns[i].children
    case None => [i]
    case Some(cs) =>
      assert NodeOk(ns, i);
      assert ChildOk(ns, i, 0) && ChildOk(ns, i, 1) && ChildOk(ns, i, 2) && ChildOk(ns, i, 3);
      AllChildrenLeaves(ns, cs[0]) + AllChildrenLeaves(ns, cs[1])
      + AllChildrenLeaves(ns, cs[2]) + AllChildrenLeaves(ns, cs[3])
  }

  // ---------------------------------------------------------------------------
  // Split and Merge on the arena

  /** The arena after splitting node `i`: four new leaves appended, linked both ways. */
  function SplitNodes(ns: seq<QuadNode>, i: nat): (r: seq<QuadNode>)
    requires WellFormed(ns) && i < |ns| && Level(ns[i].code) < MAX_LEVEL
    ensures WellFormed(r)
    ensures |r| == |ns| + 4 && r[..|ns|] == ns[i := r[i]]
    ensures r[i].code == ns[i].code && r[i].parent == ns[i].parent && r[i].flags == ns[i].flags
    ensures r[i].children == Some([|ns|, |ns| + 1, |ns| + 2, |ns| + 3])
    ensures forall j | 0 <= j < |ns| && j != i :: r[j] == ns[j]
    ensures forall c | |ns| <= c < |r| :: r[c].parent == Some(i) && r[c].children.None? && r[c].flags == 0
    ensures AllChildrenLeaves(r, i) == [|ns|, |ns| + 1, |ns| + 2, |ns| + 3]
    ensures forall c | |ns| <= c < |r| :: Level(r[c].code) == Level(ns[i].code) + 1
  {
    var n := |ns|;
    var codes := GenerateChildren(ns[i].code);
    var r := ns[i := ns[i].(children := Some([n, n + 1, n + 2, n + 3]))]
      + [NewNode(codes[0], Some(i)), NewNode(codes[1], Some(i)),
         NewNode(codes[2], Some(i)), NewNode(codes[3], Some(i))];
    SplitKeepsWellFormed(ns, i, r);
    SplitLeaves(ns, i, r);
    r
  }

  lemma SplitKeepsWellFormed(ns: seq<QuadNode>, i: nat, r: seq<QuadNode>)
    requires WellFormed(ns) && i < |ns| && Level(ns[i].code) < MAX_LEVEL
    requires var n := |ns|;
             var codes := GenerateChildren(ns[i].code);
             r == ns[i := ns[i].(children := Some([n, n + 1, n + 2, n + 3]))]
                  + [NewNode(codes[0], Some(i)), NewNode(codes[1], Some(i)),
                     NewNode(codes[2], Some(i)), NewNode(codes[3], Some(i))]
    ensures WellFormed(r)
  {
    var n := |ns|;
    forall j | 0 <= j < |r| ensures NodeOk(r, j) {
      if j < n {
        assert NodeOk(ns, j);
        if j != i && r[j].children.Some? {
          forall k | 0 <= k < 4 ensures ChildOk(r, j, k) {
            assert ChildOk(ns, j, k);
          }
        }
      }
    }
  }

  lemma SplitLeaves(ns: seq<QuadNode>, i: nat, r: seq<QuadNode>)
    requires WellFormed(ns) && i < |ns| && Level(ns[i].code) < MAX_LEVEL
    requires var n := |ns|;
             var codes := GenerateChildren(ns[i].code);
             r == ns[i := ns[i].(children := Some([n, n + 1, n + 2, n + 3]))]
                  + [NewNode(codes[0], Some(i)), NewNode(codes[1], Some(i)),
                     NewNode(codes[2], Some(i)), NewNode(codes[3], Some(i))]
    requires WellFormed(r)
    ensures AllChildrenLeaves(r, i) == [|ns|, |ns| + 1, |ns| + 2, |ns| + 3]
    ensures forall c | |ns| <= c < |r| :: Level(r[c].code) == Level(ns[i].code) + 1
  {
    var n := |ns|;
    NewLeavesList(r, i, n);
    var codes := GenerateChildren(ns[i].code);
    assert r[n].code == codes[0] && r[n + 1].code == codes[1] && r[n + 2].code == codes[2] && r[n + 3].code == codes[3];
    ChildLevel(ns[i].code, 0);
    ChildLevel(ns[i].code, 1);
    ChildLevel(ns[i].code, 2);
    ChildLevel(ns[i].code, 3);
  }

  /** A node whose four children are the last four, all leaves, has exactly those as its leaves. */
  lemma NewLeavesList(r: seq<QuadNode>, i: nat, n: nat)
    requires WellFormed(r) && i < n && |r| == n + 4
    requires r[i].children == Some([n, n + 1, n + 2, n + 3])
    requires r[n].children.None? && r[n + 1].children.None? && r[n + 2].children.None? && r[n + 3].children.None?
    ensures AllChildrenLeaves(r, i) == [n, n + 1, n + 2, n + 3]
  {
    assert AllChildrenLeaves(r, n) == [n];
    assert AllChildrenLeaves(r, n + 1) == [n + 1];
    assert AllChildrenLeaves(r, n + 2) == [n + 2];
    assert AllChildrenLeaves(r, n + 3) == [n + 3];
  }

  /** The arena after merging node `i`: its child list is dropped. */
  function MergeNodes(ns: seq<QuadNode>, i: nat): (r: seq<QuadNode>)
    requires WellFormed(ns) && i < |ns|
    ensures WellFormed(r)
    ensures |r| == |ns| && r[i].children.None?
    ensures forall j | 0 <= j < |ns| :: r[j].code == ns[j].code && r[j].parent == ns[j].parent && r[j].flags == ns[j].flags
    ensures forall j | 0 <= j < |ns| && j != i :: r[j] == ns[j]
    ensures ns[i].children.None? ==> r == ns
    ensures AllChildrenLeaves(r, i) == [i] && AllChildren(r, i) == []
  {
    var r := ns[i := ns[i].(children := None)];
    assert forall j | 0 <= j < |r| :: NodeOk(r, j) by {
      forall j | 0 <= j < |r| ensures NodeOk(r, j) {
        assert NodeOk(ns, j);
        if j != i && r[j].children.Some? {
          forall k | 0 <= k < 4 ensures ChildOk(r, j, k) {
            assert ChildOk(ns, j, k);
          }
        }
      }
    }
    r
  }

  /** Two arenas with the same nodes, codes, links and child lists; only flags may differ. */
  ghost predicate SameShape(ns: seq<QuadNode>, ns': seq<QuadNode>)
  {
    |ns'| == |ns|
    && forall j | 0 <= j < |ns| ::
         ns'[j].code == ns[j].code && ns'[j].parent == ns[j].parent && ns'[j].children == ns[j].children
  }

  /** The arena with node `i`'s edge-smoothing flags replaced. */
  function WithFlags(ns: seq<QuadNode>, i: nat, flags: bv32): (r: seq<QuadNode>)
    requires WellFormed(ns) && i < |ns|
    ensures WellFormed(r) && SameShape(ns, r)
    ensures r[i].flags == flags && forall j | 0 <= j < |ns| && j != i :: r[j] == ns[j]
  {
    var r := ns[i := ns[i].(flags := flags)];
    ShapeKeepsWellFormed(ns, r);
    r
  }

  /** One face's quadtree. */
  class LodQuadTree {
    var nodes: seq<QuadNode>

    ghost predicate Valid()
      reads this
    {
      WellFormed(nodes)
    }

    /** A tree that is a single root leaf with the root code. */
    constructor ()
      ensures Valid() && nodes == [NewNode(ROOT_NODE_CODE, None)]
    {
      nodes := [NewNode(ROOT_NODE_CODE, None)];
    }

    predicate IsLeaf(i: nat)
      requires i < |nodes|
      reads this
    {
      nodes[i].children.None?
    }

    method Split(i: nat)
      requires Valid() && i < |nodes| && Level(nodes[i].code) < MAX_LEVEL
      modifies this
      ensures nodes == SplitNodes(old(nodes), i)
      ensures Valid() && !IsLeaf(i)
    {
      nodes := SplitNodes(nodes, i);
    }

    method SetFlags(i: nat, flags: bv32)
      requires Valid() && i < |nodes|
      modifies this
      ensures nodes == WithFlags(old(nodes), i, flags)
      ensures Valid()
    {
      nodes := WithFlags(nodes, i, flags);
    }

    method Merge(i: nat)
      requires Valid() && i < |nodes|
      modifies this
      ensures nodes == MergeNodes(old(nodes), i)
      ensures Valid() && IsLeaf(i)
      ensures old(IsLeaf(i)) ==> nodes == old(nodes)
    {
      nodes := MergeNodes(nodes, i);
    }
  }

  // ---------------------------------------------------------------------------
  // Lemmas about ancestry

  lemma AboveLe(ns: seq<QuadNode>, a: nat, e: nat)
    requires e < |ns| && Above(ns, a, e)
    ensures a <= e
    decreases e
  {
    if e != a {
      AboveLe(ns, a, ns[e].parent.value);
    }
  }

  lemma AboveTrans(ns: seq<QuadNode>, a: nat, b: nat, e: nat)
    requires b < |ns| && e < |ns| && Above(ns, a, b) && Above(ns, b, e)
    ensures Above(ns, a, e)
    decreases e
  {
    if e != b {
      AboveTrans(ns, a, b, ns[e].parent.value);
    }
  }

  lemma AttachedAbove(ns: seq<QuadNode>, a: nat, e: nat)
    requires e < |ns| && AttachedTo(ns, a, e)
    ensures Above(ns, a, e)
    decreases e
  {
    if e != a {
      AttachedAbove(ns, a, ns[e].parent.value);
    }
  }

  lemma AttachedTrans(ns: seq<QuadNode>, a: nat, b: nat, e: nat)
    requires b < |ns| && e < |ns| && AttachedTo(ns, a, b) && AttachedTo(ns, b, e)
    ensures AttachedTo(ns, a, e)
    decreases e
  {
    if e != b {
      AttachedTrans(ns, a, b, ns[e].parent.value);
    }
  }

  /** Only the root is above the root. */
  lemma AboveRoot(ns: seq<QuadNode>, q: nat)
    requires WellFormed(ns) && Above(ns, q, 0)
    ensures q == 0
  {
    assert NodeOk(ns, 0);
  }

  /** Each child of `i` is attached to `i`. */
  lemma ChildAttached(ns: seq<QuadNode>, i: nat, k: nat)
    requires WellFormed(ns) && i < |ns| && ns[i].children.Some? && k < 4
    ensures NodeOk(ns, i) && ChildOk(ns, i, k)
    ensures AttachedTo(ns, i, ns[i].children.value[k])
  {
    assert NodeOk(ns, i);
    assert ChildOk(ns, i, k);
  }

  /** A path from `a` down to `e` through `q` leaves `q` by one of its children. */
  lemma ChildOnPath(ns: seq<QuadNode>, a: nat, q: nat, e: nat) returns (k: nat)
    requires WellFormed(ns) && q < |ns| && e < |ns|
    requires AttachedTo(ns, a, e) && Above(ns, q, e) && e != q
    requires a == q || a >= |ns| || !Above(ns, q, a)
    ensures ns[q].children.Some? && NodeOk(ns, q) && k < 4
    ensures Above(ns, ns[q].children.value[k], e)
    decreases e
  {
    if e == a {
      assert false;
    }
    var p := ns[e].parent.value;
    assert NodeOk(ns, q);
    if p == q {
      var cs := ns[q].children.value;
      k :| 0 <= k < |cs| && cs[k] == e;
    } else {
      k := ChildOnPath(ns, a, q, p);
    }
  }

  /** The same, for a path of child-list links. */
  lemma AttachedChildOnPath(ns: seq<QuadNode>, i: nat, e: nat) returns (k: nat)
    requires WellFormed(ns) && i < |ns| && e < |ns|
    requires AttachedTo(ns, i, e) && e != i
    ensures ns[i].children.Some? && NodeOk(ns, i) && k < 4
    ensures AttachedTo(ns, ns[i].children.value[k], e)
    decreases e
  {
    var p := ns[e].parent.value;
    assert NodeOk(ns, i);
    if p == i {
      var cs := ns[i].children.value;
      k :| 0 <= k < |cs| && cs[k] == e;
    } else {
      k := AttachedChildOnPath(ns, i, p);
    }
  }

  /** Ancestry depends only on parent links. */
  lemma AboveFrame(ns: seq<QuadNode>, ns': seq<QuadNode>, a: nat, e: nat)
    requires e < |ns| <= |ns'|
    requires forall j | 0 <= j < |ns| :: ns'[j].parent == ns[j].parent
    ensures Above(ns', a, e) == Above(ns, a, e)
    decreases e
  {
    if e != a && ns[e].parent.Some? && ns[e].parent.value < e {
      AboveFrame(ns, ns', a, ns[e].parent.value);
    }
  }

  /** Attachment depends only on parent links and on the child lists of strict ancestors. */
  lemma AttachedFrame(ns: seq<QuadNode>, ns': seq<QuadNode>, a: nat, e: nat)
    requires e < |ns| <= |ns'|
    requires forall j | 0 <= j < |ns| :: ns'[j].parent == ns[j].parent
    requires forall p | 0 <= p < |ns| && p != e && Above(ns, p, e) :: ns'[p].children == ns[p].children
    ensures AttachedTo(ns', a, e) == AttachedTo(ns, a, e)
    decreases e
  {
    if e != a && ns[e].parent.Some? && ns[e].parent.value < e {
      var p := ns[e].parent.value;
      assert Above(ns, p, e);
      forall p' | 0 <= p' < |ns| && p' != p && Above(ns, p', p)
        ensures ns'[p'].children == ns[p'].children
      {
        AboveLe(ns, p', p);
      }
      AttachedFrame(ns, ns', a, p);
    }
  }

  // ---------------------------------------------------------------------------
  // What GetAllChildren and GetAllChildrenLeaves enumerate

  lemma AllChildrenAttached(ns: seq<QuadNode>, i: nat, e: nat)
    requires WellFormed(ns) && i < |ns| && e < |ns|
    ensures e in AllChildren(ns, i) <==> e != i && AttachedTo(ns, i, e)
  {
    AllChildrenSound(ns, i, e);
    AllChildrenComplete(ns, i, e);
  }

  lemma {:induction false} AllChildrenSound(ns: seq<QuadNode>, i: nat, e: nat)
    requires WellFormed(ns) && i < |ns| && e < |ns|
    ensures e in AllChildren(ns, i) ==> e != i && AttachedTo(ns, i, e)
    decreases |ns| - i
  {
    if ns[i].children.Some? && e in AllChildren(ns, i) {
      var cs := ns[i].children.value;
      assert NodeOk(ns, i);
      assert ChildOk(ns, i, 0) && ChildOk(ns, i, 1) && ChildOk(ns, i, 2) && ChildOk(ns, i, 3);
      var k: nat :| k < 4 && (e == cs[k] || e in AllChildren(ns, cs[k]));
      ChildAttached(ns, i, k);
      if e != cs[k] {
        AllChildrenSound(ns, cs[k], e);
        AttachedTrans(ns, i, cs[k], e);
      }
    }
  }

  lemma {:induction false} AllChildrenComplete(ns: seq<QuadNode>, i: nat, e: nat)
    requires WellFormed(ns) && i < |ns| && e < |ns|
    ensures e != i && AttachedTo(ns, i, e) ==> e in AllChildren(ns, i)
    decreases |ns| - i
  {
    if e != i && AttachedTo(ns, i, e) {
      var k := AttachedChildOnPath(ns, i, e);
      if ns[i].children.Some? {
        var cs := ns[i].children.value;
        assert NodeOk(ns, i);
        assert ChildOk(ns, i, k);
        if e != cs[k] {
          AllChildrenComplete(ns, cs[k], e);
        }
      }
    }
  }

  lemma AllChildrenLeavesAttached(ns: seq<QuadNode>, i: nat, e: nat)
    requires WellFormed(ns) && i < |ns| && e < |ns|
    ensures e in AllChildrenLeaves(ns, i) <==> AttachedTo(ns, i, e) && ns[e].children.None?
  {
    AllChildrenLeavesSound(ns, i, e);
    AllChildrenLeavesComplete(ns, i, e);
  }

  lemma {:induction false} AllChildrenLeavesSound(ns: seq<QuadNode>, i: nat, e: nat)
    requires WellFormed(ns) && i < |ns| && e < |ns|
    ensures e in AllChildrenLeaves(ns, i) ==> AttachedTo(ns, i, e) && ns[e].children.None?
    decreases |ns| - i
  {
    if ns[i].children.Some? && e in AllChildrenLeaves(ns, i) {
      var cs := ns[i].children.value;
      assert NodeOk(ns, i);
      assert ChildOk(ns, i, 0) && ChildOk(ns, i, 1) && ChildOk(ns, i, 2) && ChildOk(ns, i, 3);
      var k: nat :| k < 4 && e in AllChildrenLeaves(ns, cs[k]);
      ChildAttached(ns, i, k);
      AllChildrenLeavesSound(ns, cs[k], e);
      AttachedTrans(ns, i, cs[k], e);
    }
  }

  lemma {:induction false} AllChildrenLeavesComplete(ns: seq<QuadNode>, i: nat, e: nat)
    requires WellFormed(ns) && i < |ns| && e < |ns|
    ensures AttachedTo(ns, i, e) && ns[e].children.None? ==> e in AllChildrenLeaves(ns, i)
    decreases |ns| - i
  {
    if AttachedTo(ns, i, e) && ns[e].children.None? && ns[i].children.Some? {
      var cs := ns[i].children.value;
      assert NodeOk(ns, i);
      var k := AttachedChildOnPath(ns, i, e);
      assert ChildOk(ns, i, k);
      AllChildrenLeavesComplete(ns, cs[k], e);
    } else if AttachedTo(ns, i, e) && e != i {
      var k := AttachedChildOnPath(ns, i, e);
    }
  }

  /** A node's leaves are exactly the leaves among the node and its proper descendants. */
  lemma LeavesAmongChildren(ns: seq<QuadNode>, i: nat, e: nat)
    requires WellFormed(ns) && i < |ns| && e < |ns|
    ensures e in AllChildrenLeaves(ns, i) <==> (e == i || e in AllChildren(ns, i)) && ns[e].children.None?
  {
    AllChildrenAttached(ns, i, e);
    AllChildrenLeavesAttached(ns, i, e);
  }

  /** Records appended to a well-formed arena change nothing that is reachable from its old nodes. */
  lemma {:induction false} AppendKeepsSubtrees(ns: seq<QuadNode>, extra: seq<QuadNode>, i: nat)
    requires WellFormed(ns) && WellFormed(ns + extra) && i < |ns|
    ensures AllChildrenLeaves(ns + extra, i) == AllChildrenLeaves(ns, i)
    ensures AllChildren(ns + extra, i) == AllChildren(ns, i)
    decreases |ns| - i
  {
    var ns' := ns + extra;
    assert ns'[i] == ns[i];
    if ns[i].children.Some? {
      var cs := ns[i].children.value;
      assert NodeOk(ns, i);
      assert ChildOk(ns, i, 0) && ChildOk(ns, i, 1) && ChildOk(ns, i, 2) && ChildOk(ns, i, 3);
      AppendKeepsSubtrees(ns, extra, cs[0]);
      AppendKeepsSubtrees(ns, extra, cs[1]);
      AppendKeepsSubtrees(ns, extra, cs[2]);
      AppendKeepsSubtrees(ns, extra, cs[3]);
    }
  }

  /** Splitting a leaf and merging it straight back leaves the tree as it was; only orphans remain. */
  lemma SplitThenMergeRestores(ns: seq<QuadNode>, i: nat)
    requires WellFormed(ns) && i < |ns| && ns[i].children.None? && Level(ns[i].code) < MAX_LEVEL
    ensures var r := MergeNodes(SplitNodes(ns, i), i);
            r[..|ns|] == ns
            && AllChildrenLeaves(r, 0) == AllChildrenLeaves(ns, 0)
            && AllChildren(r, 0) == AllChildren(ns, 0)
  {
    var r := MergeNodes(SplitNodes(ns, i), i);
    assert r[..|ns|] == ns;
    assert r == ns + r[|ns|..];
    AppendKeepsSubtrees(ns, r[|ns|..], 0);
  }

  // ---------------------------------------------------------------------------
  // Changing flags changes nothing else

  lemma ShapeKeepsWellFormed(ns: seq<QuadNode>, ns': seq<QuadNode>)
    requires WellFormed(ns) && SameShape(ns, ns')
    ensures WellFormed(ns')
  {
    forall j | 0 <= j < |ns'| ensures NodeOk(ns', j) {
      assert NodeOk(ns, j);
      if ns'[j].children.Some? {
        forall k | 0 <= k < 4 ensures ChildOk(ns', j, k) {
          assert ChildOk(ns, j, k);
        }
      }
    }
  }

  lemma ShapeKeepsTree(ns: seq<QuadNode>, ns': seq<QuadNode>, e: nat)
    requires SameShape(ns, ns') && e < |ns|
    ensures InTree(ns', e) == InTree(ns, e)
  {
    AttachedFrame(ns, ns', 0, e);
  }

  lemma {:induction false} ShapeKeepsLeaves(ns: seq<QuadNode>, ns': seq<QuadNode>, i: nat)
    requires WellFormed(ns) && WellFormed(ns') && SameShape(ns, ns') && i < |ns|
    ensures AllChildrenLeaves(ns', i) == AllChildrenLeaves(ns, i)
    decreases |ns| - i
  {
    if ns[i].children.Some? {
      var cs := ns[i].children.value;
      assert NodeOk(ns, i);
      assert ChildOk(ns, i, 0) && ChildOk(ns, i, 1) && ChildOk(ns, i, 2) && ChildOk(ns, i, 3);
      ShapeKeepsLeaves(ns, ns', cs[0]);
      ShapeKeepsLeaves(ns, ns', cs[1]);
      ShapeKeepsLeaves(ns, ns', cs[2]);
      ShapeKeepsLeaves(ns, ns', cs[3]);
    }
  }
}
