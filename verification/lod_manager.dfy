/**
 * The level-of-detail manager: one quadtree and one buffer layout per cube
 * face. Every frame it merges, splits and smooths the six trees and then
 * brings each face's layout in line with that face's leaves, collecting the
 * slots that were newly allocated into one change list.
 *
 * The camera, the field of view and the radii enter the original only through
 * the float split criterion and the neighbour distances of close_holes; here
 * they are the parameters `P` and `Coarse` (see LodPasses). The compute-shader
 * buffers and the dispatch are not modelled.
 */
module LodManager {
  import opened Wrappers
  import opened NodeCode
  import opened QuadTree
  import opened BufferLayout
  import opened LodPasses

  const NUM_QUAD_TREES: nat := 6

  /** The number of slots of each face's buffer layout. */
  const MAX_NUM_NODES: nat := 20 * 3 * MAX_LEVEL as nat + 1

  /** What the layout update reads from one face: the codes and flags of its leaves, left to right. */
  function LeafInfos(ns: seq<QuadNode>): (r: seq<LeafInfo>)
    requires WellFormed(ns)
    ensures |r| == |AllChildrenLeaves(ns, 0)|
    ensures forall j | 0 <= j < |r| ::
              var e := AllChildrenLeaves(ns, 0)[j];
              e < |ns| && r[j] == LeafInfo(ns[e].code, ns[e].flags)
  {
    var leaves := AllChildrenLeaves(ns, 0);
    seq(|leaves|, j requires 0 <= j < |leaves| =>
      var e := leaves[j];
      assert e in leaves;
      LeafInfo(ns[e].code, ns[e].flags))
  }

  /** The codes of the leaves of a face's tree. */
  ghost function TreeLeafCodes(ns: seq<QuadNode>): set<bv32>
  {
    set e | 0 <= e < |ns| && InTree(ns, e) && ns[e].children.None? :: ns[e].code
  }

  /** The layout update is given exactly the codes of the tree's leaves. */
  lemma LeafInfosCodes(ns: seq<QuadNode>)
    requires WellFormed(ns)
    ensures LeafCodes(LeafInfos(ns)) == TreeLeafCodes(ns)
  {
    var infos := LeafInfos(ns);
    forall c | c in LeafCodes(infos) ensures c in TreeLeafCodes(ns) {
      var j :| 0 <= j < |infos| && infos[j].code == c;
      InfoIsTreeLeaf(ns, j);
    }
    forall c | c in TreeLeafCodes(ns) ensures c in LeafCodes(infos) {
      var e :| 0 <= e < |ns| && InTree(ns, e) && ns[e].children.None? && ns[e].code == c;
      TreeLeafIsInfo(ns, e);
    }
  }

  lemma InfoIsTreeLeaf(ns: seq<QuadNode>, j: nat)
    requires WellFormed(ns) && j < |LeafInfos(ns)|
    ensures LeafInfos(ns)[j].code in TreeLeafCodes(ns)
  {
    var e := AllChildrenLeaves(ns, 0)[j];
    AllChildrenLeavesAttached(ns, 0, e);
    assert InTree(ns, e) && ns[e].children.None?;
  }

  lemma TreeLeafIsInfo(ns: seq<QuadNode>, e: nat)
    requires WellFormed(ns) && e < |ns| && InTree(ns, e) && ns[e].children.None?
    ensures ns[e].code in LeafCodes(LeafInfos(ns))
  {
    var leaves := AllChildrenLeaves(ns, 0);
    AllChildrenLeavesAttached(ns, 0, e);
    var j :| 0 <= j < |leaves| && leaves[j] == e;
    assert LeafInfos(ns)[j] in LeafInfos(ns);
  }

  /**
   * A face's layout gained an entry exactly when it now holds a code it did
   * not hold before: the entries it adds carry fresh codes and the entries it
   * keeps are old ones.
   */
  lemma AddedIffNewCode(old0: seq<LayoutData>, layout: seq<LayoutData>, codes: set<bv32>)
    requires var kept := Retained(old0, codes);
             |kept| <= |layout| && layout[..|kept|] == kept
             && forall e | e in layout[|kept|..] :: e.code !in Codes(old0)
    ensures var kept := Retained(old0, codes);
            |layout[|kept|..]| == 0 <==> Codes(layout) <= Codes(old0)
  {
    var kept := Retained(old0, codes);
    if |layout[|kept|..]| == 0 {
      assert layout == kept;
    } else {
      var e := layout[|kept|..][0];
      assert e in layout;
      assert e.code in Codes(layout);
    }
  }

  /** A face's layout holds exactly the codes of its tree's leaves. */
  ghost predicate InSync(layout: seq<LayoutData>, ns: seq<QuadNode>)
  {
    Codes(layout) == TreeLeafCodes(ns)
  }

  /** A face's layout holds no code it did not hold before. */
  ghost predicate NoNewCode(layout: seq<LayoutData>, before: seq<LayoutData>)
  {
    Codes(layout) <= Codes(before)
  }

  /**
   * What the split pass leaves on one face: the outcome of splitting every
   * leaf the decision asks for, no node lost, every leaf settled, and
   * internal nodes that satisfied the decision still satisfy it.
   */
  ghost predicate SplitDone(before: seq<QuadNode>, after: seq<QuadNode>, face: nat, P: (nat, bv32) -> bool)
  {
    SplitOutcome(before, after, face, P)
    && KeepsNodes(before, after)
    && LeavesSettled(after, face, P)
    && (InternalsSatisfy(before, face, P) ==> InternalsSatisfy(after, face, P))
  }

  /**
   * The tree half of one frame on one face: the merge pass takes `before` to
   * `merged`, the split pass takes `merged` to `split`, and close_holes takes
   * `split` to `after`.
   */
  ghost predicate PassesDone(before: seq<QuadNode>, merged: seq<QuadNode>, split: seq<QuadNode>, after: seq<QuadNode>,
                             face: nat, P: (nat, bv32) -> bool, Coarse: (nat, bv32, Side) -> bool)
  {
    MergeOutcome(before, merged, face, P) && InternalsSatisfy(merged, face, P)
    && SplitDone(merged, split, face, P)
    && ClosedHoles(split, after, face, Coarse)
  }

  /**
   * A face's layout update from `before` to `after` for leaf codes `codes`
   * reported exactly `added`: the retained entries stay first and `added`
   * has one change per entry after them.
   */
  ghost predicate Reported(before: seq<LayoutData>, after: seq<LayoutData>, codes: set<bv32>, added: seq<Change>)
  {
    var kept := Retained(before, codes);
    |kept| <= |after| && after[..|kept|] == kept && added == ChangesOf(after[|kept|..])
  }

  /**
   * The slot invariant over MAX_NUM_NODES slots holds after a face's update
   * when it held before and the face has no more leaves than slots.
   */
  ghost predicate SlotsKept(slotsBefore: bool, layout: seq<LayoutData>, firstFree: nat, ns: seq<QuadNode>)
  {
    slotsBefore && |TreeLeafCodes(ns)| <= MAX_NUM_NODES ==> Slots(layout, firstFree, MAX_NUM_NODES)
  }

  /**
   * Under the same conditions, every entry a face's update from `before`
   * added after the retained ones took the lowest slot left free by the
   * entries before it.
   */
  ghost predicate FilledFirst(slotsBefore: bool, before: seq<LayoutData>, layout: seq<LayoutData>, ns: seq<QuadNode>)
  {
    slotsBefore && |TreeLeafCodes(ns)| <= MAX_NUM_NODES ==> FirstFit(layout, |Retained(before, TreeLeafCodes(ns))|)
  }

  /**
   * The entries a face's layout update added after the retained ones carry
   * the face number and the code and flags of one of the tree's leaves, and
   * every change reporting them names the face.
   */
  ghost predicate Tagged(before: seq<LayoutData>, layout: seq<LayoutData>, ns: seq<QuadNode>, face: nat, part: seq<Change>)
  {
    var kept := Retained(before, TreeLeafCodes(ns));
    WellFormed(ns) && |kept| <= |layout|
    && (forall e | e in layout[|kept|..] :: e.face == face && LeafInfo(e.code, e.flags) in LeafInfos(ns))
    && (forall c | c in part :: c.face == face)
  }

  /**
   * One face's successful layout update from `before` against the tree `ns`
   * of face `face`: the layout holds the leaf codes, `part` reports its new
   * entries, which carry the face number and a leaf's flags, every change in
   * `part` names the face, `part` is empty exactly when no code is new, and
   * the slot invariant is kept with each new entry in the lowest free slot.
   */
  ghost predicate FaceReport(layout: seq<LayoutData>, firstFree: nat, ns: seq<QuadNode>, face: nat,
                             before: seq<LayoutData>, slotsBefore: bool, part: seq<Change>)
  {
    InSync(layout, ns)
    && Reported(before, layout, TreeLeafCodes(ns), part)
    && Tagged(before, layout, ns, face, part)
    && (|part| == 0 <==> NoNewCode(layout, before))
    && SlotsKept(slotsBefore, layout, firstFree, ns)
    && FilledFirst(slotsBefore, before, layout, ns)
  }

  /**
   * What a successful `UpdateIndices` call on a face's leaves promises makes
   * the change entries it appended after `changes` a report of that face.
   */
  lemma UpdateReported(before: seq<LayoutData>, layout: seq<LayoutData>, firstFree: nat, ns: seq<QuadNode>,
                       face: nat, slotsBefore: bool, changes: seq<Change>, rv: seq<Change>)
    requires WellFormed(ns)
    requires var kept := Retained(before, LeafCodes(LeafInfos(ns)));
             |kept| <= |layout| && layout[..|kept|] == kept && Codes(layout) == LeafCodes(LeafInfos(ns))
             && rv == changes + ChangesOf(layout[|kept|..])
             && forall e | e in layout[|kept|..] ::
                  e.code !in Codes(before) && e.face == face && LeafInfo(e.code, e.flags) in LeafInfos(ns)
    requires slotsBefore && |LeafCodes(LeafInfos(ns))| <= MAX_NUM_NODES ==>
               Slots(layout, firstFree, MAX_NUM_NODES) && FirstFit(layout, |Retained(before, LeafCodes(LeafInfos(ns)))|)
    ensures |changes| <= |rv| && rv == changes + rv[|changes|..]
    ensures FaceReport(layout, firstFree, ns, face, before, slotsBefore, rv[|changes|..])
  {
    LeafInfosCodes(ns);
    var kept := Retained(before, TreeLeafCodes(ns));
    AddedIffNewCode(before, layout, TreeLeafCodes(ns));
    assert rv[|changes|..] == ChangesOf(layout[|kept|..]);
    ChangesNameFace(layout[|kept|..], face);
  }

  /** Changes reporting entries of one face all name that face. */
  lemma ChangesNameFace(s: seq<LayoutData>, face: nat)
    requires forall e | e in s :: e.face == face
    ensures forall c | c in ChangesOf(s) :: c.face == face
  {
    forall c | c in ChangesOf(s)
      ensures c.face == face
    {
      var j :| 0 <= j < |s| && ChangesOf(s)[j] == c;
      assert s[j] in s;
    }
  }

  /** The tree passes of one frame took every face from `before` to `after`. */
  ghost predicate AllPassesDone(before: seq<seq<QuadNode>>, merged: seq<seq<QuadNode>>, split: seq<seq<QuadNode>>,
                                after: seq<seq<QuadNode>>, P: (nat, bv32) -> bool, Coarse: (nat, bv32, Side) -> bool)
  {
    |before| == NUM_QUAD_TREES && |merged| == NUM_QUAD_TREES && |split| == NUM_QUAD_TREES && |after| == NUM_QUAD_TREES
    && forall i | 0 <= i < NUM_QUAD_TREES :: PassesDone(before[i], merged[i], split[i], after[i], i, P, Coarse)
  }

  /**
   * The merge, split and smoothing passes done on every face leave every
   * face settled: smoothing changes flags only, so the split pass's promise
   * carries over.
   */
  lemma PassesSettled(before: seq<seq<QuadNode>>, merged: seq<seq<QuadNode>>, split: seq<seq<QuadNode>>,
                      after: seq<seq<QuadNode>>, P: (nat, bv32) -> bool, Coarse: (nat, bv32, Side) -> bool)
    requires |before| == NUM_QUAD_TREES && |merged| == NUM_QUAD_TREES && |split| == NUM_QUAD_TREES
    requires |after| == NUM_QUAD_TREES
    requires forall i | 0 <= i < NUM_QUAD_TREES ::
               MergeOutcome(before[i], merged[i], i, P) && InternalsSatisfy(merged[i], i, P)
    requires forall i | 0 <= i < NUM_QUAD_TREES :: WellFormed(split[i]) && SplitDone(merged[i], split[i], i, P)
    requires forall i | 0 <= i < NUM_QUAD_TREES :: ClosedHoles(split[i], after[i], i, Coarse)
    ensures AllPassesDone(before, merged, split, after, P, Coarse)
    ensures AllSettled(after, P)
  {
    forall i | 0 <= i < NUM_QUAD_TREES
      ensures InternalsSatisfy(after[i], i, P) && LeavesSettled(after[i], i, P)
    {
      SettledShape(split[i], after[i], i, P);
    }
  }

  /** Every face's internal nodes satisfy the decision and its leaves are settled. */
  ghost predicate AllSettled(ns: seq<seq<QuadNode>>, P: (nat, bv32) -> bool)
  {
    |ns| == NUM_QUAD_TREES
    && forall i | 0 <= i < NUM_QUAD_TREES :: InternalsSatisfy(ns[i], i, P) && LeavesSettled(ns[i], i, P)
  }

  /**
   * Every face's layout update, from `before` (first free index `freeBefore`)
   * to `after` (first free index `freeAfter`) against the trees `ns`,
   * reported the matching part of `added`.
   */
  ghost predicate AllReported(before: seq<seq<LayoutData>>, freeBefore: seq<nat>, after: seq<seq<LayoutData>>,
                              freeAfter: seq<nat>, ns: seq<seq<QuadNode>>, added: seq<seq<Change>>)
  {
    |after| == NUM_QUAD_TREES && FacesReported(before, freeBefore, after, freeAfter, ns, added)
  }

  /** The first `|after|` faces' layout updates reported the matching parts of `added`. */
  ghost predicate FacesReported(before: seq<seq<LayoutData>>, freeBefore: seq<nat>, after: seq<seq<LayoutData>>,
                                freeAfter: seq<nat>, ns: seq<seq<QuadNode>>, added: seq<seq<Change>>)
  {
    |before| == NUM_QUAD_TREES && |freeBefore| == NUM_QUAD_TREES && |ns| == NUM_QUAD_TREES
    && |after| <= NUM_QUAD_TREES && |freeAfter| == |after| && |added| == |after|
    && forall i {:trigger FaceReport(after[i], freeAfter[i], ns[i], i, before[i], Slots(before[i], freeBefore[i], MAX_NUM_NODES), added[i])}
         | 0 <= i < |after| ::
         FaceReport(after[i], freeAfter[i], ns[i], i, before[i], Slots(before[i], freeBefore[i], MAX_NUM_NODES), added[i])
  }

  /** Every face keeps the slot invariant when it held before and its leaves fit. */
  ghost predicate AllSlotsKept(before: seq<seq<LayoutData>>, freeBefore: seq<nat>, after: seq<seq<LayoutData>>,
                               freeAfter: seq<nat>, ns: seq<seq<QuadNode>>)
  {
    |before| == NUM_QUAD_TREES && |freeBefore| == NUM_QUAD_TREES && |after| == NUM_QUAD_TREES
    && |freeAfter| == NUM_QUAD_TREES && |ns| == NUM_QUAD_TREES
    && forall i | 0 <= i < NUM_QUAD_TREES ::
         SlotsKept(Slots(before[i], freeBefore[i], MAX_NUM_NODES), after[i], freeAfter[i], ns[i])
  }

  /** No face's layout holds a code it did not hold before. */
  ghost predicate NoneNew(after: seq<seq<LayoutData>>, before: seq<seq<LayoutData>>)
    requires |after| == NUM_QUAD_TREES && |before| == NUM_QUAD_TREES
  {
    forall i | 0 <= i < NUM_QUAD_TREES :: NoNewCode(after[i], before[i])
  }

  /** The per-face change lists joined in face order. */
  function Concat(parts: seq<seq<Change>>): (r: seq<Change>)
    ensures |parts| == 0 ==> r == []
  {
    if |parts| == 0 then [] else Concat(parts[..|parts| - 1]) + parts[|parts| - 1]
  }

  lemma ConcatAppend(parts: seq<seq<Change>>, last: seq<Change>)
    ensures Concat(parts + [last]) == Concat(parts) + last
  {
    assert (parts + [last])[..|parts|] == parts;
  }

  /** The joined list is empty exactly when every part is. */
  lemma {:induction false} ConcatEmpty(parts: seq<seq<Change>>)
    ensures |Concat(parts)| == 0 <==> forall k | 0 <= k < |parts| :: |parts[k]| == 0
    decreases |parts|
  {
    if |parts| > 0 {
      ConcatEmpty(parts[..|parts| - 1]);
    }
  }

  /** The joined change list is empty exactly when no face holds a new code. */
  lemma ReportsEmpty(before: seq<seq<LayoutData>>, freeBefore: seq<nat>, after: seq<seq<LayoutData>>,
                     freeAfter: seq<nat>, ns: seq<seq<QuadNode>>, added: seq<seq<Change>>)
    requires AllReported(before, freeBefore, after, freeAfter, ns, added)
    ensures |Concat(added)| == 0 <==> NoneNew(after, before)
  {
    ConcatEmpty(added);
    forall i | 0 <= i < NUM_QUAD_TREES
      ensures |added[i]| == 0 <==> NoNewCode(after[i], before[i])
    {
      assert FaceReport(after[i], freeAfter[i], ns[i], i, before[i], Slots(before[i], freeBefore[i], MAX_NUM_NODES), added[i]);
    }
  }

  /** Replacing the first untouched element of `done + rest[|done|..]` extends `done` by it. */
  lemma Replaced<T>(done: seq<T>, rest: seq<T>, x: T)
    requires |done| < |rest|
    ensures (done + rest[|done|..])[|done| := x] == (done + [x]) + rest[|done| + 1..]
  {
  }

  /**
   * The layout loop stopped at face `stopped`: the faces before it were
   * updated and reported the matching parts of `added`, the stopped face
   * holds only its retained entries with no slot free, and the faces after
   * it are untouched.
   */
  ghost predicate StoppedAt(before: seq<seq<LayoutData>>, freeBefore: seq<nat>, after: seq<seq<LayoutData>>,
                            freeAfter: seq<nat>, ns: seq<seq<QuadNode>>, added: seq<seq<Change>>, stopped: nat)
  {
    |before| == NUM_QUAD_TREES && |freeBefore| == NUM_QUAD_TREES && |after| == NUM_QUAD_TREES
    && |freeAfter| == NUM_QUAD_TREES && |ns| == NUM_QUAD_TREES && stopped < NUM_QUAD_TREES
    && FacesReported(before, freeBefore, after[..stopped], freeAfter[..stopped], ns, added)
    && after[stopped] == Retained(before[stopped], TreeLeafCodes(ns[stopped]))
    && freeAfter[stopped] == MAX_NUM_NODES
    && forall k | stopped < k < NUM_QUAD_TREES :: after[k] == before[k] && freeAfter[k] == freeBefore[k]
  }

  /**
   * A face whose update failed after the faces in `after` were reported
   * leaves the six layouts stopped at that face, with no free slot there,
   * and every face keeping the slot invariant.
   */
  lemma StoppedState(before: seq<seq<LayoutData>>, freeBefore: seq<nat>, after: seq<seq<LayoutData>>,
                     freeAfter: seq<nat>, ns: seq<seq<QuadNode>>, added: seq<seq<Change>>,
                     layout: seq<LayoutData>)
    requires FacesReported(before, freeBefore, after, freeAfter, ns, added) && |after| < NUM_QUAD_TREES
    requires layout == Retained(before[|after|], TreeLeafCodes(ns[|after|]))
    requires Slots(before[|after|], freeBefore[|after|], MAX_NUM_NODES) ==> Slots(layout, MAX_NUM_NODES, MAX_NUM_NODES)
    ensures var lays := (after + before[|after|..])[|after| := layout];
            var frees := (freeAfter + freeBefore[|after|..])[|after| := MAX_NUM_NODES];
            StoppedAt(before, freeBefore, lays, frees, ns, added, |after|)
            && MAX_NUM_NODES in frees && AllSlotsKept(before, freeBefore, lays, frees, ns)
  {
    var lays := (after + before[|after|..])[|after| := layout];
    var frees := (freeAfter + freeBefore[|after|..])[|after| := MAX_NUM_NODES];
    assert lays[..|after|] == after && frees[..|after|] == freeAfter;
    forall k | |after| < k < NUM_QUAD_TREES
      ensures lays[k] == before[k] && frees[k] == freeBefore[k]
    {
    }
    StoppedFull(before, freeBefore, lays, frees, ns, added, |after|);
    StoppedSlotsKept(before, freeBefore, lays, frees, ns, added, |after|);
  }

  /** A stopped layout loop leaves the stopped face with no free slot. */
  lemma StoppedFull(before: seq<seq<LayoutData>>, freeBefore: seq<nat>, after: seq<seq<LayoutData>>,
                    freeAfter: seq<nat>, ns: seq<seq<QuadNode>>, added: seq<seq<Change>>, stopped: nat)
    requires StoppedAt(before, freeBefore, after, freeAfter, ns, added, stopped)
    ensures MAX_NUM_NODES in freeAfter
  {
    assert freeAfter[stopped] == MAX_NUM_NODES;
  }

  /**
   * When the layout loop stops, every face keeps the slot invariant: the
   * ones before the stopped face by their reports, the stopped one because
   * it only dropped entries, and the ones after it untouched.
   */
  lemma StoppedSlotsKept(before: seq<seq<LayoutData>>, freeBefore: seq<nat>, after: seq<seq<LayoutData>>,
                         freeAfter: seq<nat>, ns: seq<seq<QuadNode>>, added: seq<seq<Change>>, stopped: nat)
    requires StoppedAt(before, freeBefore, after, freeAfter, ns, added, stopped)
    requires Slots(before[stopped], freeBefore[stopped], MAX_NUM_NODES) ==> Slots(after[stopped], MAX_NUM_NODES, MAX_NUM_NODES)
    ensures AllSlotsKept(before, freeBefore, after, freeAfter, ns)
  {
    var done, doneFree := after[..stopped], freeAfter[..stopped];
    forall k | 0 <= k < NUM_QUAD_TREES
      ensures SlotsKept(Slots(before[k], freeBefore[k], MAX_NUM_NODES), after[k], freeAfter[k], ns[k])
    {
      if k < stopped {
        assert after[k] == done[k] && freeAfter[k] == doneFree[k];
        assert FaceReport(done[k], doneFree[k], ns[k], k, before[k], Slots(before[k], freeBefore[k], MAX_NUM_NODES), added[k]);
      }
    }
  }

  /** A completed layout update keeps the slot invariant on every face whose leaves fit. */
  lemma ReportedSlotsKept(before: seq<seq<LayoutData>>, freeBefore: seq<nat>, after: seq<seq<LayoutData>>,
                          freeAfter: seq<nat>, ns: seq<seq<QuadNode>>, added: seq<seq<Change>>)
    requires AllReported(before, freeBefore, after, freeAfter, ns, added)
    ensures AllSlotsKept(before, freeBefore, after, freeAfter, ns)
  {
    forall i | 0 <= i < NUM_QUAD_TREES
      ensures SlotsKept(Slots(before[i], freeBefore[i], MAX_NUM_NODES), after[i], freeAfter[i], ns[i])
    {
      assert FaceReport(after[i], freeAfter[i], ns[i], i, before[i], Slots(before[i], freeBefore[i], MAX_NUM_NODES), added[i]);
    }
  }

  /** A face reported after the ones already reported extends the report by one face. */
  lemma ReportsExtended(before: seq<seq<LayoutData>>, freeBefore: seq<nat>, after: seq<seq<LayoutData>>,
                        freeAfter: seq<nat>, ns: seq<seq<QuadNode>>, added: seq<seq<Change>>,
                        layout: seq<LayoutData>, firstFree: nat, part: seq<Change>)
    requires FacesReported(before, freeBefore, after, freeAfter, ns, added) && |after| < |before|
    requires FaceReport(layout, firstFree, ns[|after|], |after|, before[|after|],
                        Slots(before[|after|], freeBefore[|after|], MAX_NUM_NODES), part)
    ensures FacesReported(before, freeBefore, after + [layout], freeAfter + [firstFree], ns, added + [part])
  {
    var after', freeAfter', added' := after + [layout], freeAfter + [firstFree], added + [part];
    forall i | 0 <= i < |after'|
      ensures FaceReport(after'[i], freeAfter'[i], ns[i], i, before[i], Slots(before[i], freeBefore[i], MAX_NUM_NODES), added'[i])
    {
      if i < |after| {
        assert after'[i] == after[i] && freeAfter'[i] == freeAfter[i] && added'[i] == added[i];
        assert FaceReport(after[i], freeAfter[i], ns[i], i, before[i], Slots(before[i], freeBefore[i], MAX_NUM_NODES), added[i]);
      }
    }
  }

  class LodManager {
    const trees: seq<LodQuadTree>
    const layouts: seq<LodBufferLayout>

    /** Six distinct trees and six distinct layouts of MAX_NUM_NODES slots, each valid. */
    ghost predicate Valid()
      reads this, trees, layouts
    {
      |trees| == NUM_QUAD_TREES && |layouts| == NUM_QUAD_TREES
      && (forall i, j | 0 <= i < j < NUM_QUAD_TREES :: trees[i] != trees[j])
      && (forall i, j | 0 <= i < j < NUM_QUAD_TREES :: layouts[i] != layouts[j])
      && (forall i | 0 <= i < NUM_QUAD_TREES :: trees[i].Valid())
      && (forall i | 0 <= i < NUM_QUAD_TREES :: layouts[i].Valid() && layouts[i].maxSize == MAX_NUM_NODES)
    }

    /** Each face starts as a single root leaf with an empty layout. */
    constructor ()
      ensures Valid()
      ensures forall i | 0 <= i < NUM_QUAD_TREES ::
                fresh(trees[i]) && fresh(layouts[i])
                && trees[i].nodes == [NewNode(ROOT_NODE_CODE, None)]
                && layouts[i].layout == [] && layouts[i].firstFree == 0
                && Slots(layouts[i].layout, layouts[i].firstFree, layouts[i].maxSize)
    {
      var ts: seq<LodQuadTree> := [];
      var ls: seq<LodBufferLayout> := [];
      for i := 0 to NUM_QUAD_TREES
        invariant |ts| == i && |ls| == i
        invariant forall k | 0 <= k < i ::
                    fresh(ts[k]) && fresh(ls[k])
                    && ts[k].nodes == [NewNode(ROOT_NODE_CODE, None)] && ts[k].Valid()
                    && ls[k].layout == [] && ls[k].firstFree == 0 && ls[k].maxSize == MAX_NUM_NODES
                    && ls[k].Valid() && Slots(ls[k].layout, ls[k].firstFree, ls[k].maxSize)
        invariant forall k, l | 0 <= k < l < i :: ts[k] != ts[l] && ls[k] != ls[l]
      {
        var t := new LodQuadTree();
        var l := new LodBufferLayout(MAX_NUM_NODES);
        ts := ts + [t];
        ls := ls + [l];
      }
      trees := ts;
      layouts := ls;
    }

    /** The node records of the six trees. */
    ghost function TreeNodes(): (r: seq<seq<QuadNode>>)
      requires |trees| == NUM_QUAD_TREES
      reads this, trees
      ensures |r| == NUM_QUAD_TREES && forall i | 0 <= i < NUM_QUAD_TREES :: r[i] == trees[i].nodes
    {
      [trees[0].nodes, trees[1].nodes, trees[2].nodes, trees[3].nodes, trees[4].nodes, trees[5].nodes]
    }

    /** The entries of the six layouts. */
    ghost function Layouts(): (r: seq<seq<LayoutData>>)
      requires |layouts| == NUM_QUAD_TREES
      reads this, layouts
      ensures |r| == NUM_QUAD_TREES && forall i | 0 <= i < NUM_QUAD_TREES :: r[i] == layouts[i].layout
    {
      [layouts[0].layout, layouts[1].layout, layouts[2].layout, layouts[3].layout, layouts[4].layout, layouts[5].layout]
    }

    /** The first free indices of the six layouts. */
    ghost function FreeIndices(): (r: seq<nat>)
      requires |layouts| == NUM_QUAD_TREES
      reads this, layouts
      ensures |r| == NUM_QUAD_TREES && forall i | 0 <= i < NUM_QUAD_TREES :: r[i] == layouts[i].firstFree
    {
      [layouts[0].firstFree, layouts[1].firstFree, layouts[2].firstFree,
       layouts[3].firstFree, layouts[4].firstFree, layouts[5].firstFree]
    }

    /** merge_quad_trees: the merge pass on every face. */
    method MergeQuadTrees(P: (nat, bv32) -> bool)
      requires Valid()
      modifies trees
      ensures Valid()
      ensures forall i | 0 <= i < NUM_QUAD_TREES ::
                MergeOutcome(old(trees[i].nodes), trees[i].nodes, i, P) && InternalsSatisfy(trees[i].nodes, i, P)
    {
      for i := 0 to NUM_QUAD_TREES
        invariant Valid()
        invariant forall k | 0 <= k < i ::
                    MergeOutcome(old(trees[k].nodes), trees[k].nodes, k, P) && InternalsSatisfy(trees[k].nodes, k, P)
        invariant forall k | i <= k < NUM_QUAD_TREES :: trees[k].nodes == old(trees[k].nodes)
      {
        MergeTree(trees[i], i, P);
      }
    }

    /** split_quad_trees: the split pass on every face. */
    method SplitQuadTrees(P: (nat, bv32) -> bool)
      requires Valid()
      modifies trees
      ensures Valid()
      ensures forall i | 0 <= i < NUM_QUAD_TREES :: SplitDone(old(trees[i].nodes), trees[i].nodes, i, P)
    {
      for i := 0 to NUM_QUAD_TREES
        invariant Valid()
        invariant forall k | 0 <= k < i :: SplitDone(old(trees[k].nodes), trees[k].nodes, k, P)
        invariant forall k | i <= k < NUM_QUAD_TREES :: trees[k].nodes == old(trees[k].nodes)
      {
        SplitTree(trees[i], i, P);
      }
    }

    /** close_holes: the edge-smoothing pass on every face. */
    method CloseHoles(Coarse: (nat, bv32, Side) -> bool)
      requires Valid()
      modifies trees
      ensures Valid()
      ensures forall i | 0 <= i < NUM_QUAD_TREES :: ClosedHoles(old(trees[i].nodes), trees[i].nodes, i, Coarse)
    {
      for i := 0 to NUM_QUAD_TREES
        invariant Valid()
        invariant forall k | 0 <= k < i :: ClosedHoles(old(trees[k].nodes), trees[k].nodes, k, Coarse)
        invariant forall k | i <= k < NUM_QUAD_TREES :: trees[k].nodes == old(trees[k].nodes)
      {
        CloseHolesTree(trees[i], i, Coarse);
      }
    }

    /**
     * The layout-update loop: every face's layout is updated from that face's
     * leaves, threading one change list through the six calls. A full layout
     * stops the loop with the error. On success the change list is the six
     * faces' reports joined in face order.
     */
    method UpdateLayouts() returns (r: Result<seq<Change>, LayoutError>, ghost added: seq<seq<Change>>, ghost stopped: nat)
      requires Valid()
      modifies layouts
      ensures Valid() && TreeNodes() == old(TreeNodes())
      ensures r.Failure? ==>
                StoppedAt(old(Layouts()), old(FreeIndices()), Layouts(), FreeIndices(), TreeNodes(), added, stopped)
      ensures r.Failure? ==> MAX_NUM_NODES in FreeIndices()
      ensures r.Success? ==>
                r.value == Concat(added)
                && AllReported(old(Layouts()), old(FreeIndices()), Layouts(), FreeIndices(), TreeNodes(), added)
      ensures r.Success? ==> (|r.value| == 0 <==> NoneNew(Layouts(), old(Layouts())))
      ensures AllSlotsKept(old(Layouts()), old(FreeIndices()), Layouts(), FreeIndices(), TreeNodes())
    {
      ghost var ns := TreeNodes();
      ghost var before := Layouts();
      ghost var free0 := FreeIndices();
      ghost var after: seq<seq<LayoutData>> := [];
      ghost var freeAfter: seq<nat> := [];
      var changes: seq<Change> := [];
      added := [];
      stopped := 0;
      for i := 0 to NUM_QUAD_TREES
        invariant Valid() && TreeNodes() == ns
        invariant |after| == i && |freeAfter| == i && changes == Concat(added)
        invariant FacesReported(before, free0, after, freeAfter, ns, added)
        invariant Layouts() == after + before[i..] && FreeIndices() == freeAfter + free0[i..]
      {
        ghost var cur, curFree := Layouts(), FreeIndices();
        var res, part := UpdateFace(i, changes, Slots(before[i], free0[i], MAX_NUM_NODES));
        ReplacedAt(i, cur, curFree);
        if res.Failure? {
          StoppedState(before, free0, after, freeAfter, ns, added, layouts[i].layout);
          return Failure(res.error), added, i;
        }
        Replaced(after, before, layouts[i].layout);
        Replaced(freeAfter, free0, layouts[i].firstFree);
        ConcatAppend(added, part);
        ReportsExtended(before, free0, after, freeAfter, ns, added, layouts[i].layout, layouts[i].firstFree, part);
        added := added + [part];
        after := after + [layouts[i].layout];
        freeAfter := freeAfter + [layouts[i].firstFree];
        changes := res.value;
      }
      assert before[NUM_QUAD_TREES..] == [] && free0[NUM_QUAD_TREES..] == [];
      ReportsEmpty(before, free0, after, freeAfter, ns, added);
      ReportedSlotsKept(before, free0, after, freeAfter, ns, added);
      assert Layouts() == after && FreeIndices() == freeAfter;
      return Success(changes), added, stopped;
    }

    /** The snapshots name the six layouts' entries and first free indices. */
    lemma LayoutsAre(lays: seq<seq<LayoutData>>, frees: seq<nat>)
      requires |layouts| == NUM_QUAD_TREES && |lays| == NUM_QUAD_TREES && |frees| == NUM_QUAD_TREES
      requires forall k | 0 <= k < NUM_QUAD_TREES :: layouts[k].layout == lays[k] && layouts[k].firstFree == frees[k]
      ensures Layouts() == lays && FreeIndices() == frees
    {
    }

    /** Only face `i`'s layout differs from `prev`. */
    lemma ReplacedAt(i: nat, prev: seq<seq<LayoutData>>, prevFree: seq<nat>)
      requires |layouts| == NUM_QUAD_TREES && i < NUM_QUAD_TREES
      requires |prev| == NUM_QUAD_TREES && |prevFree| == NUM_QUAD_TREES
      requires forall k | 0 <= k < NUM_QUAD_TREES && k != i :: layouts[k].layout == prev[k] && layouts[k].firstFree == prevFree[k]
      ensures Layouts() == prev[i := layouts[i].layout] && FreeIndices() == prevFree[i := layouts[i].firstFree]
    {
    }

    /** One face's step of the layout-update loop: its report is appended to `changes`. */
    method UpdateFace(i: nat, changes: seq<Change>, ghost slotsBefore: bool)
      returns (r: Result<seq<Change>, LayoutError>, ghost part: seq<Change>)
      requires Valid() && i < NUM_QUAD_TREES
      requires slotsBefore == Slots(layouts[i].layout, layouts[i].firstFree, MAX_NUM_NODES)
      modifies layouts[i]
      ensures Valid() && TreeNodes() == old(TreeNodes())
      ensures forall k | 0 <= k < NUM_QUAD_TREES && k != i ::
                layouts[k].layout == old(layouts[k].layout) && layouts[k].firstFree == old(layouts[k].firstFree)
      ensures r.Failure? ==>
                layouts[i].layout == Retained(old(layouts[i].layout), TreeLeafCodes(trees[i].nodes))
                && layouts[i].firstFree == MAX_NUM_NODES
                && (slotsBefore ==> Slots(layouts[i].layout, layouts[i].firstFree, MAX_NUM_NODES))
      ensures r.Success? ==>
                r.value == changes + part
                && FaceReport(layouts[i].layout, layouts[i].firstFree, trees[i].nodes, i, old(layouts[i].layout), slotsBefore, part)
    {
      var infos := LeafInfos(trees[i].nodes);
      LeafInfosCodes(trees[i].nodes);
      ghost var before := layouts[i].layout;
      r := layouts[i].UpdateIndices(infos, changes, i);
      part := [];
      if r.Success? {
        part := r.value[|changes|..];
        UpdateReported(before, layouts[i].layout, layouts[i].firstFree, trees[i].nodes, i, slotsBefore, changes, r.value);
      }
    }

    /** The tree half of run_lod_kernels: merge, split and smooth every face. */
    method UpdateTrees(P: (nat, bv32) -> bool, Coarse: (nat, bv32, Side) -> bool)
      returns (ghost merged: seq<seq<QuadNode>>, ghost split: seq<seq<QuadNode>>)
      requires Valid()
      modifies trees
      ensures Valid()
      ensures AllPassesDone(old(TreeNodes()), merged, split, TreeNodes(), P, Coarse)
      ensures AllSettled(TreeNodes(), P)
    {
      ghost var before := TreeNodes();
      MergeQuadTrees(P);
      merged := TreeNodes();
      SplitQuadTrees(P);
      split := TreeNodes();
      CloseHoles(Coarse);
      PassesSettled(before, merged, split, TreeNodes(), P, Coarse);
    }

    /**
     * run_lod_kernels: merge, split and smooth the trees, then update the
     * layouts; the answer is whether any slot was newly allocated.
     */
    method RunLodKernels(P: (nat, bv32) -> bool, Coarse: (nat, bv32, Side) -> bool)
      returns (r: Result<bool, LayoutError>, ghost merged: seq<seq<QuadNode>>, ghost split: seq<seq<QuadNode>>,
               ghost added: seq<seq<Change>>, ghost stopped: nat)
      requires Valid()
      modifies trees, layouts
      ensures Valid()
      ensures AllPassesDone(old(TreeNodes()), merged, split, TreeNodes(), P, Coarse)
      ensures AllSettled(TreeNodes(), P)
      ensures r.Failure? ==>
                StoppedAt(old(Layouts()), old(FreeIndices()), Layouts(), FreeIndices(), TreeNodes(), added, stopped)
      ensures r.Failure? ==> MAX_NUM_NODES in FreeIndices()
      ensures r.Success? ==> AllReported(old(Layouts()), old(FreeIndices()), Layouts(), FreeIndices(), TreeNodes(), added)
      ensures r.Success? ==> (r.value <==> !NoneNew(Layouts(), old(Layouts())))
      ensures AllSlotsKept(old(Layouts()), old(FreeIndices()), Layouts(), FreeIndices(), TreeNodes())
    {
      ghost var lays, frees := Layouts(), FreeIndices();
      merged, split := UpdateTrees(P, Coarse);
      LayoutsAre(lays, frees);
      var changes;
      changes, added, stopped := UpdateLayouts();
      if changes.Failure? {
        return Failure(changes.error), merged, split, added, stopped;
      }
      return Success(|changes.value| != 0), merged, split, added, stopped;
    }

    /** The six layouts concatenated in face order, up to face `k`. */
    ghost function Joined(k: nat): seq<LayoutData>
      requires k <= |layouts|
      reads this, layouts
    {
      if k == 0 then [] else Joined(k - 1) + layouts[k - 1].layout
    }

    /** The number of distinct codes in the first `k` layouts. */
    ghost function CodeTotal(k: nat): nat
      requires k <= |layouts|
      reads this, layouts
    {
      if k == 0 then 0 else CodeTotal(k - 1) + |Codes(layouts[k - 1].layout)|
    }

    /** get_full_lod_buffer_layout: the six layouts concatenated in face order. */
    method GetFullLayout() returns (r: seq<LayoutData>)
      requires Valid()
      ensures r == Joined(NUM_QUAD_TREES)
    {
      r := [];
      for i := 0 to NUM_QUAD_TREES
        invariant r == Joined(i)
      {
        r := r + layouts[i].layout;
      }
    }

    /** get_node_count: the number of layout entries over all faces, one per distinct code of each face. */
    method GetNodeCount() returns (n: nat)
      requires Valid()
      ensures n == |Joined(NUM_QUAD_TREES)|
      ensures n == CodeTotal(NUM_QUAD_TREES)
    {
      var full := GetFullLayout();
      n := |full|;
      JoinedCount(NUM_QUAD_TREES);
    }

    lemma {:induction false} JoinedCount(k: nat)
      requires Valid() && k <= NUM_QUAD_TREES
      ensures |Joined(k)| == CodeTotal(k)
    {
      if k > 0 {
        JoinedCount(k - 1);
        DistinctCodesCount(layouts[k - 1].layout);
      }
    }
  }
}
