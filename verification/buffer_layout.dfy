/**
 * The slot allocator that maps the leaves of one face's quadtree to positions
 * in the GPU vertex buffer. Each layout entry records a node code, its slot,
 * its face and its edge-smoothing flags; each newly allocated slot is also
 * reported in a change list for the compute shader.
 *
 * UpdateIndices first drops every entry whose code is not among the new
 * leaves, lowering the first free slot to the lowest slot it frees, and then
 * allocates a slot for every new leaf code not yet in the layout, probing
 * forward for the next free slot after each allocation. The capacity check
 * happens once, between the two passes.
 */
module BufferLayout {
  import opened Wrappers

  /** One layout entry: node code, slot, face and edge-smoothing flags. */
  datatype LayoutData = LayoutData(code: bv32, position: nat, face: nat, flags: bv32)

  /** One entry of the change list: the new node code, its slot and its face. */
  datatype Change = Change(code: bv32, offset: nat, face: nat)

  /** What the allocator reads from a leaf it is given. */
  datatype LeafInfo = LeafInfo(code: bv32, flags: bv32)

  /** The exception thrown when the buffer has no free slot. */
  datatype LayoutError = LayoutFull

  function Codes(s: seq<LayoutData>): set<bv32>
  {
    set e | e in s :: e.code
  }

  function LeafCodes(s: seq<LeafInfo>): set<bv32>
  {
    set n | n in s :: n.code
  }

  function Positions(s: seq<LayoutData>): set<nat>
  {
    set e | e in s :: e.position
  }

  predicate Occupied(s: seq<LayoutData>, p: nat)
  {
    exists e | e in s :: e.position == p
  }

  /** `p` is the lowest slot `s` leaves free. */
  predicate LeastFree(s: seq<LayoutData>, p: nat)
  {
    !Occupied(s, p) && forall q: nat | q < p :: Occupied(s, q)
  }

  /** Every entry from index `from` on took the lowest slot left free by the entries before it. */
  ghost predicate FirstFit(s: seq<LayoutData>, from: nat)
  {
    forall k | from <= k < |s| :: LeastFree(s[..k], s[k].position)
  }

  /** No two entries share a node code. */
  ghost predicate DistinctCodes(s: seq<LayoutData>)
  {
    forall a, b | 0 <= a < b < |s| :: s[a].code != s[b].code
  }

  /**
   * The slot invariant: distinct entries have distinct slots, all inside the
   * buffer; every slot below the first free index is taken; the first free
   * index is at most the buffer size and, when below it, names a free slot.
   */
  ghost predicate Slots(s: seq<LayoutData>, firstFree: nat, maxSize: nat)
  {
    (forall e1, e2 | e1 in s && e2 in s && e1 != e2 :: e1.position != e2.position)
    && (forall e | e in s :: e.position < maxSize)
    && (forall p: nat | p < firstFree :: Occupied(s, p))
    && firstFree <= maxSize
    && (firstFree < maxSize ==> !Occupied(s, firstFree))
  }

  /** The entries of `s` whose code is not in `drop`, in their order. */
  function Without(s: seq<LayoutData>, drop: set<bv32>): (r: seq<LayoutData>)
    ensures forall e :: e in r <==> e in s && e.code !in drop
    ensures |r| <= |s|
  {
    if |s| == 0 then []
    else if s[0].code in drop then Without(s[1..], drop)
    else [s[0]] + Without(s[1..], drop)
  }

  /** The entries the removal pass keeps: those whose code is among the new leaves. */
  function Retained(s: seq<LayoutData>, codes: set<bv32>): (r: seq<LayoutData>)
    ensures forall e :: e in r <==> e in s && e.code in codes
  {
    Without(s, Codes(s) - codes)
  }

  /** The first free index after the removal pass has looked at the entries of `s`, starting from `ff`. */
  function FreeAfterRemoval(s: seq<LayoutData>, ff: nat, codes: set<bv32>): nat
  {
    if |s| == 0 then ff
    else
      var ff' := if s[0].code !in codes && s[0].position < ff then s[0].position else ff;
      FreeAfterRemoval(s[1..], ff', codes)
  }

  function ChangeOf(e: LayoutData): Change
  {
    Change(e.code, e.position, e.face)
  }

  /** The change-list entries reporting the allocations in `s`. */
  function ChangesOf(s: seq<LayoutData>): (r: seq<Change>)
    ensures |r| == |s|
    ensures forall i | 0 <= i < |s| :: r[i] == Change(s[i].code, s[i].position, s[i].face)
  {
    if |s| == 0 then [] else ChangesOf(s[..|s| - 1]) + [ChangeOf(s[|s| - 1])]
  }

  class LodBufferLayout {
    var layout: seq<LayoutData>
    var firstFree: nat
    const maxSize: nat

    ghost predicate Valid()
      reads this
    {
      DistinctCodes(layout)
    }

    /** An empty layout over a buffer of `maxSize` slots. */
    constructor (maxSize: nat)
      ensures this.maxSize == maxSize && layout == [] && firstFree == 0
      ensures Valid() && Slots(layout, firstFree, maxSize)
    {
      this.maxSize := maxSize;
      layout := [];
      firstFree := 0;
    }

    /**
     * Drops the entries whose code is not among `codes`, lowering the first
     * free index to the lowest slot that becomes free.
     */
    method RemoveUnused(codes: set<bv32>)
      requires Valid()
      modifies this
      ensures Valid()
      ensures layout == Retained(old(layout), codes)
      ensures firstFree == FreeAfterRemoval(old(layout), old(firstFree), codes)
    {
      var snapshot := layout;
      ghost var ff0 := firstFree;
      WithoutNothing(snapshot);
      assert snapshot[..0] == [];
      assert Codes(snapshot[..0]) - codes == {};
      var k := 0;
      while k < |snapshot|
        invariant 0 <= k <= |snapshot|
        invariant layout == Without(snapshot, Codes(snapshot[..k]) - codes)
        invariant FreeAfterRemoval(snapshot[k..], firstFree, codes) == FreeAfterRemoval(snapshot, ff0, codes)
      {
        var d := snapshot[k];
        RemovalStep(snapshot, k, codes);
        if d.code !in codes {
          layout := Without(layout, {d.code});
          if d.position < firstFree {
            firstFree := d.position;
          }
        }
        k := k + 1;
      }
      assert snapshot[..k] == snapshot;
      assert snapshot[k..] == [];
      WithoutDistinct(snapshot, Codes(snapshot) - codes);
    }

    /** Moves the first free index past the slot just allocated and every taken slot after it. */
    method ProbeNextFree()
      requires Occupied(layout, firstFree)
      modifies this
      ensures layout == old(layout)
      ensures firstFree > old(firstFree)
      ensures firstFree == old(firstFree) + 1 || firstFree <= maxSize
      ensures forall p: nat | old(firstFree) <= p < firstFree :: Occupied(layout, p)
      ensures firstFree < maxSize ==> !Occupied(layout, firstFree)
    {
      firstFree := firstFree + 1;
      while firstFree < maxSize && Occupied(layout, firstFree)
        invariant layout == old(layout)
        invariant firstFree > old(firstFree)
        invariant firstFree == old(firstFree) + 1 || firstFree <= maxSize
        invariant forall p: nat | old(firstFree) <= p < firstFree :: Occupied(layout, p)
      {
        firstFree := firstFree + 1;
      }
    }

    /**
     * The allocation pass: gives every leaf code not yet in the layout the
     * first free slot, appending one entry to the layout and one change to
     * `changes`, and probes for the next free slot after each.
     */
    method Allocate(newNodes: seq<LeafInfo>, changes: seq<Change>, face: nat) returns (out: seq<Change>)
      requires Valid()
      modifies this
      ensures Valid()
      ensures |old(layout)| <= |layout| && layout[..|old(layout)|] == old(layout)
      ensures Codes(layout) == Codes(old(layout)) + LeafCodes(newNodes)
      ensures out == changes + ChangesOf(layout[|old(layout)|..])
      ensures forall e | e in layout[|old(layout)|..] ::
                e.code !in Codes(old(layout)) && e.face == face && LeafInfo(e.code, e.flags) in newNodes
      ensures (old(Slots(layout, firstFree, maxSize)) && Codes(old(layout)) <= LeafCodes(newNodes)
               && |LeafCodes(newNodes)| <= maxSize) ==>
                Slots(layout, firstFree, maxSize) && FirstFit(layout, |old(layout)|)
    {
      ghost var kept := layout;
      ghost var fits := Slots(layout, firstFree, maxSize) && Codes(kept) <= LeafCodes(newNodes)
                        && |LeafCodes(newNodes)| <= maxSize;
      out := changes;
      var j := 0;
      AllocStart(layout, changes, newNodes, face, fits, firstFree, maxSize);
      while j < |newNodes|
        invariant 0 <= j <= |newNodes|
        invariant AllocInv(kept, layout, out, changes, newNodes, j, face, fits, firstFree, maxSize)
      {
        var node := newNodes[j];
        if node.code !in Codes(layout) {
          var entry := LayoutData(node.code, firstFree, face, node.flags);
          ghost var before, ff, out0 := layout, firstFree, out;
          layout := layout + [entry];
          out := out + [ChangeOf(entry)];
          ProbeNextFree();
          AllocationStep(kept, before, out0, changes, newNodes, j, face, fits, ff, firstFree, maxSize, entry);
        } else {
          SkipStep(kept, layout, out, changes, newNodes, j, face, fits, firstFree, maxSize);
        }
        j := j + 1;
      }
      AllocDone(kept, layout, out, changes, newNodes, face, fits, firstFree, maxSize);
    }

    /**
     * Frees the slots of leaves that are gone, then allocates a slot for each
     * new leaf, appending one change per allocation to `changes`. Fails,
     * after the removal pass, when the first free index equals the buffer size.
     */
    method UpdateIndices(newNodes: seq<LeafInfo>, changes: seq<Change>, face: nat)
      returns (r: Result<seq<Change>, LayoutError>)
      requires Valid()
      modifies this
      ensures Valid()
      ensures r.Failure? <==> FreeAfterRemoval(old(layout), old(firstFree), LeafCodes(newNodes)) == maxSize
      ensures r.Failure? ==> layout == Retained(old(layout), LeafCodes(newNodes)) && firstFree == maxSize
      ensures r.Success? ==>
                var kept := Retained(old(layout), LeafCodes(newNodes));
                |kept| <= |layout| && layout[..|kept|] == kept
                && Codes(layout) == LeafCodes(newNodes)
                && r.value == changes + ChangesOf(layout[|kept|..])
                && (forall e | e in layout[|kept|..] ::
                      e.code !in Codes(old(layout)) && e.face == face && LeafInfo(e.code, e.flags) in newNodes)
      ensures r.Success? && old(Slots(layout, firstFree, maxSize)) && |LeafCodes(newNodes)| <= maxSize ==>
                Slots(layout, firstFree, maxSize)
                && FirstFit(layout, |Retained(old(layout), LeafCodes(newNodes))|)
      ensures r.Failure? && old(Slots(layout, firstFree, maxSize)) ==> Slots(layout, firstFree, maxSize)
    {
      var codes := LeafCodes(newNodes);
      ghost var old0 := layout;
      ghost var slots0 := Slots(layout, firstFree, maxSize);
      RemoveUnused(codes);
      if slots0 {
        RemovalKeepsSlots(old0, old(firstFree), codes, maxSize);
      }
      if firstFree == maxSize {
        return Failure(LayoutFull);
      }
      ghost var kept := layout;
      assert Codes(kept) <= codes;
      var out := Allocate(newNodes, changes, face);
      AllocatedFresh(old0, layout, codes, face, newNodes);
      return Success(out);
    }
  }

  // ---------------------------------------------------------------------------
  // Lemmas

  lemma {:induction false} WithoutWithout(s: seq<LayoutData>, a: set<bv32>, b: set<bv32>)
    ensures Without(Without(s, a), b) == Without(s, a + b)
  {
    if |s| > 0 {
      WithoutWithout(s[1..], a, b);
    }
  }

  lemma {:induction false} WithoutDistinct(s: seq<LayoutData>, drop: set<bv32>)
    requires DistinctCodes(s)
    ensures DistinctCodes(Without(s, drop))
  {
    if |s| > 0 {
      WithoutDistinct(s[1..], drop);
      var t := Without(s[1..], drop);
      assert forall e | e in t :: e.code != s[0].code by {
        forall e | e in t ensures e.code != s[0].code {
          var b :| 0 <= b < |s[1..]| && s[1..][b] == e;
          assert s[b + 1] == e;
        }
      }
    }
  }

  /** A sequence of distinct codes has as many codes as entries. */
  lemma {:induction false} DistinctCodesCount(s: seq<LayoutData>)
    requires DistinctCodes(s)
    ensures |Codes(s)| == |s|
  {
    if |s| > 0 {
      var prefix := s[..|s| - 1];
      var d := s[|s| - 1];
      assert s == prefix + [d];
      DistinctCodesCount(prefix);
      forall e | e in prefix ensures e.code != d.code {
        var a :| 0 <= a < |prefix| && prefix[a] == e;
        assert s[a] == e;
      }
      assert Codes(s) == Codes(prefix) + {d.code};
    }
  }

  lemma {:induction false} PositionsCount(s: seq<LayoutData>)
    ensures |Positions(s)| <= |s|
  {
    if |s| > 0 {
      var prefix := s[..|s| - 1];
      assert s == prefix + [s[|s| - 1]];
      PositionsCount(prefix);
      assert Positions(s) == Positions(prefix) + {s[|s| - 1].position};
    }
  }

  /** The slots below `n`. */
  function Range(n: nat): (r: set<nat>)
    ensures forall p: nat :: p in r <==> p < n
    ensures |r| == n
  {
    if n == 0 then {} else Range(n - 1) + {n - 1}
  }

  lemma {:induction false} SubsetCount<T>(a: set<T>, b: set<T>)
    requires a <= b
    ensures |a| <= |b|
    decreases a
  {
    if a != {} {
      var x :| x in a;
      SubsetCount(a - {x}, b - {x});
    }
  }

  /** A layout whose slots below `ff` are all taken has at least `ff` entries. */
  lemma FilledPrefixCount(s: seq<LayoutData>, ff: nat)
    requires forall p: nat | p < ff :: Occupied(s, p)
    ensures |s| >= ff
  {
    forall p: nat | p in Range(ff) ensures p in Positions(s) {
      assert Occupied(s, p);
    }
    SubsetCount(Range(ff), Positions(s));
    PositionsCount(s);
  }

  /** The removal pass keeps the slot invariant. */
  lemma RemovalKeepsSlots(s: seq<LayoutData>, ff: nat, codes: set<bv32>, maxSize: nat)
    requires Slots(s, ff, maxSize)
    ensures Slots(Retained(s, codes), FreeAfterRemoval(s, ff, codes), maxSize)
  {
    var r := Retained(s, codes);
    var ff' := FreeAfterRemoval(s, ff, codes);
    FreeAfterRemovalIsMin(s, ff, codes);
    forall p: nat | p < ff' ensures Occupied(r, p) {
      assert Occupied(s, p);
      var e :| e in s && e.position == p;
      assert e.code in codes;
    }
    if ff' < maxSize {
      forall e | e in r ensures e.position != ff' {
        if ff' != ff {
          var d :| d in s && d.code !in codes && ff' == d.position;
          assert e != d;
        }
      }
    }
  }

  /**
   * While the final layout fits in the buffer, an allocation finds the first
   * free index inside the buffer and free.
   */
  lemma AllocationFits(layout: seq<LayoutData>, kept: seq<LayoutData>, newNodes: seq<LeafInfo>, j: nat,
                       ff: nat, maxSize: nat)
    requires j < |newNodes| && DistinctCodes(layout) && Slots(layout, ff, maxSize)
    requires Codes(kept) <= LeafCodes(newNodes) && |LeafCodes(newNodes)| <= maxSize
    requires Codes(layout) == Codes(kept) + LeafCodes(newNodes[..j])
    requires newNodes[j].code !in Codes(layout)
    ensures ff < maxSize && !Occupied(layout, ff)
  {
    assert newNodes[j] in newNodes;
    assert Codes(layout) + {newNodes[j].code} <= LeafCodes(newNodes) by {
      forall c | c in LeafCodes(newNodes[..j]) ensures c in LeafCodes(newNodes) {
        var n :| n in newNodes[..j] && n.code == c;
      }
    }
    DistinctCodesCount(layout);
    SubsetCount(Codes(layout) + {newNodes[j].code}, LeafCodes(newNodes));
    FilledPrefixCount(layout, ff);
  }

  /** An entry placed at the first free index of a layout under the slot invariant takes the lowest free slot. */
  lemma FirstFitAppend(s: seq<LayoutData>, from: nat, e: LayoutData, ff: nat, maxSize: nat)
    requires from <= |s| && FirstFit(s, from) && Slots(s, ff, maxSize) && ff < maxSize && e.position == ff
    ensures FirstFit(s + [e], from)
  {
    var s' := s + [e];
    forall k | from <= k < |s'|
      ensures LeastFree(s'[..k], s'[k].position)
    {
      if k < |s| {
        assert s'[..k] == s[..k];
      } else {
        assert s'[..k] == s;
      }
    }
  }

  /** One iteration of the removal pass, on the layout and on the first free index. */
  lemma RemovalStep(s: seq<LayoutData>, k: nat, codes: set<bv32>)
    requires k < |s|
    ensures s[k].code !in codes ==>
              Without(Without(s, Codes(s[..k]) - codes), {s[k].code}) == Without(s, Codes(s[..k + 1]) - codes)
    ensures s[k].code in codes ==> Codes(s[..k + 1]) - codes == Codes(s[..k]) - codes
    ensures s[k..][1..] == s[k + 1..]
  {
    var d := s[k];
    assert s[..k + 1] == s[..k] + [d];
    assert Codes(s[..k + 1]) == Codes(s[..k]) + {d.code};
    if d.code !in codes {
      WithoutWithout(s, Codes(s[..k]) - codes, {d.code});
      assert Codes(s[..k + 1]) - codes == (Codes(s[..k]) - codes) + {d.code};
    }
  }

  /**
   * The allocation pass after `j` leaves: the kept entries come first, the
   * codes are the kept ones plus those of the leaves seen, `out` reports every
   * entry after the kept ones, and those entries carry fresh codes, the face
   * and a leaf's flags.
   */
  ghost predicate AllocState(kept: seq<LayoutData>, layout: seq<LayoutData>, out: seq<Change>, changes: seq<Change>,
                             newNodes: seq<LeafInfo>, j: nat, face: nat)
  {
    j <= |newNodes| && DistinctCodes(layout) && |kept| <= |layout| && layout[..|kept|] == kept
    && Codes(layout) == Codes(kept) + LeafCodes(newNodes[..j])
    && out == changes + ChangesOf(layout[|kept|..])
    && forall e | e in layout[|kept|..] ::
         e.code !in Codes(kept) && e.face == face && LeafInfo(e.code, e.flags) in newNodes
  }

  /** The slot invariant holds and the entries from `from` on were placed first-fit. */
  ghost predicate Dense(layout: seq<LayoutData>, from: nat, ff: nat, maxSize: nat)
  {
    Slots(layout, ff, maxSize) && FirstFit(layout, from)
  }

  /**
   * The allocation pass's loop invariant: its bookkeeping, and, when the
   * slot invariant held at the start and the leaves fit, the slot invariant
   * with every entry after the kept ones placed first-fit.
   */
  ghost predicate AllocInv(kept: seq<LayoutData>, layout: seq<LayoutData>, out: seq<Change>, changes: seq<Change>,
                           newNodes: seq<LeafInfo>, j: nat, face: nat, fits: bool, ff: nat, maxSize: nat)
  {
    AllocState(kept, layout, out, changes, newNodes, j, face)
    && (fits ==> Codes(kept) <= LeafCodes(newNodes) && |LeafCodes(newNodes)| <= maxSize
                 && Dense(layout, |kept|, ff, maxSize))
  }

  /** The allocation pass starts with nothing allocated. */
  lemma AllocStart(layout: seq<LayoutData>, changes: seq<Change>, newNodes: seq<LeafInfo>, face: nat,
                   fits: bool, ff: nat, maxSize: nat)
    requires DistinctCodes(layout)
    requires fits ==> Slots(layout, ff, maxSize) && Codes(layout) <= LeafCodes(newNodes)
                      && |LeafCodes(newNodes)| <= maxSize
    ensures AllocInv(layout, layout, changes, changes, newNodes, 0, face, fits, ff, maxSize)
  {
    assert newNodes[..0] == [];
    assert layout[|layout|..] == [];
  }

  /**
   * Allocating leaf `j` at the first free index `ff` and probing on to `ff'`
   * keeps the allocation pass's invariant.
   */
  lemma AllocationStep(kept: seq<LayoutData>, layout: seq<LayoutData>, out: seq<Change>, changes: seq<Change>,
                       newNodes: seq<LeafInfo>, j: nat, face: nat, fits: bool, ff: nat, ff': nat, maxSize: nat,
                       entry: LayoutData)
    requires j < |newNodes| && entry == LayoutData(newNodes[j].code, ff, face, newNodes[j].flags)
    requires entry.code !in Codes(layout)
    requires AllocInv(kept, layout, out, changes, newNodes, j, face, fits, ff, maxSize)
    requires ff' > ff && (ff' == ff + 1 || ff' <= maxSize)
    requires forall p: nat | ff <= p < ff' :: Occupied(layout + [entry], p)
    requires ff' < maxSize ==> !Occupied(layout + [entry], ff')
    ensures AllocInv(kept, layout + [entry], out + [ChangeOf(entry)], changes, newNodes, j + 1, face, fits, ff', maxSize)
  {
    AppendEntry(layout, kept, entry);
    AllocationCodes(kept, layout, newNodes, j, entry);
    AllocationSuffix(kept, layout, newNodes, j, face, entry);
    if fits {
      AllocationFits(layout, kept, newNodes, j, ff, maxSize);
      DenseStep(layout, |kept|, ff, ff', maxSize, entry);
    }
  }

  /** When every leaf has been seen, the invariant is the pass's promise. */
  lemma AllocDone(kept: seq<LayoutData>, layout: seq<LayoutData>, out: seq<Change>, changes: seq<Change>,
                  newNodes: seq<LeafInfo>, face: nat, fits: bool, ff: nat, maxSize: nat)
    requires AllocInv(kept, layout, out, changes, newNodes, |newNodes|, face, fits, ff, maxSize)
    ensures DistinctCodes(layout) && |kept| <= |layout| && layout[..|kept|] == kept
    ensures Codes(layout) == Codes(kept) + LeafCodes(newNodes)
    ensures out == changes + ChangesOf(layout[|kept|..])
    ensures forall e | e in layout[|kept|..] ::
              e.code !in Codes(kept) && e.face == face && LeafInfo(e.code, e.flags) in newNodes
    ensures fits ==> Slots(layout, ff, maxSize) && FirstFit(layout, |kept|)
  {
    assert newNodes[..|newNodes|] == newNodes;
  }

  lemma AllocationCodes(kept: seq<LayoutData>, layout: seq<LayoutData>, newNodes: seq<LeafInfo>, j: nat,
                        entry: LayoutData)
    requires j < |newNodes| && entry.code == newNodes[j].code
    requires entry.code !in Codes(layout) && DistinctCodes(layout)
    requires Codes(layout) == Codes(kept) + LeafCodes(newNodes[..j])
    ensures DistinctCodes(layout + [entry])
    ensures Codes(layout + [entry]) == Codes(kept) + LeafCodes(newNodes[..j + 1])
  {
    var s := layout + [entry];
    forall a, b | 0 <= a < b < |s| ensures s[a].code != s[b].code {
      if b == |layout| {
        assert s[a] in layout;
      } else {
        assert s[a] == layout[a] && s[b] == layout[b];
      }
    }
    assert Codes(s) == Codes(layout) + {entry.code} by {
      forall e | e in s ensures e in layout || e == entry { }
    }
    assert newNodes[..j + 1] == newNodes[..j] + [newNodes[j]];
    assert LeafCodes(newNodes[..j + 1]) == LeafCodes(newNodes[..j]) + {entry.code};
  }

  lemma AllocationSuffix(kept: seq<LayoutData>, layout: seq<LayoutData>, newNodes: seq<LeafInfo>, j: nat,
                         face: nat, entry: LayoutData)
    requires j < |newNodes| && entry.code == newNodes[j].code && entry.flags == newNodes[j].flags && entry.face == face
    requires entry.code !in Codes(layout) && |kept| <= |layout| && layout[..|kept|] == kept
    requires forall e | e in layout[|kept|..] ::
               e.code !in Codes(kept) && e.face == face && LeafInfo(e.code, e.flags) in newNodes
    ensures forall e | e in (layout + [entry])[|kept|..] ::
              e.code !in Codes(kept) && e.face == face && LeafInfo(e.code, e.flags) in newNodes
  {
    AppendEntry(layout, kept, entry);
    assert LeafInfo(entry.code, entry.flags) == newNodes[j];
    assert entry.code !in Codes(kept) by {
      forall e | e in kept ensures e in layout {
        var k :| 0 <= k < |kept| && kept[k] == e;
        assert layout[k] == e;
      }
    }
  }

  /** A leaf whose code is already in the layout allocates nothing. */
  lemma SkipStep(kept: seq<LayoutData>, layout: seq<LayoutData>, out: seq<Change>, changes: seq<Change>,
                 newNodes: seq<LeafInfo>, j: nat, face: nat, fits: bool, ff: nat, maxSize: nat)
    requires j < |newNodes| && newNodes[j].code in Codes(layout)
    requires AllocInv(kept, layout, out, changes, newNodes, j, face, fits, ff, maxSize)
    ensures AllocInv(kept, layout, out, changes, newNodes, j + 1, face, fits, ff, maxSize)
  {
    assert newNodes[..j + 1] == newNodes[..j] + [newNodes[j]];
    assert LeafCodes(newNodes[..j + 1]) == LeafCodes(newNodes[..j]) + {newNodes[j].code};
  }

  /**
   * An allocation at the first free slot followed by the probe keeps the slot
   * invariant, and the new entry took the lowest free slot.
   */
  lemma DenseStep(layout: seq<LayoutData>, from: nat, ff: nat, ff': nat, maxSize: nat, entry: LayoutData)
    requires from <= |layout| && Dense(layout, from, ff, maxSize) && ff < maxSize && entry.position == ff
    requires ff' > ff && (ff' == ff + 1 || ff' <= maxSize)
    requires forall p: nat | ff <= p < ff' :: Occupied(layout + [entry], p)
    requires ff' < maxSize ==> !Occupied(layout + [entry], ff')
    ensures Dense(layout + [entry], from, ff', maxSize)
  {
    AppendKeepsSlots(layout, ff, ff', maxSize, entry);
    FirstFitAppend(layout, from, entry, ff, maxSize);
  }

  /** An allocation at the first free slot followed by the probe restores the slot invariant. */
  lemma AppendKeepsSlots(layout: seq<LayoutData>, ff: nat, ff': nat, maxSize: nat, entry: LayoutData)
    requires Slots(layout, ff, maxSize) && ff < maxSize && !Occupied(layout, ff) && entry.position == ff
    requires ff' > ff && (ff' == ff + 1 || ff' <= maxSize)
    requires forall p: nat | ff <= p < ff' :: Occupied(layout + [entry], p)
    requires ff' < maxSize ==> !Occupied(layout + [entry], ff')
    ensures Slots(layout + [entry], ff', maxSize)
  {
    var s := layout + [entry];
    forall p: nat | p < ff' ensures Occupied(s, p) {
      if p < ff {
        assert Occupied(layout, p);
        var e :| e in layout && e.position == p;
        assert e in s;
      }
    }
  }

  /**
   * The removal pass leaves the first free index at the least of its old
   * value and the slots of the entries it drops.
   */
  lemma {:induction false} FreeAfterRemovalIsMin(s: seq<LayoutData>, ff: nat, codes: set<bv32>)
    ensures FreeAfterRemoval(s, ff, codes) <= ff
    ensures forall e | e in s && e.code !in codes :: FreeAfterRemoval(s, ff, codes) <= e.position
    ensures FreeAfterRemoval(s, ff, codes) == ff
            || exists e | e in s && e.code !in codes :: FreeAfterRemoval(s, ff, codes) == e.position
  {
    if |s| > 0 {
      var ff' := if s[0].code !in codes && s[0].position < ff then s[0].position else ff;
      FreeAfterRemovalIsMin(s[1..], ff', codes);
      forall e | e in s ensures e == s[0] || e in s[1..] {
      }
    }
  }

  lemma WithoutNothing(s: seq<LayoutData>)
    ensures Without(s, {}) == s
  {
  }

  /** Entries appended to a layout keep its retained prefix and extend its suffix. */
  lemma AppendEntry(layout: seq<LayoutData>, kept: seq<LayoutData>, entry: LayoutData)
    requires |kept| <= |layout| && layout[..|kept|] == kept
    ensures (layout + [entry])[..|kept|] == kept
    ensures (layout + [entry])[|kept|..] == layout[|kept|..] + [entry]
    ensures ChangesOf(layout[|kept|..] + [entry]) == ChangesOf(layout[|kept|..]) + [ChangeOf(entry)]
    ensures Codes(layout + [entry]) == Codes(layout) + {entry.code}
  {
    assert (layout[|kept|..] + [entry])[..|layout[|kept|..]|] == layout[|kept|..];
  }

  /**
   * Entries the allocation pass appends after the retained ones carry codes
   * the layout did not hold before the removal pass, and the layout ends
   * holding exactly the leaf codes.
   */
  lemma AllocatedFresh(old0: seq<LayoutData>, layout: seq<LayoutData>, codes: set<bv32>, face: nat, newNodes: seq<LeafInfo>)
    requires codes == LeafCodes(newNodes)
    requires var kept := Retained(old0, codes);
             |kept| <= |layout| && Codes(layout) == Codes(kept) + codes
             && forall e | e in layout[|kept|..] ::
                  e.code !in Codes(kept) && e.face == face && LeafInfo(e.code, e.flags) in newNodes
    ensures Codes(layout) == codes
    ensures var kept := Retained(old0, codes);
            forall e | e in layout[|kept|..] ::
              e.code !in Codes(old0) && e.face == face && LeafInfo(e.code, e.flags) in newNodes
  {
    var kept := Retained(old0, codes);
    assert Codes(kept) <= codes;
    forall e | e in layout[|kept|..] ensures e.code !in Codes(old0) {
      assert LeafInfo(e.code, e.flags) in newNodes;
      RetainedFresh(old0, codes, e.code);
    }
  }

  /** A code among the new leaves that the removal pass did not keep was not in the old layout. */
  lemma RetainedFresh(s: seq<LayoutData>, codes: set<bv32>, c: bv32)
    requires c in codes && c !in Codes(Retained(s, codes))
    ensures c !in Codes(s)
  {
    forall e | e in s ensures e.code != c {
      if e.code in codes {
        assert e in Retained(s, codes);
      }
    }
  }

  /**
   * Under the slot invariant, the "layout is full" failure happens only when
   * the retained entries alone fill every slot of the buffer.
   */
  lemma FullOnlyWhenRetainedFill(s: seq<LayoutData>, ff: nat, codes: set<bv32>, maxSize: nat)
    requires Slots(s, ff, maxSize)
    requires FreeAfterRemoval(s, ff, codes) == maxSize
    ensures |Retained(s, codes)| >= maxSize
  {
    RemovalKeepsSlots(s, ff, codes, maxSize);
    FilledPrefixCount(Retained(s, codes), maxSize);
  }
}
