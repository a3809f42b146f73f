# Cube-sphere level of detail, modelled in Dafny

The system renders a planet as a cube whose six faces are each refined by a
quadtree and then projected onto a sphere. This project models the integer
and combinatorial core of that system:

- **Node codes.** Each quadtree node is named by a 32-bit code. The code holds
  the node's level in its low four bits, its quadrant path above them, and
  its x/y grid coordinates interleaved bit by bit. Encoding, decoding, the
  level and last-quadrant accessors and child generation are modelled on
  `bv32`. The round trip and the child relations are proved, including what
  happens at the last level. (module `NodeCode`)
- **Face quadtree.** Each face's tree is an arena of node records. Splitting a
  node appends four children; merging drops the child list. The pre-order
  walks `GetAllChildren` and `GetAllChildrenLeaves` are characterised exactly
  in terms of tree membership. (module `QuadTree`)
- **Buffer layout.** This is the slot allocator that maps one face's leaves to
  GPU buffer positions. A removal pass frees the slots of vanished leaves and
  lowers the first free index. The capacity check comes next. An allocation
  pass then gives each new leaf the first free slot and probes forward, and
  every allocation is reported in a change list. (module `BufferLayout`)
- **Manager passes.** The per-frame merge pass, split pass and edge-smoothing
  pass over each face, the layout-update loop over the six faces, the
  "something changed" answer of `run_lod_kernels`, and `get_node_count`.
  (modules `LodPasses`, `LodManager`)
- **Neighbour tables.** The node size of a face grid and the four cube-face
  adjacency tables. The tables are checked against an independent embedding
  of the six faces in 3-space. (module `CoordinateHelpers`)
- **Cube mesh.** `construct_cube` on integer grid coordinates: the vertex
  array with shared edge points written once through a dictionary, and the
  index array of two triangles per grid square. (module `CubeSphereMesh`)

The split decision of the original depends on floating-point distances
between the camera and node centres. With the camera fixed, that decision is a
predicate of the face and the node code, so the passes take it as a parameter
`P(face, code)`. The edge-smoothing decisions of `close_holes` likewise become
a parameter `Coarse(face, parentCode, side)`. Nothing in the model depends on
the values these predicates take.

## Model

| member | source | states |
|---|---|---|
| NodeCode.Dilate | Assets/Scripts/LodManager.cs:29-35 | the dilated value occupies only even bit positions, so x and y interleave without overlap; DilateRoundTrip shows undilate inverts it |
| NodeCode.Undilate | Assets/Scripts/LodManager.cs:15-21 | the gathered value fits in sixteen bits; DilateRoundTrip shows it inverts dilate |
| NodeCode.Encode | Assets/Scripts/LodManager.cs:37-43 | the code's level field is the low four bits of the given level; EncodeDecode and RoundTrip give the coordinates back |
| NodeCode.Decode | Assets/Scripts/LodManager.cs:23-27 | the decoded level is the code's level field and each decoded coordinate has at most fourteen bits; RoundTrip shows it inverts encode |
| NodeCode.LastQuadrant | Assets/Scripts/LodManager.cs:45-47 | the quadrant is one of 0..3; ChildQuadrant shows child k is in quadrant k |
| NodeCode.GenerateChildren | Assets/Scripts/LodManager.cs:49-59 | a node has four child codes; ChildLevel, ChildQuadrant, ChildrenDistinct and ChildCoordinates characterise them |
| NodeCode.Level | Assets/Scripts/LodManager.cs:23-27 | the level decoded from any code is at most MAX_LEVEL (15) |
| NodeCode.DilateRoundTrip | Assets/Scripts/LodManager.cs:15-35 | undilate inverts dilate on every 16-bit value |
| NodeCode.EncodeDecode | Assets/Scripts/LodManager.cs:23-43 | decoding an encoded node gives back the level's low four bits and the coordinates' low fourteen bits: encoding truncates silently |
| NodeCode.RoundTrip | Assets/Scripts/LodManager.cs:23-43 | for level ≤ 15 and coordinates below 2^14, decode(encode(level, x, y)) is (level, x, y) |
| NodeCode.Level15IsLossy | Assets/Scripts/LodManager.cs:37-43 | at level 15, x = 2^14 collides with x = 0: the code has no room for the 15th coordinate bit |
| NodeCode.ChildLevel | Assets/Scripts/LodManager.cs:49-59 | the four children of a code are one level deeper, except that children of a level-15 code wrap round to level 0 |
| NodeCode.ChildQuadrant | Assets/Scripts/LodManager.cs:45-59 | child k of any code has last quadrant k |
| NodeCode.ChildrenDistinct | Assets/Scripts/LodManager.cs:49-59 | the four child codes of any code are pairwise distinct |
| NodeCode.ChildCoordinates | Assets/Scripts/LodManager.cs:23-59 | below the last level, child k of node (level, x, y) decodes to (level+1, 2x + (k&1), 2y + (k>>1)): the children tile the parent's square |
| QuadTree.AllChildren | Assets/Scripts/LodManager.cs:76-87 | every handle returned is a node after `i` in the arena |
| QuadTree.AllChildrenLeaves | Assets/Scripts/LodManager.cs:89-101 | the result is non-empty and every handle in it is a leaf at or after `i` |
| QuadTree.AllChildrenAttached | Assets/Scripts/LodManager.cs:76-87 | e is among GetAllChildren(i) exactly when e is a proper descendant of i through child lists |
| QuadTree.AllChildrenSound | Assets/Scripts/LodManager.cs:76-87 | every node GetAllChildren(i) returns is a proper descendant of i |
| QuadTree.AllChildrenComplete | Assets/Scripts/LodManager.cs:76-87 | every proper descendant of i is returned by GetAllChildren(i) |
| QuadTree.AllChildrenLeavesAttached | Assets/Scripts/LodManager.cs:89-101 | e is among GetAllChildrenLeaves(i) exactly when e is a leaf in the subtree of i |
| QuadTree.AllChildrenLeavesSound | Assets/Scripts/LodManager.cs:89-101 | every node GetAllChildrenLeaves(i) returns is a leaf in the subtree of i |
| QuadTree.AllChildrenLeavesComplete | Assets/Scripts/LodManager.cs:89-101 | every leaf in the subtree of i is returned by GetAllChildrenLeaves(i) |
| QuadTree.LeavesAmongChildren | Assets/Scripts/LodManager.cs:76-101 | the leaves of a subtree are exactly the leaves among the node and its descendants |
| QuadTree.SplitNodes | Assets/Scripts/LodManager.cs:127-141 | splitting keeps the arena well formed, appends four leaves linked both ways with codes one level deeper and flags 0, and leaves every other record unchanged; the split node's leaves are then exactly the four new nodes |
| QuadTree.MergeNodes | Assets/Scripts/LodManager.cs:143-147 | merging keeps the arena well formed and makes the node a leaf with no descendants; no code, parent or flag changes, and merging a leaf changes nothing |
| QuadTree.WithFlags | Assets/Scripts/LodManager.cs:154-160 | setting one node's flags keeps the arena well formed and changes no code, link or child list |
| QuadTree.LodQuadTree.constructor | Assets/Scripts/LodManager.cs:70-74 | a new tree is a single root leaf with the root code, and is valid |
| QuadTree.LodQuadTree.Split | Assets/Scripts/LodManager.cs:127-141 | the tree after a split is the split arena, still valid, and the node is no longer a leaf |
| QuadTree.LodQuadTree.SetFlags | Assets/Scripts/LodManager.cs:154-160 | the tree after setting flags is the flag-updated arena and stays valid |
| QuadTree.LodQuadTree.Merge | Assets/Scripts/LodManager.cs:143-147 | the tree after a merge is the merged arena, valid, the node is a leaf, and merging a leaf is a no-op |
| QuadTree.AppendKeepsSubtrees | Assets/Scripts/LodManager.cs:76-101 | records appended to the arena do not change any existing node's descendants or leaves |
| QuadTree.SplitThenMergeRestores | Assets/Scripts/LodManager.cs:127-147 | splitting a leaf and merging it back restores every old record and the tree's descendants and leaves; only unreachable records remain |
| QuadTree.ShapeKeepsWellFormed | Assets/Scripts/LodManager.cs:154-160 | changing only flags keeps the arena well formed |
| QuadTree.ShapeKeepsTree | Assets/Scripts/LodManager.cs:154-160 | changing only flags does not change which nodes are in the tree |
| QuadTree.ShapeKeepsLeaves | Assets/Scripts/LodManager.cs:154-160 | changing only flags does not change any subtree's leaf list |
| BufferLayout.Without | Assets/Scripts/LodManager.cs:190-197 | an entry survives removal of a code set exactly when it was present and its code is not in the set |
| BufferLayout.Retained | Assets/Scripts/LodManager.cs:190-197 | the removal pass keeps exactly the entries whose code is among the new leaves |
| BufferLayout.ChangesOf | Assets/Scripts/LodManager.cs:212-216 | one change per allocated entry, in order, carrying its code, slot and face |
| BufferLayout.LodBufferLayout.constructor | Assets/Scripts/LodManager.cs:181-186 | a new layout is empty with first free index 0 and satisfies the slot invariant |
| BufferLayout.LodBufferLayout.RemoveUnused | Assets/Scripts/LodManager.cs:190-197 | after removal the layout is the retained entries, codes stay distinct, and the first free index is lowered to the least slot freed |
| BufferLayout.LodBufferLayout.ProbeNextFree | Assets/Scripts/LodManager.cs:218-224 | the probe moves the first free index forward past only occupied slots and stops at a free slot or at the buffer end |
| BufferLayout.LodBufferLayout.Allocate | Assets/Scripts/LodManager.cs:203-226 | allocation keeps the old entries as a prefix, makes the codes the old codes plus the leaf codes, gives only fresh codes new entries (face and flags from the leaf), reports each new entry as a change, and, when the slot invariant held and the leaves fit, keeps it with every new entry in the lowest slot left free by the entries before it |
| BufferLayout.LodBufferLayout.UpdateIndices | Assets/Scripts/LodManager.cs:188-229 | it fails exactly when the first free index after removal equals the buffer size, and then holds only the retained entries; on success the layout's codes are exactly the leaf codes, kept entries come first, new entries carry fresh codes, the change list grows by one entry per allocation, and when the slot invariant held and the leaves fit it is kept, with every new entry in the lowest slot left free by the entries before it |
| BufferLayout.RemovalKeepsSlots | Assets/Scripts/LodManager.cs:190-197 | the removal pass preserves the slot invariant: distinct in-range slots, every slot below the first free index taken, the first free index free |
| BufferLayout.FreeAfterRemovalIsMin | Assets/Scripts/LodManager.cs:190-197 | the first free index after removal is the least of the old one and the slots of the dropped entries |
| BufferLayout.FullOnlyWhenRetainedFill | Assets/Scripts/LodManager.cs:188-201 | under the slot invariant the "full" error is raised only when the retained entries alone fill the buffer |
| BufferLayout.AllocationFits | Assets/Scripts/LodManager.cs:203-226 | while the leaves fit, each allocation finds the first free index inside the buffer and free |
| BufferLayout.DistinctCodesCount | Assets/Scripts/LodManager.cs:518 | a layout with distinct codes has as many codes as entries |
| BufferLayout.WithoutWithout | Assets/Scripts/LodManager.cs:190-197 | removing two code sets in turn is removing their union |
| BufferLayout.WithoutDistinct | Assets/Scripts/LodManager.cs:190-197 | removal keeps codes distinct |
| BufferLayout.FirstFitAppend | Assets/Scripts/LodManager.cs:203-210 | an entry placed at the first free index of a layout under the slot invariant takes the lowest free slot, so first-fit placement extends |
| BufferLayout.AllocationStep | Assets/Scripts/LodManager.cs:203-226 | allocating one new leaf at the first free index and probing keeps the allocation loop's invariant: bookkeeping, slot invariant and first-fit placement |
| BufferLayout.AllocatedFresh | Assets/Scripts/LodManager.cs:188-229 | after removal and allocation the layout holds exactly the leaf codes, and every appended entry has a code the layout did not hold before the update |
| BufferLayout.RetainedFresh | Assets/Scripts/LodManager.cs:203-226 | a leaf code the removal pass did not keep was not in the layout before |
| CoordinateHelpers.FaceNumber | Assets/Scripts/CoordinateHelpers.cs:6-13 | each face has an index below six |
| CoordinateHelpers.FaceNumberInjective | Assets/Scripts/CoordinateHelpers.cs:6-13 | distinct faces have distinct indices |
| CoordinateHelpers.NodeSize | Assets/Scripts/CoordinateHelpers.cs:20-22 | a face grid has at least one node per side at every level |
| CoordinateHelpers.NodeSizeAdd | Assets/Scripts/CoordinateHelpers.cs:20-22 | grid sizes behave as powers of two: the size at level a + b is the product of the sizes at a and b |
| CoordinateHelpers.NodeSizeHalves | Assets/Scripts/CoordinateHelpers.cs:20-22 | a coordinate is on the grid one level down exactly when its half is on the grid at this level, so the finer grid tiles the coarser one |
| CoordinateHelpers.LeftNeighbour | Assets/Scripts/CoordinateHelpers.cs:25-68 | the left table always leads to another face; LeftNeighbourRange and CrossLeftEdgeSharesEdge give its range and geometry |
| CoordinateHelpers.RightNeighbour | Assets/Scripts/CoordinateHelpers.cs:70-113 | the right table always leads to another face; RightNeighbourRange and RightOfBottomOffByOne give its range and its faulty Bottom entry |
| CoordinateHelpers.TopNeighbour | Assets/Scripts/CoordinateHelpers.cs:115-158 | the top table always leads to another face; TopNeighbourRange and TopOfBackNotFlipped give its range and its faulty Back entry |
| CoordinateHelpers.BottomNeighbour | Assets/Scripts/CoordinateHelpers.cs:160-203 | the bottom table always leads to another face; BottomNeighbourRange and CrossBottomEdgeSharesEdge give its range and geometry |
| CoordinateHelpers.LeftNeighbourRange | Assets/Scripts/CoordinateHelpers.cs:25-68 | every left-table entry lands on another face inside its grid |
| CoordinateHelpers.RightNeighbourRange | Assets/Scripts/CoordinateHelpers.cs:70-113 | every right-table entry lands on another face, and inside its grid exactly unless it is the Bottom entry at y = 0 |
| CoordinateHelpers.TopNeighbourRange | Assets/Scripts/CoordinateHelpers.cs:115-158 | every top-table entry lands on another face inside its grid |
| CoordinateHelpers.BottomNeighbourRange | Assets/Scripts/CoordinateHelpers.cs:160-203 | every bottom-table entry lands on another face inside its grid |
| CoordinateHelpers.RightNeighbourCorrectedRange | Assets/Scripts/CoordinateHelpers.cs:70-113 | with the Bottom entry corrected, every right-table entry lands on another face inside its grid |
| CoordinateHelpers.SideSeamsInverse | Assets/Scripts/CoordinateHelpers.cs:25-113 | around the four side faces, stepping right off a face and then left returns to the start, and the other way round |
| CoordinateHelpers.TopSideSeamsInverse | Assets/Scripts/CoordinateHelpers.cs:25-158 | the seams between Top and the Left and Right faces are crossed back to the start by the left/top and right/top entries |
| CoordinateHelpers.CrossFaceRoundTrips | Assets/Scripts/CoordinateHelpers.cs:25-203 | the Front/Top, Back/Bottom, Front/Bottom and Bottom/Right seams are crossed back to the start |
| CoordinateHelpers.CrossEdgeSharesEdge | Assets/Scripts/CoordinateHelpers.cs:25-203 | for every face, edge and boundary node, the corrected tables give a node of another face, on its grid, along the arrival edge, and the two nodes' edge midpoints are the same point of the cube |
| CoordinateHelpers.CrossLeftEdgeSharesEdge | Assets/Scripts/CoordinateHelpers.cs:25-68 | the left table agrees with the cube's geometry on every face |
| CoordinateHelpers.CrossRightEdgeSharesEdge | Assets/Scripts/CoordinateHelpers.cs:70-113 | the corrected right table agrees with the cube's geometry on every face |
| CoordinateHelpers.CrossTopEdgeSharesEdge | Assets/Scripts/CoordinateHelpers.cs:115-158 | the corrected top table agrees with the cube's geometry on every face |
| CoordinateHelpers.CrossBottomEdgeSharesEdge | Assets/Scripts/CoordinateHelpers.cs:160-203 | the bottom table agrees with the cube's geometry on every face |
| CoordinateHelpers.CrossEdgeInverse | Assets/Scripts/CoordinateHelpers.cs:25-203 | crossing any face edge and crossing back through the arrival edge returns to the starting node |
| CoordinateHelpers.RightOfBottomOffByOne | Assets/Scripts/CoordinateHelpers.cs:95 | the right-of-Bottom entry as written is one column past the correct one, misses the shared edge, and leaves the grid for (0, 0) at level 0 |
| CoordinateHelpers.TopOfBackNotFlipped | Assets/Scripts/CoordinateHelpers.cs:119 | the top-of-Back entry as written does not mirror x, so it misses the shared edge and disagrees with top-of-Top |
| LodPasses.MergeTree | Assets/Scripts/LodManager.cs:312-348 | the merge pass keeps the tree valid, adds no node, changes no code, parent or flag, merges only nodes the decision does not want split, and leaves every internal node wanting to be split |
| LodPasses.SplitTree | Assets/Scripts/LodManager.cs:350-387 | the split pass keeps the tree valid, only appends nodes, splits only leaves that want it and are below the last level, loses no node, gives every appended node flags 0, leaves no leaf that wants and may split, and keeps internal nodes wanting to be split |
| LodPasses.CloseHolesTree | Assets/Scripts/LodManager.cs:389-473 | the smoothing pass changes only flags, and only those of the tree's non-root leaves: each edge bit is set when the parent's neighbour across that edge is coarse and cleared otherwise, other bits kept |
| LodPasses.SmoothNode | Assets/Scripts/LodManager.cs:389-473 | smoothing one node keeps the arena well formed and its shape unchanged |
| LodPasses.SmoothStep | Assets/Scripts/LodManager.cs:389-473 | visiting one more leaf, even one visited before, keeps every node's flags equal to the smoothed flags of the leaves visited so far |
| LodPasses.EdgeFlags | Assets/Scripts/LodManager.cs:421-470 | no contract of its own; EdgeFlagsMask, EdgeFlagsMeaning and EdgeFlagsIdempotent characterise the four set-or-clear steps |
| LodPasses.SmoothedFlags | Assets/Scripts/LodManager.cs:421-470 | each of a leaf's four edge bits records whether the parent's neighbour across that edge is coarse, and the higher bits are kept |
| LodPasses.EdgeFlagsMeaning | Assets/Scripts/LodManager.cs:421-470 | after the four decisions each flag bit holds its edge's decision and all higher bits are unchanged |
| LodPasses.EdgeFlagsMask | Assets/Scripts/LodManager.cs:421-470 | the four set-or-clear steps of EdgeFlags amount to replacing the low four bits |
| LodPasses.EdgeFlagsIdempotent | Assets/Scripts/LodManager.cs:421-470 | applying the same four decisions twice gives the same flags as once |
| LodPasses.LowFlags | Assets/Scripts/LodManager.cs:421-470 | the four edge bits occupy only the low four bits |
| LodPasses.SettledShape | Assets/Scripts/LodManager.cs:389-473 | a pass that changes only flags cannot undo the outcome of the merge and split passes |
| LodPasses.SplitKeepsTree | Assets/Scripts/LodManager.cs:127-141 | splitting a node does not remove any node from the tree |
| LodPasses.AsWrittenMaySplit | Assets/Scripts/LodManager.cs:376 | the split guard as written passes for every node, because the level it reads is never assigned |
| LodPasses.FirstChildLevel | Assets/Scripts/LodManager.cs:49-59 | a first child's level is its parent's level plus one, modulo 16 |
| LodPasses.AsWrittenGuardSplitsLastLevel | Assets/Scripts/LodManager.cs:70-74 | the split guard as written lets a level-15 node split although the intended guard refuses it, and the children then wrap round to level 0 |
| LodPasses.AsWrittenSplitsForever | Assets/Scripts/LodManager.cs:370-380 | under the guard as written, the first descendant k generations down is still allowed to split, and its level is the start level plus k modulo 16: the guard never stops a chain of splits |
| LodManager.LeafInfos | Assets/Scripts/LodManager.cs:490-494 | the layout update is given each leaf of the face, in order, with its code and flags |
| LodManager.LeafInfosCodes | Assets/Scripts/LodManager.cs:490-494 | the codes handed to the layout update are exactly the codes of the tree's leaves |
| LodManager.AddedIffNewCode | Assets/Scripts/LodManager.cs:203-226 | a layout gained entries exactly when it now holds a code it did not hold before |
| LodManager.UpdateReported | Assets/Scripts/LodManager.cs:490-494 | what a successful update_indices call on a face's leaves promises makes the appended changes a report of that face: layout in sync, retained entries first, new entries tagged with the face number and a leaf's code and flags, every change naming the face |
| LodManager.ChangesNameFace | Assets/Scripts/LodManager.cs:212-216 | the changes reporting entries of one face all carry that face's number |
| LodManager.ConcatEmpty | Assets/Scripts/LodManager.cs:476-494 | the joined change list is empty exactly when every face's part is |
| LodManager.ReportsEmpty | Assets/Scripts/LodManager.cs:476-494 | when all six faces are reported, the joined change list is empty exactly when no face's layout holds a new code |
| LodManager.ReportsExtended | Assets/Scripts/LodManager.cs:490-494 | reporting the next face in order extends the faces reported so far by that face |
| LodManager.StoppedState | Assets/Scripts/LodManager.cs:490-494 | when face k's update fails, faces before k stay reported, face k holds only its retained entries with no free slot, faces after k are untouched, and every face whose leaves fit keeps the slot invariant |
| LodManager.StoppedFull | Assets/Scripts/LodManager.cs:199-201 | a loop stopped at a face leaves that face's first free index at the buffer size |
| LodManager.StoppedSlotsKept | Assets/Scripts/LodManager.cs:490-494 | when the loop over faces stops at a full layout, every face whose leaves fit still satisfies the slot invariant |
| LodManager.PassesSettled | Assets/Scripts/LodManager.cs:476-487 | the merge, split and smoothing outcomes on every face leave every face's internal nodes wanting to be split and no leaf wanting and able to split |
| LodManager.ReportedSlotsKept | Assets/Scripts/LodManager.cs:490-494 | when all six faces are reported, every face whose leaves fit satisfies the slot invariant |
| LodManager.LodManager.constructor | Assets/Scripts/LodManager.cs:275-281 | six distinct trees, each a root leaf, and six distinct empty layouts of MAX_NUM_NODES slots |
| LodManager.LodManager.MergeQuadTrees | Assets/Scripts/LodManager.cs:312-348 | every face receives the merge pass's outcome |
| LodManager.LodManager.SplitQuadTrees | Assets/Scripts/LodManager.cs:350-387 | every face receives the split pass's outcome |
| LodManager.LodManager.CloseHoles | Assets/Scripts/LodManager.cs:389-473 | every face receives the smoothing pass's outcome |
| LodManager.LodManager.UpdateFace | Assets/Scripts/LodManager.cs:490-494 | one face's layout update: on success the change list is the old list followed by the face's part, the face's layout holds exactly its tree's leaf codes with retained entries first, each new entry carries face number i and the code and flags of one of the tree's leaves, the part has one change per new entry, every change names face i, the part is empty exactly when no new code appeared, and when the slot invariant held and the leaves fit it is kept with every new entry in the lowest slot left free before it; on failure the layout is the retained entries, it is full, and the slot invariant is kept; other faces' layouts and all trees are unchanged |
| LodManager.LodManager.UpdateLayouts | Assets/Scripts/LodManager.cs:476-494 | on success the change list is the six faces' parts joined in face order, each face's layout holds exactly its leaf codes, its new entries carry its face number and its leaves' flags, its part reports exactly those entries and names only that face, the list is empty exactly when no face gained a code, and each face's new entries were placed first-fit when its slot invariant held and its leaves fit; on failure the loop stopped at some face k: faces before k are updated and reported in `added`, face k holds only its retained entries and is full, and faces after k are untouched; in both cases every face whose leaves fit keeps the slot invariant, and the trees are unchanged |
| LodManager.LodManager.UpdateTrees | Assets/Scripts/LodManager.cs:476-487 | every face receives, in turn, the merge pass's outcome, the split pass's outcome and the smoothing pass's outcome; afterwards every face's internal nodes want to be split and no leaf wants and may split; it modifies only the trees, so the layouts are unchanged |
| LodManager.LodManager.RunLodKernels | Assets/Scripts/LodManager.cs:476-516 | every face receives the merge, split and smoothing outcomes in turn and ends settled; on success every face is reported (layout matching its leaves, new entries carrying its face number and its smoothed leaves' flags, its part naming exactly those entries) with first-fit placement where the slot invariant held and the leaves fit, and the answer is true exactly when some face's layout gained a code; on the error the layout loop stopped at some face k, with faces before k updated, face k reduced to its retained entries and full, and faces after k untouched; every face whose leaves fit keeps the slot invariant |
| LodManager.LodManager.GetFullLayout | Assets/Scripts/LodManager.cs:296-302 | the full layout is the six face layouts concatenated in face order |
| LodManager.LodManager.GetNodeCount | Assets/Scripts/LodManager.cs:518 | the node count is the size of the full layout and equals the sum over faces of the distinct codes each holds |
| LodManager.LodManager.JoinedCount | Assets/Scripts/LodManager.cs:518 | the entries of the first k layouts number their distinct codes |
| CubeSphereMesh.SidePointFacts | Assets/Scripts/MeshGeneration/CubeSphereMesh.cs:52-59 | each side function sends a grid cell onto its own side of the cube, invertibly, and the edge test holds exactly when the point is on a cube edge |
| CubeSphereMesh.SideCellFacts | Assets/Scripts/MeshGeneration/CubeSphereMesh.cs:52-59 | every grid point of a side is the image of exactly one grid cell |
| CubeSphereMesh.SidesDistinct | Assets/Scripts/MeshGeneration/CubeSphereMesh.cs:52-59 | the six side functions cover six different sides of the cube |
| CubeSphereMesh.SeenIsEdge | Assets/Scripts/MeshGeneration/CubeSphereMesh.cs:79-87 | a point an earlier side already produced is always on a cube edge, so the dictionary lookup behind the edge test is enough to find every duplicate |
| CubeSphereMesh.SeenAllIsSurface | Assets/Scripts/MeshGeneration/CubeSphereMesh.cs:67-95 | the points of the six sides together are exactly the cube's surface points |
| CubeSphereMesh.FreshTotal | Assets/Scripts/MeshGeneration/CubeSphereMesh.cs:39-40 | the six sides add 6r²−12r+8 distinct points in total, the vertex count the array is sized by |
| CubeSphereMesh.TriangleListLength | Assets/Scripts/MeshGeneration/CubeSphereMesh.cs:41-46 | the squares of the six sides emit exactly 3 × 6·2·(r−1)² indices, the size of the index array |
| CubeSphereMesh.VisitCell | Assets/Scripts/MeshGeneration/CubeSphereMesh.cs:76-90 | visiting a cell keeps earlier vertices, reuses an earlier index for an already written point and otherwise writes the point at the next free index |
| CubeSphereMesh.SideVertices | Assets/Scripts/MeshGeneration/CubeSphereMesh.cs:69-95 | after one side's vertex loop, every point of that side and earlier sides is written exactly once, and each cell's recorded index names its point |
| CubeSphereMesh.EmitSquare | Assets/Scripts/MeshGeneration/CubeSphereMesh.cs:101-112 | one square's six index writes name its four corners as two triangles, bottom left, top left, bottom right and bottom right, top left, top right |
| CubeSphereMesh.SideIndices | Assets/Scripts/MeshGeneration/CubeSphereMesh.cs:98-114 | after one side's index loop, the indices written so far name, through the vertex array, the corners of every square of the sides done |
| CubeSphereMesh.ConstructCube | Assets/Scripts/MeshGeneration/CubeSphereMesh.cs:38-118 | the vertex array has the advertised length, holds no point twice and holds exactly the cube's surface points; the index array has the advertised length and each index names the corresponding corner of every grid square of every side, in loop order |
| CubeSphereMesh.TrianglesOnSurface | Assets/Scripts/MeshGeneration/CubeSphereMesh.cs:98-114 | every triangle corner is a point of the cube's surface |
| CubeSphereMesh.QuadAt | Assets/Scripts/MeshGeneration/CubeSphereMesh.cs:98-114 | square (i, j) of side s sits at offset 6·((s(r−1)+i)(r−1)+j) in the triangle list |

## Left out

- Floating-point geometry is not modelled: node centres (`GetNodeCenter`, the `node_center` field), `split_criterion`, `ROOT_NODE_SPLIT_DISTANCE` and the distance computations. The split decision is the parameter `P(face, code)` and the neighbour decisions of `close_holes` are the parameter `Coarse(face, parentCode, side)`. The camera position, field of view and radii enter only through these parameters.
- The per-edge neighbour lookups inside `close_holes` (lines 389-473) are absorbed into `Coarse`. The tables themselves are modelled and checked separately in `CoordinateHelpers`.
- Compute buffers, shader parameters and `Dispatch` (LodManager.cs:282-294, 498-515) are not modelled. The change list handed to the GPU is the `Result` value of `UpdateLayouts`.
- Exceptions are modelled as `Result.Failure`. The "layout full" exception of `UpdateIndices` becomes `LayoutFull`.
- When a face's layout is full, the exception carries away the change list, so the entries the faces before it just gained are never reported, although their slots stay taken. The model keeps this behaviour: `UpdateLayouts` returns only the error, and its ghost outputs `added` and `stopped` name what went unreported.
- BufferLayout.LodBufferLayout.Allocate: states which slot each new entry takes and that its code and flags come from one of the leaves, but not that new entries follow the order of the leaves.
- BufferLayout.LodBufferLayout.UpdateIndices: likewise says nothing about the order of the new entries beyond their slots.
- LodQuadTree's `level` field is never stored by its constructor. The model reads the level from the node code instead; see Findings.
- Merging leaves the dropped subtree as unreachable records in the arena, where the original leaves them to the garbage collector. `SplitThenMergeRestores` shows they are invisible to every walk.
- Flags of entries kept across a layout update are not refreshed. This matches the original, which copies flags only into new entries.
- QuadTree.AllChildren: its ensures states only the range of the handles; the exact characterisation is the separate AllChildrenAttached lemma.
- NodeCode: level 15 cannot carry its 15th coordinate bit; `Level15IsLossy` exhibits the collision but the model does not work around it.
- CubeSphereMesh.ConstructCube: requires r >= 2. The original indexes out of range for r = 0. For r = 1 the float coordinate 2·0/0 − 1 is NaN, which raises nothing; `vertex_count` is 2, the six sides produce six different vertices, and the third side writes `vertices[2]`, past the end of the array.
- CubeSphereMesh.ConstructCube: the `uint` vertex and triangle counts are unbounded integers, so overflow for very large resolutions is not modelled.
- CubeSphereMesh.ConstructCube: float coordinates 2t/(r−1)−1 are modelled as the integer grid number t. The dictionary keyed by float vectors becomes a map keyed by integer triples, which assumes distinct grid numbers give distinct floats.
- The neighbour tables compute in `uint`, so expressions such as `n - 1 - y` wrap round for coordinates outside the grid. The model computes them on unbounded integers and proves properties only for coordinates on the grid, so that wrap-around is not modelled.
- `map_to_unit_sphere` and the rest of the mesh class (normalisation to the sphere, mesh upload) are floating point and not modelled.

## Findings

| source | as written | input that shows it | evidently intended | confidence | as-written member | corrected member |
|---|---|---|---|---|---|---|
| Assets/Scripts/CoordinateHelpers.cs:95 | right neighbour of a Bottom node is column n − y on Left | level 0, node (0, 0) on Bottom: column 1 on a one-column grid | column n − 1 − y, the node sharing the edge | not executed | CoordinateHelpers.RightOfBottomOffByOne | CoordinateHelpers.CrossEdgeSharesEdge |
| Assets/Scripts/CoordinateHelpers.cs:119 | top neighbour of a Back node keeps x on Top | level 1, node (0, 1) on Back maps to (0, 1) on Top, whose top neighbour is (1, 1) on Back | x mirrored to n − 1 − x, as on the inverse Top entry | not executed | CoordinateHelpers.TopOfBackNotFlipped | CoordinateHelpers.CrossEdgeInverse |
| Assets/Scripts/LodManager.cs:376 | the split guard reads `level`, which the constructor (lines 70-74) never assigns, so it is always 0 | any level-15 node the criterion asks to split | refuse to split at MAX_LEVEL, reading the level from the code | not executed | LodPasses.AsWrittenSplitsForever | LodPasses.SplitTree |
