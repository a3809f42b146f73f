/**
 * The cube-face adjacency table: for each of the six faces and each of the
 * four edge directions, the node on the other side of that edge when the
 * edge is also a face boundary. Coordinates are node coordinates on the
 * 2^level x 2^level grid of a face; x grows to the right, y grows to the top.
 *
 * The table is checked against an independent description of the cube: the
 * face embedding used to place node centres (LodQuadTree.GetNodeCenter). Two
 * of the 24 entries, right-of-Bottom and top-of-Back, disagree with it; the
 * tables `RightNeighbourCorrected` and `TopNeighbourCorrected` fix them.
 */
module CoordinateHelpers {

  datatype Face = Back | Front | Top | Bottom | Right | Left

  /** The enum value of a face, which is also its index in the face tables. */
  function FaceNumber(f: Face): (n: nat)
    ensures n < 6
  {
    match f
    case Back => 0
    case Front => 1
    case Top => 2
    case Bottom => 3
    case Right => 4
    case Left => 5
  }

  lemma FaceNumberInjective(f: Face, g: Face)
    ensures FaceNumber(f) == FaceNumber(g) ==> f == g
  {
  }

  /** The number of nodes along one side of a face at `level`. */
  function NodeSize(level: nat): (n: nat)
    ensures n >= 1
  {
    if level == 0 then 1 else 2 * NodeSize(level - 1)
  }

  /** Grid sizes multiply: `node_size(a + b)` is `node_size(a) * node_size(b)`, as for powers of two. */
  lemma {:induction false} NodeSizeAdd(a: nat, b: nat)
    ensures NodeSize(a + b) == NodeSize(a) * NodeSize(b)
    decreases b
  {
    if b > 0 {
      NodeSizeAdd(a, b - 1);
      calc {
        NodeSize(a + b);
        2 * NodeSize(a + b - 1);
        2 * (NodeSize(a) * NodeSize(b - 1));
        NodeSize(a) * (2 * NodeSize(b - 1));
        NodeSize(a) * NodeSize(b);
      }
    }
  }

  /**
   * A coordinate is on the grid one level down exactly when its half is on
   * the grid at this level: the finer grid tiles the coarser one two by two.
   */
  lemma NodeSizeHalves(level: nat, x: nat)
    ensures x < NodeSize(level + 1) <==> x / 2 < NodeSize(level)
  {
  }

  /** The result of a lookup: node coordinates on face `face`. */
  datatype CenterCoordinates = CenterCoordinates(x: int, y: int, face: Face)

  // ---------------------------------------------------------------------------
  // The four tables, as written.

  /** The node across the left edge of node (x, y) of `face` at `level`. */
  function LeftNeighbour(face: Face, x: nat, y: nat, level: nat): (r: CenterCoordinates)
    ensures r.face != face
  {
    var n := NodeSize(level);
    match face
    case Back => CenterCoordinates(n - 1, y, Right)
    case Front => CenterCoordinates(n - 1, y, Left)
    case Top => CenterCoordinates(n - 1 - y, n - 1, Left)
    case Bottom => CenterCoordinates(y, 0, Right)
    case Right => CenterCoordinates(n - 1, y, Front)
    case Left => CenterCoordinates(n - 1, y, Back)
  }

  /** The node across the right edge of node (x, y) of `face` at `level`; off the grid for the Bottom entry at y = 0. */
  function RightNeighbour(face: Face, x: nat, y: nat, level: nat): (r: CenterCoordinates)
    ensures r.face != face
  {
    var n := NodeSize(level);
    match face
    case Back => CenterCoordinates(0, y, Left)
    case Front => CenterCoordinates(0, y, Right)
    case Top => CenterCoordinates(y, n - 1, Right)
    case Bottom => CenterCoordinates(n - y, 0, Left)
    case Right => CenterCoordinates(0, y, Back)
    case Left => CenterCoordinates(0, y, Front)
  }

  /** The node across the top edge of node (x, y) of `face` at `level`. */
  function TopNeighbour(face: Face, x: nat, y: nat, level: nat): (r: CenterCoordinates)
    ensures r.face != face
  {
    var n := NodeSize(level);
    match face
    case Back => CenterCoordinates(x, n - 1, Top)
    case Front => CenterCoordinates(x, 0, Top)
    case Top => CenterCoordinates(n - 1 - x, n - 1, Back)
    case Bottom => CenterCoordinates(x, 0, Back)
    case Right => CenterCoordinates(n - 1, x, Top)
    case Left => CenterCoordinates(0, n - 1 - x, Top)
  }

  /** The node across the bottom edge of node (x, y) of `face` at `level`. */
  function BottomNeighbour(face: Face, x: nat, y: nat, level: nat): (r: CenterCoordinates)
    ensures r.face != face
  {
    var n := NodeSize(level);
    match face
    case Back => CenterCoordinates(x, n - 1, Bottom)
    case Front => CenterCoordinates(n - 1 - x, 0, Bottom)
    case Top => CenterCoordinates(x, n - 1, Front)
    case Bottom => CenterCoordinates(n - 1 - x, 0, Front)
    case Right => CenterCoordinates(0, x, Bottom)
    case Left => CenterCoordinates(n - 1, n - 1 - x, Bottom)
  }

  // ---------------------------------------------------------------------------
  // The two corrected entries.

  function RightNeighbourCorrected(face: Face, x: nat, y: nat, level: nat): CenterCoordinates
  {
    if face == Bottom then CenterCoordinates(NodeSize(level) - 1 - y, 0, Left)
    else RightNeighbour(face, x, y, level)
  }

  function TopNeighbourCorrected(face: Face, x: nat, y: nat, level: nat): CenterCoordinates
  {
    if face == Back then CenterCoordinates(NodeSize(level) - 1 - x, NodeSize(level) - 1, Top)
    else TopNeighbour(face, x, y, level)
  }

  // ---------------------------------------------------------------------------
  // Range and face properties of the tables as written.

  predicate InGrid(c: CenterCoordinates, level: nat)
  {
    0 <= c.x < NodeSize(level) && 0 <= c.y < NodeSize(level)
  }

  lemma LeftNeighbourRange(face: Face, x: nat, y: nat, level: nat)
    requires x < NodeSize(level) && y < NodeSize(level)
    ensures InGrid(LeftNeighbour(face, x, y, level), level)
    ensures LeftNeighbour(face, x, y, level).face != face
  {
  }

  /** Every right neighbour is on the grid, except right-of-Bottom at y = 0. */
  lemma RightNeighbourRange(face: Face, x: nat, y: nat, level: nat)
    requires x < NodeSize(level) && y < NodeSize(level)
    ensures InGrid(RightNeighbour(face, x, y, level), level) <==> !(face == Bottom && y == 0)
    ensures RightNeighbour(face, x, y, level).face != face
  {
  }

  lemma TopNeighbourRange(face: Face, x: nat, y: nat, level: nat)
    requires x < NodeSize(level) && y < NodeSize(level)
    ensures InGrid(TopNeighbour(face, x, y, level), level)
    ensures TopNeighbour(face, x, y, level).face != face
  {
  }

  lemma BottomNeighbourRange(face: Face, x: nat, y: nat, level: nat)
    requires x < NodeSize(level) && y < NodeSize(level)
    ensures InGrid(BottomNeighbour(face, x, y, level), level)
    ensures BottomNeighbour(face, x, y, level).face != face
  {
  }

  lemma RightNeighbourCorrectedRange(face: Face, x: nat, y: nat, level: nat)
    requires x < NodeSize(level) && y < NodeSize(level)
    ensures InGrid(RightNeighbourCorrected(face, x, y, level), level)
    ensures RightNeighbourCorrected(face, x, y, level).face != face
  {
  }

  // ---------------------------------------------------------------------------
  // Round trips that hold for the tables as written.

  predicate IsSideFace(f: Face)
  {
    f == Back || f == Front || f == Right || f == Left
  }

  /** On the four side faces, crossing a vertical seam to the right and then back to the left is the identity, and vice versa. */
  lemma SideSeamsInverse(face: Face, y: nat, level: nat)
    requires IsSideFace(face) && y < NodeSize(level)
    ensures var n := NodeSize(level);
            var r := RightNeighbour(face, n - 1, y, level);
            r.x == 0 && r.y == y && IsSideFace(r.face)
            && LeftNeighbour(r.face, 0, y, level) == CenterCoordinates(n - 1, y, face)
    ensures var n := NodeSize(level);
            var l := LeftNeighbour(face, 0, y, level);
            l.x == n - 1 && l.y == y && IsSideFace(l.face)
            && RightNeighbour(l.face, n - 1, y, level) == CenterCoordinates(0, y, face)
  {
  }

  /** left[Top] and top[Left] undo each other, and so do right[Top] and top[Right]. */
  lemma TopSideSeamsInverse(k: nat, level: nat)
    requires k < NodeSize(level)
    ensures var n := NodeSize(level);
            var l := LeftNeighbour(Top, 0, k, level);
            l.face == Left && l.y == n - 1 && 0 <= l.x
            && TopNeighbour(Left, l.x, n - 1, level) == CenterCoordinates(0, k, Top)
    ensures var n := NodeSize(level);
            var t := TopNeighbour(Left, k, n - 1, level);
            t.face == Top && t.x == 0 && 0 <= t.y
            && LeftNeighbour(Top, 0, t.y, level) == CenterCoordinates(k, n - 1, Left)
    ensures var n := NodeSize(level);
            var r := RightNeighbour(Top, n - 1, k, level);
            r.face == Right && r.y == n - 1 && 0 <= r.x
            && TopNeighbour(Right, r.x, n - 1, level) == CenterCoordinates(n - 1, k, Top)
    ensures var n := NodeSize(level);
            var t := TopNeighbour(Right, k, n - 1, level);
            t.face == Top && t.x == n - 1 && 0 <= t.y
            && RightNeighbour(Top, n - 1, t.y, level) == CenterCoordinates(k, n - 1, Right)
  {
  }

  /** Four cross-face round trips that return to the starting node. */
  lemma CrossFaceRoundTrips(k: nat, level: nat)
    requires k < NodeSize(level)
    ensures var n := NodeSize(level);
            var t := TopNeighbour(Front, k, n - 1, level);
            t == CenterCoordinates(k, 0, Top)
            && BottomNeighbour(Top, k, 0, level) == CenterCoordinates(k, n - 1, Front)
    ensures var n := NodeSize(level);
            var b := BottomNeighbour(Back, k, 0, level);
            b == CenterCoordinates(k, n - 1, Bottom)
            && TopNeighbour(Bottom, k, n - 1, level) == CenterCoordinates(k, 0, Back)
    ensures var n := NodeSize(level);
            var b := BottomNeighbour(Front, k, 0, level);
            b == CenterCoordinates(n - 1 - k, 0, Bottom)
            && BottomNeighbour(Bottom, n - 1 - k, 0, level) == CenterCoordinates(k, 0, Front)
    ensures var n := NodeSize(level);
            var l := LeftNeighbour(Bottom, 0, k, level);
            l == CenterCoordinates(k, 0, Right)
            && BottomNeighbour(Right, k, 0, level) == CenterCoordinates(0, k, Bottom)
  {
  }

  // ---------------------------------------------------------------------------
  // Geometry of the cube, as LodQuadTree.GetNodeCenter lays the faces out.
  // Coordinates are scaled by 2^level so that they stay integers: a face spans
  // [-n, n] x [-n, n] and node (x, y) has its centre at (2x + 1 - n, 2y + 1 - n).

  datatype Point3 = Point3(x: int, y: int, z: int)

  datatype Edge = LeftEdge | RightEdge | TopEdge | BottomEdge

  /** The point of face `face` at face coordinates (u, v), scaled by n. */
  function Embed(face: Face, u: int, v: int, n: int): Point3
  {
    match face
    case Back => Point3(-u, v, n)
    case Front => Point3(u, v, -n)
    case Top => Point3(u, n, v)
    case Bottom => Point3(-u, -n, v)
    case Right => Point3(n, v, u)
    case Left => Point3(-n, v, -u)
  }

  /** The midpoint of edge `e` of node (x, y) on `face`. */
  function EdgeMidpoint(face: Face, e: Edge, x: int, y: int, level: nat): Point3
  {
    var n := NodeSize(level);
    var u := 2 * x + 1 - n;
    var v := 2 * y + 1 - n;
    match e
    case LeftEdge => Embed(face, u - 1, v, n)
    case RightEdge => Embed(face, u + 1, v, n)
    case TopEdge => Embed(face, u, v + 1, n)
    case BottomEdge => Embed(face, u, v - 1, n)
  }

  /** Whether node (x, y) on `face` lies along edge `e` of its face. */
  predicate OnBoundary(e: Edge, x: nat, y: nat, level: nat)
  {
    x < NodeSize(level) && y < NodeSize(level) &&
    match e
    case LeftEdge => x == 0
    case RightEdge => x == NodeSize(level) - 1
    case TopEdge => y == NodeSize(level) - 1
    case BottomEdge => y == 0
  }

  /** The table in use: one lookup per edge direction, with the corrected entries. */
  function CrossEdge(e: Edge, face: Face, x: nat, y: nat, level: nat): CenterCoordinates
  {
    match e
    case LeftEdge => LeftNeighbour(face, x, y, level)
    case RightEdge => RightNeighbourCorrected(face, x, y, level)
    case TopEdge => TopNeighbourCorrected(face, x, y, level)
    case BottomEdge => BottomNeighbour(face, x, y, level)
  }

  /** The edge of the neighbouring face through which a crossing arrives. */
  function EntryEdge(e: Edge, face: Face): Edge
  {
    match (e, face)
    case (LeftEdge, Top) => TopEdge
    case (LeftEdge, Bottom) => BottomEdge
    case (LeftEdge, _) => RightEdge
    case (RightEdge, Top) => TopEdge
    case (RightEdge, Bottom) => BottomEdge
    case (RightEdge, _) => LeftEdge
    case (TopEdge, Back) => TopEdge
    case (TopEdge, Front) => BottomEdge
    case (TopEdge, Top) => TopEdge
    case (TopEdge, Bottom) => BottomEdge
    case (TopEdge, Right) => RightEdge
    case (TopEdge, Left) => LeftEdge
    case (BottomEdge, Back) => TopEdge
    case (BottomEdge, Front) => BottomEdge
    case (BottomEdge, Top) => TopEdge
    case (BottomEdge, Bottom) => BottomEdge
    case (BottomEdge, Right) => LeftEdge
    case (BottomEdge, Left) => RightEdge
  }

  /**
   * Every entry of the corrected table is geometrically right: the node it
   * returns lies on another face, on the grid, along the entry edge, and the
   * crossed edge of the starting node is the same segment of the cube as the
   * entry edge of the returned node.
   */
  lemma CrossEdgeSharesEdge(e: Edge, face: Face, x: nat, y: nat, level: nat)
    requires OnBoundary(e, x, y, level)
    ensures var c := CrossEdge(e, face, x, y, level);
            c.face != face && InGrid(c, level)
            && OnBoundary(EntryEdge(e, face), c.x, c.y, level)
            && EdgeMidpoint(face, e, x, y, level) == EdgeMidpoint(c.face, EntryEdge(e, face), c.x, c.y, level)
  {
    match e
    case LeftEdge => CrossLeftEdgeSharesEdge(face, x, y, level);
    case RightEdge => CrossRightEdgeSharesEdge(face, x, y, level);
    case TopEdge => CrossTopEdgeSharesEdge(face, x, y, level);
    case BottomEdge => CrossBottomEdgeSharesEdge(face, x, y, level);
  }

  // CrossEdgeSharesEdge, one edge direction at a time.

  lemma CrossLeftEdgeSharesEdge(face: Face, x: nat, y: nat, level: nat)
    requires OnBoundary(LeftEdge, x, y, level)
    ensures var c := CrossEdge(LeftEdge, face, x, y, level);
            c.face != face && InGrid(c, level)
            && OnBoundary(EntryEdge(LeftEdge, face), c.x, c.y, level)
            && EdgeMidpoint(face, LeftEdge, x, y, level) == EdgeMidpoint(c.face, EntryEdge(LeftEdge, face), c.x, c.y, level)
  {
    match face
    case Back =>
    case Front =>
    case Top =>
    case Bottom =>
    case Right =>
    case Left =>
  }

  lemma CrossRightEdgeSharesEdge(face: Face, x: nat, y: nat, level: nat)
    requires OnBoundary(RightEdge, x, y, level)
    ensures var c := CrossEdge(RightEdge, face, x, y, level);
            c.face != face && InGrid(c, level)
            && OnBoundary(EntryEdge(RightEdge, face), c.x, c.y, level)
            && EdgeMidpoint(face, RightEdge, x, y, level) == EdgeMidpoint(c.face, EntryEdge(RightEdge, face), c.x, c.y, level)
  {
    match face
    case Back =>
    case Front =>
    case Top =>
    case Bottom =>
    case Right =>
    case Left =>
  }

  lemma CrossTopEdgeSharesEdge(face: Face, x: nat, y: nat, level: nat)
    requires OnBoundary(TopEdge, x, y, level)
    ensures var c := CrossEdge(TopEdge, face, x, y, level);
            c.face != face && InGrid(c, level)
            && OnBoundary(EntryEdge(TopEdge, face), c.x, c.y, level)
            && EdgeMidpoint(face, TopEdge, x, y, level) == EdgeMidpoint(c.face, EntryEdge(TopEdge, face), c.x, c.y, level)
  {
    match face
    case Back =>
    case Front =>
    case Top =>
    case Bottom =>
    case Right =>
    case Left =>
  }

  lemma CrossBottomEdgeSharesEdge(face: Face, x: nat, y: nat, level: nat)
    requires OnBoundary(BottomEdge, x, y, level)
    ensures var c := CrossEdge(BottomEdge, face, x, y, level);
            c.face != face && InGrid(c, level)
            && OnBoundary(EntryEdge(BottomEdge, face), c.x, c.y, level)
            && EdgeMidpoint(face, BottomEdge, x, y, level) == EdgeMidpoint(c.face, EntryEdge(BottomEdge, face), c.x, c.y, level)
  {
    match face
    case Back =>
    case Front =>
    case Top =>
    case Bottom =>
    case Right =>
    case Left =>
  }

  /** Crossing an edge and crossing back through the entry edge returns to the start. */
  lemma CrossEdgeInverse(e: Edge, face: Face, x: nat, y: nat, level: nat)
    requires OnBoundary(e, x, y, level)
    ensures var c := CrossEdge(e, face, x, y, level);
            InGrid(c, level)
            && CrossEdge(EntryEdge(e, face), c.face, c.x, c.y, level) == CenterCoordinates(x, y, face)
  {
    match e
    case LeftEdge =>
    case RightEdge =>
    case TopEdge =>
    case BottomEdge =>
  }

  /** right[Bottom] as written leaves the grid at y = 0 and misses the shared edge everywhere. */
  lemma RightOfBottomOffByOne(y: nat, level: nat)
    requires y < NodeSize(level)
    ensures var n := NodeSize(level);
            var c := RightNeighbour(Bottom, n - 1, y, level);
            c.x == RightNeighbourCorrected(Bottom, n - 1, y, level).x + 1
            && EdgeMidpoint(Bottom, RightEdge, n - 1, y, level)
               != EdgeMidpoint(c.face, BottomEdge, c.x, c.y, level)
    ensures RightNeighbour(Bottom, 0, 0, 0) == CenterCoordinates(1, 0, Left)
  {
  }

  /** top[Back] as written does not flip x, so it disagrees with the geometry and with top[Top]. */
  lemma TopOfBackNotFlipped()
    ensures TopNeighbour(Back, 0, 1, 1) == CenterCoordinates(0, 1, Top)
    ensures EdgeMidpoint(Back, TopEdge, 0, 1, 1) != EdgeMidpoint(Top, TopEdge, 0, 1, 1)
    ensures TopNeighbour(Top, 0, 1, 1) == CenterCoordinates(1, 1, Back)
  {
  }
}
