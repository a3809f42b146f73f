/**
 * The combinatorial part of building the cube that is later mapped onto the
 * sphere: six r-by-r grids, one per cube side, whose shared edge points are
 * written once through a dictionary, and two triangles per grid square.
 *
 * A float coordinate 2t/(r-1) - 1 is modelled as the grid number t in
 * [0, r-1], so -1 is 0 and +1 is r-1, and a vertex is an integer triple.
 */
module CubeSphereMesh {

  type Point = (int, int, int)

  // ---------------------------------------------------------------------------
  // The cube on the integer grid

  /** The six side functions: side `s` sends grid cell (a, b) to a point of the cube. */
  function SidePoint(s: nat, r: nat, a: int, b: int): (p: Point)
    requires s < 6
  {
    var m := r - 1;
    if s == 0 then (m, a, b)
    else if s == 1 then (0, b, a)
    else if s == 2 then (b, m, a)
    else if s == 3 then (a, 0, b)
    else if s == 4 then (a, b, m)
    else (b, a, 0)
  }

  /** The grid cell of side `s` that lands on `p`: the inverse of SidePoint. */
  function SideCell(s: nat, p: Point): (c: (int, int))
    requires s < 6
  {
    if s == 0 then (p.1, p.2)
    else if s == 1 then (p.2, p.1)
    else if s == 2 then (p.2, p.0)
    else if s == 3 then (p.0, p.2)
    else if s == 4 then (p.0, p.1)
    else (p.1, p.0)
  }

  function Coord(p: Point, axis: nat): int
  {
    if axis == 0 then p.0 else if axis == 1 then p.1 else p.2
  }

  /** The axis a side fixes, and the end of the grid it fixes it at: r-1 for +1, 0 for -1. */
  function Axis(s: nat): nat
  {
    s / 2
  }

  function Extreme(s: nat, r: nat): int
  {
    if s % 2 == 0 then r - 1 else 0
  }

  predicate OnSide(s: nat, r: nat, p: Point)
  {
    Coord(p, Axis(s)) == Extreme(s, r)
  }

  predicate InCube(r: nat, p: Point)
  {
    0 <= p.0 < r && 0 <= p.1 < r && 0 <= p.2 < r
  }

  predicate AtEnd(r: nat, c: int)
  {
    c == 0 || c == r - 1
  }

  /** A grid point of the cube's surface: some coordinate is at an end of the grid. */
  predicate OnSurface(r: nat, p: Point)
  {
    InCube(r, p) && (AtEnd(r, p.0) || AtEnd(r, p.1) || AtEnd(r, p.2))
  }

  /** A grid point on an edge of the cube: two coordinates are at an end of the grid. */
  predicate CubeEdge(r: nat, p: Point)
  {
    (AtEnd(r, p.0) && AtEnd(r, p.1)) || (AtEnd(r, p.0) && AtEnd(r, p.2)) || (AtEnd(r, p.1) && AtEnd(r, p.2))
  }

  /** The edge test of the vertex loop: a product of the distances to the four grid borders is zero. */
  predicate EdgeCell(r: nat, i: int, j: int)
  {
    i * j * (r - 1 - i) * (r - 1 - j) == 0
  }

  /** `p` lies on one of the sides before side `s`, so the vertex loop has met it already. */
  predicate SeenBefore(s: nat, r: nat, p: Point)
  {
    (s > 0 && OnSide(0, r, p)) || (s > 1 && OnSide(1, r, p)) || (s > 2 && OnSide(2, r, p))
    || (s > 3 && OnSide(3, r, p)) || (s > 4 && OnSide(4, r, p)) || (s > 5 && OnSide(5, r, p))
  }

  predicate CellBefore(c: (int, int), i: int, j: int)
  {
    c.0 < i || (c.0 == i && c.1 < j)
  }

  /** The points the vertex loop has met before it reaches cell (i, j) of side `s`. */
  predicate Visited(r: nat, s: nat, i: int, j: int, p: Point)
  {
    InCube(r, p) && (SeenBefore(s, r, p) || (s < 6 && OnSide(s, r, p) && CellBefore(SideCell(s, p), i, j)))
  }

  /** The number of distinct points of the cube's surface. */
  function VertexCount(r: nat): int
  {
    6 * r * r - 12 * r + 8
  }

  /** Two triangles per grid square, (r-1)^2 squares per side. */
  function TriangleCount(r: nat): int
  {
    6 * 2 * (r - 1) * (r - 1)
  }

  // ---------------------------------------------------------------------------
  // Facts about the sides

  lemma SidePointFacts(s: nat, r: nat, i: int, j: int)
    requires s < 6 && r >= 2 && 0 <= i < r && 0 <= j < r
    ensures InCube(r, SidePoint(s, r, i, j)) && OnSide(s, r, SidePoint(s, r, i, j))
    ensures SideCell(s, SidePoint(s, r, i, j)) == (i, j)
    ensures EdgeCell(r, i, j) <==> CubeEdge(r, SidePoint(s, r, i, j))
  {
    ProductZero(r, i, j);
  }

  lemma ProductZero(r: nat, i: int, j: int)
    requires 0 <= i < r && 0 <= j < r
    ensures EdgeCell(r, i, j) <==> i == 0 || j == 0 || i == r - 1 || j == r - 1
  {
    if i != 0 && j != 0 && i != r - 1 && j != r - 1 {
      PositiveProduct(i, j);
      PositiveProduct(i * j, r - 1 - i);
      PositiveProduct(i * j * (r - 1 - i), r - 1 - j);
    }
  }

  lemma PositiveProduct(x: int, y: int)
    requires x > 0 && y > 0
    ensures x * y > 0
  {
  }

  /** Every point of side `s` is the image of the grid cell SideCell gives. */
  lemma SideCellFacts(s: nat, r: nat, p: Point)
    requires s < 6 && InCube(r, p) && OnSide(s, r, p)
    ensures 0 <= SideCell(s, p).0 < r && 0 <= SideCell(s, p).1 < r
    ensures SidePoint(s, r, SideCell(s, p).0, SideCell(s, p).1) == p
  {
  }

  /** Each side fixes one axis at one end, and no two sides fix the same axis at the same end. */
  lemma SidesDistinct(r: nat)
    requires r >= 2
    ensures forall s, t | 0 <= s < t < 6 :: (Axis(s), Extreme(s, r)) != (Axis(t), Extreme(t, r))
    ensures forall s | 0 <= s < 6 :: Axis(s) < 3
  {
  }

  /** A point of side `s` that an earlier side also holds, per side, on the grid cell. */
  lemma SeenCell(s: nat, r: nat, i: int, j: int)
    requires s < 6 && r >= 2 && 0 <= i < r && 0 <= j < r
    ensures SeenBefore(s, r, SidePoint(s, r, i, j)) <==>
              if s <= 1 then false
              else if s == 2 then AtEnd(r, j)
              else if s == 3 then AtEnd(r, i)
              else AtEnd(r, i) || AtEnd(r, j)
  {
  }

  /** Every side is met by the time all six have been walked: SeenBefore(6) is the surface. */
  lemma SeenAllIsSurface(r: nat, p: Point)
    requires r >= 2 && InCube(r, p)
    ensures SeenBefore(6, r, p) <==> OnSurface(r, p)
  {
  }

  /** Only an edge cell of side `s` can hold a point an earlier side already holds. */
  lemma SeenIsEdge(s: nat, r: nat, i: int, j: int)
    requires s < 6 && r >= 2 && 0 <= i < r && 0 <= j < r
    ensures SeenBefore(s, r, SidePoint(s, r, i, j)) ==> CubeEdge(r, SidePoint(s, r, i, j))
  {
    SeenCell(s, r, i, j);
    SidePointFacts(s, r, i, j);
    ProductZero(r, i, j);
  }

  // ---------------------------------------------------------------------------
  // Counting the points each side adds

  /** The cells of row `i` of side `s` before column `j` whose point no earlier side holds. */
  function FreshInRow(s: nat, r: nat, i: int, j: nat): nat
    requires s < 6
  {
    if j == 0 then 0
    else FreshInRow(s, r, i, j - 1) + (if SeenBefore(s, r, SidePoint(s, r, i, j - 1)) then 0 else 1)
  }

  /** The fresh cells of side `s` in the rows before row `i`. */
  function FreshInRows(s: nat, r: nat, i: nat): nat
    requires s < 6
  {
    if i == 0 then 0 else FreshInRows(s, r, i - 1) + FreshInRow(s, r, i - 1, r)
  }

  /** The fresh cells of the sides before side `s`. */
  function FreshBefore(r: nat, s: nat): nat
    requires s <= 6
  {
    if s == 0 then 0 else FreshBefore(r, s - 1) + FreshInRows(s - 1, r, r)
  }

  /** How many of 0 .. n-1 lie strictly inside the grid. */
  function InsideBelow(r: nat, n: nat): nat
    requires r >= 2
  {
    if n <= 1 then 0 else if n >= r - 1 then r - 2 else n - 1
  }

  lemma {:induction false} FreshInRowCount(s: nat, r: nat, i: int, j: nat)
    requires s < 6 && r >= 2 && 0 <= i < r && j <= r
    ensures FreshInRow(s, r, i, j) ==
              if s <= 1 then j
              else if s == 2 then InsideBelow(r, j)
              else if s == 3 then (if AtEnd(r, i) then 0 else j)
              else (if AtEnd(r, i) then 0 else InsideBelow(r, j))
  {
    if j > 0 {
      FreshInRowCount(s, r, i, j - 1);
      SeenCell(s, r, i, j - 1);
    }
  }

  /** The rows of side `s` before row `i` that hold fresh cells at all. */
  function CountedRows(s: nat, r: nat, i: nat): nat
    requires r >= 2
  {
    if s <= 2 then i else InsideBelow(r, i)
  }

  /** The fresh cells of a full row of side `s` that holds any. */
  function RowWidth(s: nat, r: nat): nat
    requires r >= 2
  {
    if s <= 1 || s == 3 then r else r - 2
  }

  lemma MulStep(a: nat, w: nat)
    ensures (a + 1) * w == a * w + w
  {
  }

  lemma {:induction false} FreshInRowsCount(s: nat, r: nat, i: nat)
    requires s < 6 && r >= 2 && i <= r
    ensures FreshInRows(s, r, i) == CountedRows(s, r, i) * RowWidth(s, r)
  {
    if i > 0 {
      FreshInRowsCount(s, r, i - 1);
      FreshInRowCount(s, r, i - 1, r);
      var a, w := CountedRows(s, r, i - 1), RowWidth(s, r);
      if CountedRows(s, r, i) == a + 1 {
        MulStep(a, w);
      }
    }
  }

  /** The six sides add r^2, r^2, r(r-2), r(r-2), (r-2)^2 and (r-2)^2 points: 6r^2 - 12r + 8 in all. */
  lemma FreshTotal(r: nat)
    requires r >= 2
    ensures FreshBefore(r, 6) == VertexCount(r)
  {
    var full, band, inner := r * r, r * (r - 2), (r - 2) * (r - 2);
    assert (r - 2) * r == band;
    FreshInRowsCount(0, r, r);
    FreshInRowsCount(1, r, r);
    FreshInRowsCount(2, r, r);
    FreshInRowsCount(3, r, r);
    FreshInRowsCount(4, r, r);
    FreshInRowsCount(5, r, r);
    assert FreshBefore(r, 1) == full;
    assert FreshBefore(r, 2) == 2 * full;
    assert FreshBefore(r, 3) == 2 * full + band;
    assert FreshBefore(r, 4) == 2 * full + 2 * band;
    assert FreshBefore(r, 5) == 2 * full + 2 * band + inner;
    assert FreshBefore(r, 6) == 2 * full + 2 * band + 2 * inner;
    SixSides(r);
  }

  lemma SixSides(r: int)
    ensures r * r + r * r + r * (r - 2) + (r - 2) * r + (r - 2) * (r - 2) + (r - 2) * (r - 2) == 6 * r * r - 12 * r + 8
  {
  }

  lemma {:induction false} FreshInRowMono(s: nat, r: nat, i: int, j: nat, k: nat)
    requires s < 6 && j <= k
    ensures FreshInRow(s, r, i, j) <= FreshInRow(s, r, i, k)
    decreases k
  {
    if j < k {
      FreshInRowMono(s, r, i, j, k - 1);
    }
  }

  lemma {:induction false} FreshInRowsMono(s: nat, r: nat, i: nat, k: nat)
    requires s < 6 && i <= k
    ensures FreshInRows(s, r, i) <= FreshInRows(s, r, k)
    decreases k
  {
    if i < k {
      FreshInRowsMono(s, r, i, k - 1);
    }
  }

  lemma {:induction false} FreshBeforeMono(r: nat, s: nat, k: nat)
    requires s <= k <= 6
    ensures FreshBefore(r, s) <= FreshBefore(r, k)
    decreases k
  {
    if s < k {
      FreshBeforeMono(r, s, k - 1);
    }
  }

  lemma FreshInRowStep(s: nat, r: nat, i: int, j: nat, k: nat)
    requires s < 6 && j < k && !SeenBefore(s, r, SidePoint(s, r, i, j))
    ensures FreshInRow(s, r, i, j) + 1 <= FreshInRow(s, r, i, k)
  {
    FreshInRowMono(s, r, i, j + 1, k);
  }

  lemma FreshInRowsStep(s: nat, r: nat, i: nat, k: nat)
    requires s < 6 && i < k
    ensures FreshInRows(s, r, i) + FreshInRow(s, r, i, r) <= FreshInRows(s, r, k)
  {
    FreshInRowsMono(s, r, i + 1, k);
  }

  lemma FreshBeforeStep(r: nat, s: nat, k: nat)
    requires s < k <= 6
    ensures FreshBefore(r, s) + FreshInRows(s, r, r) <= FreshBefore(r, k)
  {
    FreshBeforeMono(r, s + 1, k);
  }

  /** A fresh cell still has a free slot: the count so far plus one stays within the vertex count. */
  lemma FreshFits(r: nat, s: nat, i: nat, j: nat)
    requires r >= 2 && s < 6 && i < r && j < r
    requires !SeenBefore(s, r, SidePoint(s, r, i, j))
    ensures FreshBefore(r, s) + FreshInRows(s, r, i) + FreshInRow(s, r, i, j) + 1 <= FreshBefore(r, 6)
  {
    FreshInRowStep(s, r, i, j, r);
    FreshInRowsStep(s, r, i, r);
    FreshBeforeStep(r, s, 6);
  }

  // ---------------------------------------------------------------------------
  // The vertex loop's invariant

  /**
   * The state of the vertex loop as it reaches cell (i, j) of side `s`: the
   * first `v` vertices are exactly the points met so far, each once, `v`
   * counts them, and the dictionary maps each edge point met so far to its
   * vertex index. `pos` gives the index of every point met so far.
   */
  ghost predicate VertsOk(r: nat, s: nat, i: nat, j: nat, vs: seq<Point>, v: nat, dict: map<Point, int>,
                          pos: map<Point, int>)
    requires s <= 6
  {
    v <= |vs|
    && (s < 6 ==> v == FreshBefore(r, s) + FreshInRows(s, r, i) + FreshInRow(s, r, i, j))
    && (s == 6 ==> v == FreshBefore(r, 6))
    && (forall p :: p in pos <==> Visited(r, s, i, j, p))
    && (forall p | p in pos :: 0 <= pos[p] < v && vs[pos[p]] == p)
    && (forall a | 0 <= a < v :: vs[a] in pos && pos[vs[a]] == a)
    && (forall p :: p in dict <==> p in pos && CubeEdge(r, p))
    && (forall p | p in dict :: dict[p] == pos[p])
  }

  /** One more cell met: the visited points gain the cell's point. */
  lemma VisitedNext(r: nat, s: nat, i: int, j: int, q: Point)
    requires r >= 2 && s < 6 && 0 <= i < r && 0 <= j < r
    ensures Visited(r, s, i, j + 1, q) <==> Visited(r, s, i, j, q) || q == SidePoint(s, r, i, j)
  {
    SidePointFacts(s, r, i, j);
    if InCube(r, q) && OnSide(s, r, q) {
      SideCellFacts(s, r, q);
    }
  }

  /** A cell whose point the dictionary holds adds nothing. */
  lemma ReuseStep(r: nat, s: nat, i: nat, j: nat, vs: seq<Point>, v: nat, dict: map<Point, int>,
                  pos: map<Point, int>)
    requires r >= 2 && s < 6 && i < r && j < r
    requires VertsOk(r, s, i, j, vs, v, dict, pos) && SidePoint(s, r, i, j) in dict
    ensures VertsOk(r, s, i, j + 1, vs, v, dict, pos)
    ensures 0 <= dict[SidePoint(s, r, i, j)] < v && vs[dict[SidePoint(s, r, i, j)]] == SidePoint(s, r, i, j)
  {
    var p := SidePoint(s, r, i, j);
    SidePointFacts(s, r, i, j);
    assert Visited(r, s, i, j, p);
    assert SeenBefore(s, r, p);
    forall q ensures Visited(r, s, i, j + 1, q) <==> Visited(r, s, i, j, q) {
      VisitedNext(r, s, i, j, q);
    }
  }

  /** A cell whose point is not yet known takes the next vertex index. */
  lemma FreshStep(r: nat, s: nat, i: nat, j: nat, vs: seq<Point>, v: nat, dict: map<Point, int>,
                  pos: map<Point, int>, edge: bool)
    requires r >= 2 && s < 6 && i < r && j < r && |vs| == FreshBefore(r, 6)
    requires VertsOk(r, s, i, j, vs, v, dict, pos)
    requires edge == EdgeCell(r, i, j) && (edge ==> SidePoint(s, r, i, j) !in dict)
    ensures v < |vs|
    ensures var p := SidePoint(s, r, i, j);
            VertsOk(r, s, i, j + 1, vs[v := p], v + 1, if edge then dict[p := v] else dict, pos[p := v])
  {
    var p := SidePoint(s, r, i, j);
    SidePointFacts(s, r, i, j);
    SeenIsEdge(s, r, i, j);
    assert !Visited(r, s, i, j, p);
    assert p !in pos;
    FreshFits(r, s, i, j);
    var vs', dict', pos' := vs[v := p], (if edge then dict[p := v] else dict), pos[p := v];
    forall q ensures q in pos' <==> Visited(r, s, i, j + 1, q) {
      VisitedNext(r, s, i, j, q);
    }
    forall a | 0 <= a < v + 1 ensures vs'[a] in pos' && pos'[vs'[a]] == a {
      if a < v {
        assert vs[a] in pos;
      }
    }
  }

  lemma RowDone(r: nat, s: nat, i: nat, vs: seq<Point>, v: nat, dict: map<Point, int>, pos: map<Point, int>)
    requires r >= 2 && s < 6 && i < r
    requires VertsOk(r, s, i, r, vs, v, dict, pos)
    ensures VertsOk(r, s, i + 1, 0, vs, v, dict, pos)
  {
    forall q ensures Visited(r, s, i, r, q) <==> Visited(r, s, i + 1, 0, q) {
      if InCube(r, q) && OnSide(s, r, q) {
        SideCellFacts(s, r, q);
      }
    }
  }

  lemma SideDone(r: nat, s: nat, vs: seq<Point>, v: nat, dict: map<Point, int>, pos: map<Point, int>)
    requires r >= 2 && s < 6
    requires VertsOk(r, s, r, 0, vs, v, dict, pos)
    ensures VertsOk(r, s + 1, 0, 0, vs, v, dict, pos)
  {
    forall q ensures Visited(r, s, r, 0, q) <==> Visited(r, s + 1, 0, 0, q) {
      if InCube(r, q) && OnSide(s, r, q) {
        SideCellFacts(s, r, q);
      }
    }
  }

  // ---------------------------------------------------------------------------
  // The triangles

  /** The six corners one grid square emits, in the order bottom left, top left, bottom right, bottom right, top left, top right. */
  function Corners(s: nat, r: nat, i: int, j: int): (c: seq<Point>)
    requires s < 6
    ensures |c| == 6
  {
    [SidePoint(s, r, i, j), SidePoint(s, r, i + 1, j), SidePoint(s, r, i, j + 1),
     SidePoint(s, r, i, j + 1), SidePoint(s, r, i + 1, j), SidePoint(s, r, i + 1, j + 1)]
  }

  /** The corners of the squares of row `i` of side `s` before column `j`. */
  function QuadRow(s: nat, r: nat, i: int, j: nat): (q: seq<Point>)
    requires s < 6
    ensures |q| == 6 * j
  {
    if j == 0 then [] else QuadRow(s, r, i, j - 1) + Corners(s, r, i, j - 1)
  }

  /** The corners of the squares of side `s` in the rows before row `i`. */
  function QuadRows(s: nat, r: nat, i: nat): seq<Point>
    requires s < 6 && r >= 1
  {
    if i == 0 then [] else QuadRows(s, r, i - 1) + QuadRow(s, r, i - 1, r - 1)
  }

  /** The corners emitted by the sides before side `n`, in the order the index loop writes them. */
  function CubeTriangles(r: nat, n: nat): seq<Point>
    requires n <= 6 && r >= 1
  {
    if n == 0 then [] else CubeTriangles(r, n - 1) + QuadRows(n - 1, r, r - 1)
  }

  /** The corners the index loop has emitted when it reaches square (i, j) of side `s`. */
  function Emitted(r: nat, s: nat, i: nat, j: nat): seq<Point>
    requires s < 6 && r >= 1
  {
    CubeTriangles(r, s) + QuadRows(s, r, i) + QuadRow(s, r, i, j)
  }

  lemma {:induction false} QuadRowsLength(s: nat, r: nat, i: nat)
    requires s < 6 && r >= 1
    ensures |QuadRows(s, r, i)| == i * (6 * (r - 1))
  {
    if i > 0 {
      QuadRowsLength(s, r, i - 1);
      MulStep(i - 1, 6 * (r - 1));
    }
  }

  lemma {:induction false} CubeTrianglesLength(r: nat, n: nat)
    requires n <= 6 && r >= 1
    ensures |CubeTriangles(r, n)| == n * (6 * (r - 1) * (r - 1))
  {
    if n > 0 {
      CubeTrianglesLength(r, n - 1);
      QuadRowsLength(n - 1, r, r - 1);
      assert (r - 1) * (6 * (r - 1)) == 6 * (r - 1) * (r - 1);
      MulStep(n - 1, 6 * (r - 1) * (r - 1));
    }
  }

  /** The index loop writes three indices per triangle: 36(r-1)^2 in all. */
  lemma TriangleListLength(r: nat)
    requires r >= 2
    ensures |CubeTriangles(r, 6)| == 3 * TriangleCount(r)
  {
    CubeTrianglesLength(r, 6);
    SquaresTimes(r - 1);
  }

  lemma SquaresTimes(m: int)
    ensures 6 * (6 * m * m) == 3 * (6 * 2 * m * m)
  {
  }

  lemma {:induction false} RowPrefix(s: nat, r: nat, i: int, j: nat, k: nat)
    requires s < 6 && j <= k
    ensures QuadRow(s, r, i, j) <= QuadRow(s, r, i, k)
    decreases k
  {
    if j < k {
      RowPrefix(s, r, i, j, k - 1);
    }
  }

  lemma {:induction false} RowsPrefix(s: nat, r: nat, i: nat, k: nat)
    requires s < 6 && r >= 1 && i <= k
    ensures QuadRows(s, r, i) <= QuadRows(s, r, k)
    decreases k
  {
    if i < k {
      RowsPrefix(s, r, i, k - 1);
    }
  }

  lemma {:induction false} SidesPrefix(r: nat, n: nat, k: nat)
    requires r >= 1 && n <= k <= 6
    ensures CubeTriangles(r, n) <= CubeTriangles(r, k)
    decreases k
  {
    if n < k {
      SidesPrefix(r, n, k - 1);
    }
  }

  /** One more square: its corners follow what was emitted, and there is room for them. */
  lemma EmittedStep(r: nat, s: nat, i: nat, j: nat)
    requires r >= 2 && s < 6 && i < r - 1 && j < r - 1
    ensures Emitted(r, s, i, j) + Corners(s, r, i, j) == Emitted(r, s, i, j + 1)
    ensures |Emitted(r, s, i, j + 1)| <= |CubeTriangles(r, 6)|
  {
    ENext(r, s, i, j);
    EFits1(r, s, i, j);
    EFits2(r, s, i);
    EFits3(r, s);
  }

  lemma ENext(r: nat, s: nat, i: nat, j: nat)
    requires r >= 2 && s < 6 && i < r - 1 && j < r - 1
    ensures Emitted(r, s, i, j) + Corners(s, r, i, j) == Emitted(r, s, i, j + 1)
  {
  }

  lemma EFits1(r: nat, s: nat, i: nat, j: nat)
    requires r >= 2 && s < 6 && i < r - 1 && j < r - 1
    ensures |QuadRow(s, r, i, j + 1)| <= |QuadRow(s, r, i, r - 1)|
  {
    RowPrefix(s, r, i, j + 1, r - 1);
  }

  lemma EFits2(r: nat, s: nat, i: nat)
    requires r >= 2 && s < 6 && i < r - 1
    ensures |QuadRows(s, r, i)| + |QuadRow(s, r, i, r - 1)| <= |QuadRows(s, r, r - 1)|
  {
    RowsPrefix(s, r, i + 1, r - 1);
  }

  lemma EFits3(r: nat, s: nat)
    requires r >= 2 && s < 6
    ensures |CubeTriangles(r, s)| + |QuadRows(s, r, r - 1)| <= |CubeTriangles(r, 6)|
  {
    SidesPrefix(r, s + 1, 6);
  }

  lemma EmittedRowDone(r: nat, s: nat, i: nat)
    requires r >= 2 && s < 6 && i < r - 1
    ensures Emitted(r, s, i, r - 1) == Emitted(r, s, i + 1, 0)
  {
  }

  lemma EmittedSideDone(r: nat, s: nat)
    requires r >= 2 && s < 6
    ensures Emitted(r, s, 0, 0) == CubeTriangles(r, s)
    ensures Emitted(r, s, r - 1, 0) == CubeTriangles(r, s + 1)
  {
  }

  /** The written prefix of the index array names, through the vertex array, the expected corners. */
  ghost predicate TrianglesOk(ixs: seq<int>, vs: seq<Point>, v: nat, expected: seq<Point>)
  {
    |expected| <= |ixs| && v <= |vs|
    && forall k {:trigger ixs[k]} | 0 <= k < |expected| :: 0 <= ixs[k] < v && vs[ixs[k]] == expected[k]
  }

  /** Positions `n` to `n + 5` of the index array name, through the vertex array, the points `c`. */
  ghost predicate SquareOk(ixs: seq<int>, n: nat, vs: seq<Point>, v: nat, c: seq<Point>)
  {
    n + 6 <= |ixs| && |c| == 6 && v <= |vs|
    && forall k {:trigger ixs[k]} | n <= k < n + 6 :: 0 <= ixs[k] < v && vs[ixs[k]] == c[k - n]
  }

  lemma TrianglesAppend(ixs: seq<int>, ixs': seq<int>, vs: seq<Point>, v: nat, expected: seq<Point>, c: seq<Point>, n: nat)
    requires TrianglesOk(ixs, vs, v, expected) && n == |expected| && |ixs'| == |ixs|
    requires ixs'[..n] == ixs[..n]
    requires SquareOk(ixs', n, vs, v, c)
    ensures TrianglesOk(ixs', vs, v, expected + c)
  {
    forall k | 0 <= k < n + 6 ensures 0 <= ixs'[k] < v && vs[ixs'[k]] == (expected + c)[k] {
      if k < n {
        assert ixs'[k] == ixs'[..n][k] == ixs[..n][k] == ixs[k];
        assert (expected + c)[k] == expected[k];
      } else {
        assert (expected + c)[k] == c[k - n];
      }
    }
  }

  /** Six indices naming the corners of square (i, j) extend what the index array names. */
  lemma SquareStep(r: nat, s: nat, i: nat, j: nat, before: seq<int>, after: seq<int>, vs: seq<Point>, v: nat, n: nat)
    requires r >= 2 && s < 6 && i < r - 1 && j < r - 1 && n == |Emitted(r, s, i, j)|
    requires |after| == |before| == |CubeTriangles(r, 6)| && n + 6 <= |before| && v <= |vs|
    requires TrianglesOk(before, vs, v, Emitted(r, s, i, j))
    requires after[..n] == before[..n]
    requires SquareOk(after, n, vs, v, Corners(s, r, i, j))
    ensures TrianglesOk(after, vs, v, Emitted(r, s, i, j + 1))
  {
    EmittedStep(r, s, i, j);
    TrianglesAppend(before, after, vs, v, Emitted(r, s, i, j), Corners(s, r, i, j), n);
  }

  lemma TrianglesFrame(ixs: seq<int>, vs: seq<Point>, vs': seq<Point>, v: nat, v': nat, expected: seq<Point>)
    requires TrianglesOk(ixs, vs, v, expected) && v <= v' <= |vs'| && |vs| <= |vs'| && vs'[..v] == vs[..v]
    ensures TrianglesOk(ixs, vs', v', expected)
  {
    forall k | 0 <= k < |expected| ensures vs'[ixs[k]] == expected[k] {
      assert vs'[ixs[k]] == vs'[..v][ixs[k]];
    }
  }

  // ---------------------------------------------------------------------------
  // construct_cube

  /**
   * One cell of the vertex loop: a cell on the grid border whose point the
   * dictionary holds reuses that vertex; any other cell writes its point as
   * a new vertex, and a border cell also enters it in the dictionary.
   */
  method VisitCell(r: nat, s: nat, i: nat, j: nat, vertices: array<Point>, v: nat,
                   dict: map<Point, int>, ghost pos: map<Point, int>)
    returns (index: int, v': nat, dict': map<Point, int>, ghost pos': map<Point, int>)
    requires r >= 2 && s < 6 && i < r && j < r && vertices.Length == FreshBefore(r, 6)
    requires VertsOk(r, s, i, j, vertices[..], v, dict, pos)
    modifies vertices
    ensures VertsOk(r, s, i, j + 1, vertices[..], v', dict', pos')
    ensures v <= v' && vertices[..v] == old(vertices[..v])
    ensures 0 <= index < v' && vertices[index] == SidePoint(s, r, i, j)
  {
    var vertex := SidePoint(s, r, i, j);
    var edge := i * j * (r - 1 - i) * (r - 1 - j) == 0;
    v', dict', pos' := v, dict, pos;
    if edge && vertex in dict {
      ReuseStep(r, s, i, j, vertices[..], v, dict, pos);
      index := dict[vertex];
    } else {
      FreshStep(r, s, i, j, vertices[..], v, dict, pos, edge);
      index := v;
      vertices[v] := vertex;
      if edge {
        dict' := dict[vertex := index];
      }
      pos' := pos[vertex := index];
      v' := v + 1;
    }
  }

  /** Vertices past the first `v` may change without disturbing the cells already indexed. */
  lemma CellsFrame(r: nat, s: nat, sideIdx: array2<int>, vs: seq<Point>, vs': seq<Point>, v: nat, v': nat,
                   i: int, j: int)
    requires s < 6 && sideIdx.Length0 == r && sideIdx.Length1 == r && v <= |vs|
    requires CellsIndexed(r, s, sideIdx, vs, v, i, j) && v <= v' <= |vs'| && vs'[..v] == vs[..v]
    ensures CellsIndexed(r, s, sideIdx, vs', v', i, j)
  {
    forall a, b | 0 <= a < r && 0 <= b < r && (a < i || (a == i && b < j))
      ensures vs'[sideIdx[a, b]] == SidePoint(s, r, a, b)
    {
      assert vs'[sideIdx[a, b]] == vs'[..v][sideIdx[a, b]];
    }
  }

  lemma PrefixShrink<T>(a: seq<T>, b: seq<T>, n: nat, m: nat)
    requires n <= m <= |a| && m <= |b| && b[..m] == a[..m]
    ensures b[..n] == a[..n]
  {
    assert b[..n] == b[..m][..n];
    assert a[..n] == a[..m][..n];
  }

  /** Cell (i, j) of side `s` records the index of its vertex. */
  method RecordIndex(r: nat, s: nat, i: nat, j: nat, sideIdx: array2<int>, ghost vs: seq<Point>, v: nat, index: int)
    requires s < 6 && i < r && j < r && sideIdx.Length0 == r && sideIdx.Length1 == r && v <= |vs|
    requires CellsIndexed(r, s, sideIdx, vs, v, i, j)
    requires 0 <= index < v && vs[index] == SidePoint(s, r, i, j)
    modifies sideIdx
    ensures CellsIndexed(r, s, sideIdx, vs, v, i, j + 1)
  {
    sideIdx[i, j] := index;
  }

  /** One cell of the vertex loop, recording the cell's vertex index in `sideIdx`. */
  method IndexCell(r: nat, s: nat, i: nat, j: nat, vertices: array<Point>, sideIdx: array2<int>, ghost v0: nat,
                   v: nat, dict: map<Point, int>, ghost pos: map<Point, int>)
    returns (v': nat, dict': map<Point, int>, ghost pos': map<Point, int>)
    requires r >= 2 && s < 6 && i < r && j < r && vertices.Length == FreshBefore(r, 6)
    requires sideIdx.Length0 == r && sideIdx.Length1 == r && v0 <= v
    requires VertsOk(r, s, i, j, vertices[..], v, dict, pos)
    requires CellsIndexed(r, s, sideIdx, vertices[..], v, i, j)
    modifies vertices, sideIdx
    ensures VertsOk(r, s, i, j + 1, vertices[..], v', dict', pos')
    ensures v0 <= v' && vertices[..v0] == old(vertices[..v0])
    ensures CellsIndexed(r, s, sideIdx, vertices[..], v', i, j + 1)
  {
    ghost var vs := vertices[..];
    var index;
    index, v', dict', pos' := VisitCell(r, s, i, j, vertices, v, dict, pos);
    CellsFrame(r, s, sideIdx, vs, vertices[..], v, v', i, j);
    PrefixShrink(vs, vertices[..], v0, v);
    RecordIndex(r, s, i, j, sideIdx, vertices[..], v', index);
  }

  /** The vertex loop over row `i` of side `s`. */
  method RowVertices(r: nat, s: nat, i: nat, vertices: array<Point>, sideIdx: array2<int>, v0: nat,
                     dict0: map<Point, int>, ghost pos0: map<Point, int>)
    returns (v: nat, dict: map<Point, int>, ghost pos: map<Point, int>)
    requires r >= 2 && s < 6 && i < r && vertices.Length == FreshBefore(r, 6)
    requires sideIdx.Length0 == r && sideIdx.Length1 == r
    requires VertsOk(r, s, i, 0, vertices[..], v0, dict0, pos0)
    requires CellsIndexed(r, s, sideIdx, vertices[..], v0, i, 0)
    modifies vertices, sideIdx
    ensures VertsOk(r, s, i + 1, 0, vertices[..], v, dict, pos)
    ensures v0 <= v && vertices[..v0] == old(vertices[..v0])
    ensures CellsIndexed(r, s, sideIdx, vertices[..], v, i + 1, 0)
  {
    v, dict, pos := v0, dict0, pos0;
    for j := 0 to r
      invariant VertsOk(r, s, i, j, vertices[..], v, dict, pos)
      invariant v0 <= v && vertices[..v0] == old(vertices[..v0])
      invariant CellsIndexed(r, s, sideIdx, vertices[..], v, i, j)
    {
      v, dict, pos := IndexCell(r, s, i, j, vertices, sideIdx, v0, v, dict, pos);
    }
    RowDone(r, s, i, vertices[..], v, dict, pos);
    CellsRowDone(r, s, sideIdx, vertices[..], v, i);
  }

  /**
   * The vertex loop over one side: each cell's vertex index goes to `sideIdx`.
   */
  method SideVertices(r: nat, s: nat, vertices: array<Point>, sideIdx: array2<int>, v0: nat,
                      dict0: map<Point, int>, ghost pos0: map<Point, int>)
    returns (v: nat, dict: map<Point, int>, ghost pos: map<Point, int>)
    requires r >= 2 && s < 6 && vertices.Length == FreshBefore(r, 6)
    requires sideIdx.Length0 == r && sideIdx.Length1 == r
    requires VertsOk(r, s, 0, 0, vertices[..], v0, dict0, pos0)
    modifies vertices, sideIdx
    ensures VertsOk(r, s + 1, 0, 0, vertices[..], v, dict, pos)
    ensures v0 <= v && vertices[..v0] == old(vertices[..v0])
    ensures CellsIndexed(r, s, sideIdx, vertices[..], v, r, 0)
  {
    v, dict, pos := v0, dict0, pos0;
    for i := 0 to r
      invariant VertsOk(r, s, i, 0, vertices[..], v, dict, pos)
      invariant v0 <= v && vertices[..v0] == old(vertices[..v0])
      invariant CellsIndexed(r, s, sideIdx, vertices[..], v, i, 0)
    {
      ghost var vs := vertices[..];
      ghost var vOld := v;
      v, dict, pos := RowVertices(r, s, i, vertices, sideIdx, v, dict, pos);
      PrefixShrink(vs, vertices[..], v0, vOld);
    }
    SideDone(r, s, vertices[..], v, dict, pos);
  }

  /** Having indexed every cell of row `i`, the cells before (i + 1, 0) are indexed. */
  lemma CellsRowDone(r: nat, s: nat, sideIdx: array2<int>, vs: seq<Point>, v: nat, i: int)
    requires s < 6 && sideIdx.Length0 == r && sideIdx.Length1 == r && v <= |vs|
    requires CellsIndexed(r, s, sideIdx, vs, v, i, r)
    ensures CellsIndexed(r, s, sideIdx, vs, v, i + 1, 0)
  {
  }

  /**
   * The cells of side `s` before cell (i, j) in row order hold, in `sideIdx`,
   * the index of one of the first `v` vertices of `vs`, equal to the cell's point.
   */
  predicate CellsIndexed(r: nat, s: nat, sideIdx: array2<int>, vs: seq<Point>, v: nat, i: int, j: int)
    requires s < 6 && sideIdx.Length0 == r && sideIdx.Length1 == r && v <= |vs|
    reads sideIdx
  {
    forall a, b {:trigger sideIdx[a, b]} | 0 <= a < r && 0 <= b < r && (a < i || (a == i && b < j)) ::
      0 <= sideIdx[a, b] < v && vs[sideIdx[a, b]] == SidePoint(s, r, a, b)
  }

  /**
   * The six indices of one grid square, read from `sideIdx` and written from
   * `iIndex` on; `vs` is the vertex array, which this loop only reads.
   */
  method EmitSquare(r: nat, s: nat, i: nat, j: nat, sideIdx: array2<int>, indices: array<int>,
                    ghost vs: seq<Point>, v: nat, iIndex: nat)
    requires s < 6 && i + 1 < r && j + 1 < r && v <= |vs|
    requires sideIdx.Length0 == r && sideIdx.Length1 == r && iIndex + 6 <= indices.Length
    requires CellsIndexed(r, s, sideIdx, vs, v, r, 0)
    modifies indices
    ensures indices[..iIndex] == old(indices[..iIndex])
    ensures SquareOk(indices[..], iIndex, vs, v, Corners(s, r, i, j))
  {
    var i1 := sideIdx[i + 0, j + 0];
    var i2 := sideIdx[i + 0, j + 1];
    var i3 := sideIdx[i + 1, j + 0];
    var i4 := sideIdx[i + 1, j + 1];
    indices[iIndex] := i1;
    indices[iIndex + 1] := i3;
    indices[iIndex + 2] := i2;
    indices[iIndex + 3] := i2;
    indices[iIndex + 4] := i3;
    indices[iIndex + 5] := i4;
  }

  /** The index loop over one row of squares of one side. */
  method RowIndices(r: nat, s: nat, i: nat, sideIdx: array2<int>, indices: array<int>, ghost vs: seq<Point>,
                    v: nat, i0: nat)
    returns (iIndex: nat)
    requires r >= 2 && s < 6 && i < r - 1 && v <= |vs|
    requires sideIdx.Length0 == r && sideIdx.Length1 == r && indices.Length == |CubeTriangles(r, 6)|
    requires CellsIndexed(r, s, sideIdx, vs, v, r, 0)
    requires i0 == |Emitted(r, s, i, 0)| && TrianglesOk(indices[..], vs, v, Emitted(r, s, i, 0))
    modifies indices
    ensures iIndex == |Emitted(r, s, i + 1, 0)| && TrianglesOk(indices[..], vs, v, Emitted(r, s, i + 1, 0))
  {
    iIndex := i0;
    for j := 0 to r - 1
      invariant iIndex == |Emitted(r, s, i, j)| && TrianglesOk(indices[..], vs, v, Emitted(r, s, i, j))
    {
      EmittedStep(r, s, i, j);
      ghost var before := indices[..];
      EmitSquare(r, s, i, j, sideIdx, indices, vs, v, iIndex);
      SquareStep(r, s, i, j, before, indices[..], vs, v, iIndex);
      iIndex := iIndex + 6;
    }
    EmittedRowDone(r, s, i);
  }

  /** The index loop over one side: six indices per grid square. */
  method SideIndices(r: nat, s: nat, sideIdx: array2<int>, indices: array<int>, ghost vs: seq<Point>, v: nat, i0: nat)
    returns (iIndex: nat)
    requires r >= 2 && s < 6 && v <= |vs|
    requires sideIdx.Length0 == r && sideIdx.Length1 == r && indices.Length == |CubeTriangles(r, 6)|
    requires CellsIndexed(r, s, sideIdx, vs, v, r, 0)
    requires i0 == |CubeTriangles(r, s)| && TrianglesOk(indices[..], vs, v, CubeTriangles(r, s))
    modifies indices
    ensures iIndex == |CubeTriangles(r, s + 1)| && TrianglesOk(indices[..], vs, v, CubeTriangles(r, s + 1))
  {
    iIndex := i0;
    EmittedSideDone(r, s);
    for i := 0 to r - 1
      invariant iIndex == |Emitted(r, s, i, 0)| && TrianglesOk(indices[..], vs, v, Emitted(r, s, i, 0))
    {
      iIndex := RowIndices(r, s, i, sideIdx, indices, vs, v, iIndex);
    }
  }

  /**
   * construct_cube on the integer grid: the vertex array holds every point of
   * the cube's surface exactly once, and the index array holds, through the
   * vertex array, the corners of every grid square of every side in order.
   */
  method ConstructCube(r: nat) returns (indices: array<int>, vertices: array<Point>)
    requires r >= 2
    ensures vertices.Length == VertexCount(r) && indices.Length == 3 * TriangleCount(r)
    ensures forall a, b | 0 <= a < b < vertices.Length :: vertices[a] != vertices[b]
    ensures forall p :: p in vertices[..] <==> OnSurface(r, p)
    ensures |CubeTriangles(r, 6)| == indices.Length
    ensures forall k | 0 <= k < indices.Length ::
              0 <= indices[k] < vertices.Length && vertices[indices[k]] == CubeTriangles(r, 6)[k]
  {
    FreshTotal(r);
    TriangleListLength(r);
    var vertexCount := 6 * r * r - 12 * r + 8;
    var triangleCount := 6 * 2 * (r - 1) * (r - 1);
    vertices := new Point[vertexCount];
    indices := new int[3 * triangleCount];
    var v: nat := 0;
    var iIndex: nat := 0;
    var dict: map<Point, int> := map[];
    ghost var pos: map<Point, int> := map[];
    var sideIdx := new int[r, r];
    for s := 0 to 6
      invariant VertsOk(r, s, 0, 0, vertices[..], v, dict, pos)
      invariant iIndex == |CubeTriangles(r, s)| && TrianglesOk(indices[..], vertices[..], v, CubeTriangles(r, s))
    {
      ghost var vs0 := vertices[..];
      ghost var v0 := v;
      v, dict, pos := SideVertices(r, s, vertices, sideIdx, v, dict, pos);
      TrianglesFrame(indices[..], vs0, vertices[..], v0, v, CubeTriangles(r, s));
      iIndex := SideIndices(r, s, sideIdx, indices, vertices[..], v, iIndex);
    }
    forall a, b | 0 <= a < b < vertices.Length ensures vertices[a] != vertices[b] {
      assert vertices[..][a] in pos && vertices[..][b] in pos;
    }
    forall p ensures p in vertices[..] <==> OnSurface(r, p) {
      if InCube(r, p) {
        SeenAllIsSurface(r, p);
      }
      if p in pos {
        assert vertices[..][pos[p]] == p;
      }
    }
  }

  // ---------------------------------------------------------------------------
  // Properties of the triangle list

  /** Every point of `qs` lies on the cube's surface. */
  ghost predicate AllOnSurface(r: nat, qs: seq<Point>)
  {
    forall k | 0 <= k < |qs| :: OnSurface(r, qs[k])
  }

  lemma AppendOnSurface(r: nat, a: seq<Point>, b: seq<Point>)
    requires AllOnSurface(r, a) && AllOnSurface(r, b)
    ensures AllOnSurface(r, a + b)
  {
    forall k | 0 <= k < |a + b| ensures OnSurface(r, (a + b)[k]) {
      if k >= |a| {
        assert (a + b)[k] == b[k - |a|];
      }
    }
  }

  lemma SidePointOnSurface(s: nat, r: nat, i: int, j: int)
    requires s < 6 && r >= 2 && 0 <= i < r && 0 <= j < r
    ensures OnSurface(r, SidePoint(s, r, i, j))
  {
  }

  lemma CornersOnSurface(r: nat, s: nat, i: nat, j: nat)
    requires r >= 2 && s < 6 && i < r - 1 && j < r - 1
    ensures AllOnSurface(r, Corners(s, r, i, j))
  {
    SidePointOnSurface(s, r, i, j);
    SidePointOnSurface(s, r, i + 1, j);
    SidePointOnSurface(s, r, i, j + 1);
    SidePointOnSurface(s, r, i + 1, j + 1);
    SquareOnSurface(r, SidePoint(s, r, i, j), SidePoint(s, r, i + 1, j), SidePoint(s, r, i, j + 1),
                    SidePoint(s, r, i + 1, j + 1));
  }

  lemma SquareOnSurface(r: nat, p00: Point, p10: Point, p01: Point, p11: Point)
    requires OnSurface(r, p00) && OnSurface(r, p10) && OnSurface(r, p01) && OnSurface(r, p11)
    ensures AllOnSurface(r, [p00, p10, p01, p01, p10, p11])
  {
  }

  lemma {:induction false} RowOnSurface(r: nat, s: nat, i: nat, j: nat)
    requires r >= 2 && s < 6 && i < r - 1 && j <= r - 1
    ensures AllOnSurface(r, QuadRow(s, r, i, j))
  {
    if j > 0 {
      RowOnSurface(r, s, i, j - 1);
      CornersOnSurface(r, s, i, j - 1);
      AppendOnSurface(r, QuadRow(s, r, i, j - 1), Corners(s, r, i, j - 1));
    }
  }

  lemma {:induction false} RowsOnSurface(r: nat, s: nat, i: nat)
    requires r >= 2 && s < 6 && i <= r - 1
    ensures AllOnSurface(r, QuadRows(s, r, i))
  {
    if i > 0 {
      RowsOnSurface(r, s, i - 1);
      RowOnSurface(r, s, i - 1, r - 1);
      var done, row := QuadRows(s, r, i - 1), QuadRow(s, r, i - 1, r - 1);
      AppendOnSurface(r, done, row);
      assert QuadRows(s, r, i) == done + row;
    }
  }

  /** Every corner the index loop emits is a point of the cube's surface. */
  lemma {:induction false} TrianglesOnSurface(r: nat, n: nat)
    requires r >= 2 && n <= 6
    ensures AllOnSurface(r, CubeTriangles(r, n))
  {
    if n > 0 {
      TrianglesOnSurface(r, n - 1);
      RowsOnSurface(r, n - 1, r - 1);
      AppendOnSurface(r, CubeTriangles(r, n - 1), QuadRows(n - 1, r, r - 1));
    }
  }

  lemma OnSideIsSurface(s: nat, r: nat, p: Point)
    requires s < 6 && InCube(r, p) && OnSide(s, r, p)
    ensures OnSurface(r, p)
  {
  }

  lemma PrefixAppend<T>(c: seq<T>, a: seq<T>, b: seq<T>)
    requires a <= b
    ensures c + a <= c + b
  {
    assert (c + b)[..|c + a|] == c + a;
  }

  lemma PrefixTrans<T>(a: seq<T>, b: seq<T>, c: seq<T>)
    requires a <= b && b <= c
    ensures a <= c
  {
    assert c[..|a|] == c[..|b|][..|a|];
  }

  lemma RowInRows(r: nat, s: nat, i: nat, j: nat)
    requires r >= 2 && s < 6 && i < r - 1 && j < r - 1
    ensures Emitted(r, s, i, j + 1) <= CubeTriangles(r, s) + QuadRows(s, r, i + 1)
  {
    RowPrefix(s, r, i, j + 1, r - 1);
    RowsUnfold(s, r, i);
    ConcatPrefix(CubeTriangles(r, s), QuadRows(s, r, i), QuadRow(s, r, i, j + 1), QuadRow(s, r, i, r - 1),
                 QuadRows(s, r, i + 1));
  }

  lemma ConcatPrefix<T>(ct: seq<T>, done: seq<T>, part: seq<T>, full: seq<T>, total: seq<T>)
    requires part <= full && total == done + full
    ensures ct + done + part <= ct + total
  {
    assert (ct + total)[..|ct + done + part|] == ct + done + part;
  }

  lemma RowsUnfold(s: nat, r: nat, i: nat)
    requires s < 6 && r >= 1
    ensures QuadRows(s, r, i + 1) == QuadRows(s, r, i) + QuadRow(s, r, i, r - 1)
  {
  }

  lemma RowsInSide(r: nat, s: nat, i: nat)
    requires r >= 2 && s < 6 && i < r - 1
    ensures CubeTriangles(r, s) + QuadRows(s, r, i + 1) <= CubeTriangles(r, s + 1)
  {
    RowsPrefix(s, r, i + 1, r - 1);
    PrefixAppend(CubeTriangles(r, s), QuadRows(s, r, i + 1), QuadRows(s, r, r - 1));
  }

  /** What has been emitted when square (i, j) of side `s` is reached, followed by its corners, begins the sides before `n`. */
  lemma SquareInPrefix(r: nat, n: nat, s: nat, i: nat, j: nat)
    requires r >= 2 && s < n <= 6 && i < r - 1 && j < r - 1
    ensures Emitted(r, s, i, j) + Corners(s, r, i, j) <= CubeTriangles(r, n)
  {
    ENext(r, s, i, j);
    RowInRows(r, s, i, j);
    RowsInSide(r, s, i);
    SidesPrefix(r, s + 1, n);
    PrefixTrans(Emitted(r, s, i, j + 1), CubeTriangles(r, s) + QuadRows(s, r, i + 1), CubeTriangles(r, s + 1));
    PrefixTrans(Emitted(r, s, i, j + 1), CubeTriangles(r, s + 1), CubeTriangles(r, n));
  }

  /** The length of what has been emitted when square (i, j) of side `s` is reached. */
  lemma EmittedLength(r: nat, s: nat, i: nat, j: nat)
    requires r >= 2 && s < 6 && i < r - 1 && j < r - 1
    ensures |Emitted(r, s, i, j)| == 6 * ((s * (r - 1) + i) * (r - 1) + j)
  {
    CubeTrianglesLength(r, s);
    QuadRowsLength(s, r, i);
    assert |QuadRow(s, r, i, j)| == 6 * j;
    Offset(r - 1, s, i, j);
  }

  lemma QuadAtIn(r: nat, n: nat, s: nat, i: nat, j: nat)
    requires r >= 2 && s < n <= 6 && i < r - 1 && j < r - 1
    ensures var o := |Emitted(r, s, i, j)|;
            o + 6 <= |CubeTriangles(r, n)| && CubeTriangles(r, n)[o..o + 6] == Corners(s, r, i, j)
  {
    SquareInPrefix(r, n, s, i, j);
    var e, c, all := Emitted(r, s, i, j), Corners(s, r, i, j), CubeTriangles(r, n);
    assert all[..|e| + 6] == e + c;
    assert all[|e|..|e| + 6] == (e + c)[|e|..];
  }

  /**
   * The square (i, j) of side `s` emits its six corners at offset
   * 6((s(r-1) + i)(r-1) + j): bottom left, top left, bottom right, bottom
   * right, top left, top right.
   */
  lemma QuadAt(r: nat, s: nat, i: nat, j: nat)
    requires r >= 2 && s < 6 && i < r - 1 && j < r - 1
    ensures var o := 6 * ((s * (r - 1) + i) * (r - 1) + j);
            0 <= o && o + 6 <= |CubeTriangles(r, 6)| && CubeTriangles(r, 6)[o..o + 6] == Corners(s, r, i, j)
  {
    QuadAtIn(r, 6, s, i, j);
    EmittedLength(r, s, i, j);
  }

  lemma Offset(m: nat, s: nat, i: nat, j: nat)
    ensures s * (6 * m * m) + i * (6 * m) + 6 * j == 6 * ((s * m + i) * m + j)
  {
  }
}
