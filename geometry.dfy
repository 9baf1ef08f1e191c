/** Points, centered boxes, the editor's grid and quarter-turn rotation
    (`aabbCollision`, `pointToAABBCollision`, `snapNumberToGrid`, `rotatePoint`). */
module Geometry {

  datatype Point = Point(x: real, y: real)

  /** A box given by its center and its full width and height, the way every level object is. */
  datatype Box = Box(x: real, y: real, width: real, height: real)

  const GridSize: real := 32.0
  const HalfGridSize: real := GridSize * 0.5

  /** `aabbCollision(a, b)`: the open boxes overlap on both axes; touching edges do not count. */
  predicate Overlaps(a: Box, b: Box) {
    && a.x - a.width * 0.5 < b.x + b.width * 0.5
    && a.x + a.width * 0.5 > b.x - b.width * 0.5
    && a.y - a.height * 0.5 < b.y + b.height * 0.5
    && a.y + a.height * 0.5 > b.y - b.height * 0.5
  }

  /** `pointToAABBCollision(point, aabb)`: the point lies strictly inside the box. */
  predicate PointInBox(p: Point, b: Box) {
    && p.x < b.x + b.width * 0.5
    && p.x > b.x - b.width * 0.5
    && p.y < b.y + b.height * 0.5
    && p.y > b.y - b.height * 0.5
  }

  lemma OverlapsSymmetric(a: Box, b: Box)
    ensures Overlaps(a, b) <==> Overlaps(b, a)
  {
  }

  /** Two boxes whose edges only touch (left edge of `b` on the right edge of `a`) do not overlap. */
  lemma TouchingBoxesDoNotOverlap(a: Box, b: Box)
    requires b.x - b.width * 0.5 == a.x + a.width * 0.5
    ensures !Overlaps(a, b) && !Overlaps(b, a)
  {
  }

  /** The boxes of the same size 32 x 32 at distance 32 only touch; at distance 31 they overlap. */
  lemma GridNeighboursTouch()
    ensures !Overlaps(Box(0.0, 0.0, 32.0, 32.0), Box(32.0, 0.0, 32.0, 32.0))
    ensures Overlaps(Box(0.0, 0.0, 32.0, 32.0), Box(31.0, 0.0, 32.0, 32.0))
  {
  }

  /** A point on the boundary of a box is not inside it. */
  lemma BoundaryPointOutside(p: Point, b: Box)
    requires p.x == b.x + b.width * 0.5 || p.x == b.x - b.width * 0.5
          || p.y == b.y + b.height * 0.5 || p.y == b.y - b.height * 0.5
    ensures !PointInBox(p, b)
  {
  }

  /** A zero-size box at `p` overlaps exactly the boxes that strictly contain `p`. */
  lemma ZeroBoxOverlapsIffPointInside(p: Point, b: Box)
    ensures Overlaps(Box(p.x, p.y, 0.0, 0.0), b) <==> PointInBox(p, b)
  {
  }

  function Min(a: real, b: real): real { if a <= b then a else b }
  function Max(a: real, b: real): real { if a <= b then b else a }
  function Abs(a: real): (r: real)
    ensures r >= 0.0 && (r == a || r == -a)
  {
    if a < 0.0 then -a else a
  }

  /** For boxes of positive size, overlapping means sharing an interior point. */
  lemma OverlapsIffCommonPoint(a: Box, b: Box)
    requires a.width > 0.0 && a.height > 0.0 && b.width > 0.0 && b.height > 0.0
    ensures Overlaps(a, b) <==> exists p :: PointInBox(p, a) && PointInBox(p, b)
  {
    if Overlaps(a, b) {
      var left := Max(a.x - a.width * 0.5, b.x - b.width * 0.5);
      var right := Min(a.x + a.width * 0.5, b.x + b.width * 0.5);
      var top := Max(a.y - a.height * 0.5, b.y - b.height * 0.5);
      var bottom := Min(a.y + a.height * 0.5, b.y + b.height * 0.5);
      var p := Point((left + right) * 0.5, (top + bottom) * 0.5);
      assert PointInBox(p, a) && PointInBox(p, b);
    }
  }

  /** The arithmetic behind `SnapNumberToGrid`: bounds ... */
  lemma FloorTimesBounds(num: real, gridSize: real)
    requires gridSize > 0.0
    ensures var r := ((num / gridSize).Floor as real) * gridSize; r <= num < r + gridSize
  {
    var q := num / gridSize;
    var f := q.Floor as real;
    var h := f + 1.0;
    assert q * gridSize == num;
    assert f * gridSize <= q * gridSize;
    assert q < h;
    assert q * gridSize < h * gridSize;
    assert h * gridSize == f * gridSize + gridSize;
    assert num < f * gridSize + gridSize;
  }

  /** ... and the snapped value is a whole multiple of the grid size. */
  lemma FloorTimesMultiple(num: real, gridSize: real, r: real)
    requires gridSize > 0.0 && r == ((num / gridSize).Floor as real) * gridSize
    ensures (r / gridSize).Floor as real == r / gridSize
  {
    var i := (num / gridSize).Floor;
    assert r / gridSize == i as real;
  }

  /** `snapNumberToGrid(num, gridSize)`: the largest multiple of `gridSize` not above `num`. */
  function SnapNumberToGrid(num: real, gridSize: real): (r: real)
    requires gridSize > 0.0
    ensures r <= num < r + gridSize
    ensures (r / gridSize).Floor as real == r / gridSize
  {
    FloorTimesBounds(num, gridSize);
    var r := ((num / gridSize).Floor as real) * gridSize;
    FloorTimesMultiple(num, gridSize, r);
    r
  }

  /** The center of the grid cell containing `m`: `snapNumberToGrid(m, GRID_SIZE) + HALF_GRID_SIZE`. */
  function CellCenter(m: real): (c: real)
    ensures c - HalfGridSize <= m < c + HalfGridSize
    ensures ((c - HalfGridSize) / GridSize).Floor as real == (c - HalfGridSize) / GridSize
  {
    SnapNumberToGrid(m, GridSize) + HalfGridSize
  }

  /** A cell center lies in its own cell. */
  lemma {:induction false} CellCenterIdempotent(m: real)
    ensures CellCenter(CellCenter(m)) == CellCenter(m)
  {
    var c := CellCenter(m);
    var k := (c - HalfGridSize) / GridSize;
    assert c == k * GridSize + HalfGridSize;
    assert c / GridSize == k + 0.5;
    assert (c / GridSize).Floor == k.Floor;
  }

  /** Two coordinates share a cell center exactly when they lie in the same grid column. */
  lemma {:induction false} SameCellCenter(m: real, n: real)
    ensures CellCenter(m) == CellCenter(n) <==> (m / GridSize).Floor == (n / GridSize).Floor
  {
    var fm, fn := (m / GridSize).Floor, (n / GridSize).Floor;
    assert CellCenter(m) == fm as real * GridSize + HalfGridSize;
    assert CellCenter(n) == fn as real * GridSize + HalfGridSize;
  }

  /** A point less than half a cell away from a cell center lies in that cell. */
  lemma {:induction false} NearCenterSameCell(m: real, d: real)
    requires -HalfGridSize <= d < HalfGridSize
    ensures CellCenter(CellCenter(m) + d) == CellCenter(m)
  {
    var k := (m / GridSize).Floor;
    var n := CellCenter(m) + d;
    assert CellCenter(m) == k as real * GridSize + HalfGridSize;
    assert k as real * GridSize <= n < k as real * GridSize + GridSize;
    assert k as real <= n / GridSize < k as real + 1.0;
    assert (n / GridSize).Floor == k;
    SameCellCenter(n, m);
  }

  /** `Math.cos(q * π/2)` and `Math.sin(q * π/2)` without round-off. */
  function CosQuarter(quarterTurns: int): (r: real) {
    match quarterTurns % 4
    case 0 => 1.0
    case 1 => 0.0
    case 2 => -1.0
    case _ => 0.0
  }

  function SinQuarter(quarterTurns: int): (r: real) {
    match quarterTurns % 4
    case 0 => 0.0
    case 1 => 1.0
    case 2 => 0.0
    case _ => -1.0
  }

  function SquaredDistance(p: Point, q: Point): real {
    (p.x - q.x) * (p.x - q.x) + (p.y - q.y) * (p.y - q.y)
  }

  /** `rotatePoint(p.x, p.y, c.x, c.y, quarterTurns * halfPi)`: turns `p` about `c` by a whole
      number of quarter turns, with the source's formula and exact cosines and sines. */
  function RotateQuarter(p: Point, c: Point, quarterTurns: int): (r: Point)
    ensures SquaredDistance(r, c) == SquaredDistance(p, c)
  {
    var dx := p.x - c.x;
    var dy := p.y - c.y;
    var cos := CosQuarter(quarterTurns);
    var sin := SinQuarter(quarterTurns);
    Point(dx * cos - dy * sin + c.x, dx * sin + dy * cos + c.y)
  }

  /** Turning by `a` and then by `b` quarter turns is turning by `a + b`. */
  lemma {:induction false} RotateCompose(p: Point, c: Point, a: int, b: int)
    ensures RotateQuarter(RotateQuarter(p, c, a), c, b) == RotateQuarter(p, c, a + b)
  {
    assert (a + b) % 4 == (a % 4 + b % 4) % 4;
  }

  /** Four quarter turns give the point back; the center never moves. */
  lemma RotateFullTurn(p: Point, c: Point, q: int)
    ensures RotateQuarter(p, c, q + 4) == RotateQuarter(p, c, q)
    ensures RotateQuarter(c, c, q) == c
  {
    assert (q + 4) % 4 == q % 4;
  }

  /** A vertical offset `d` below the center turns, quarter by quarter, to the left, above and to
      the right of it (y grows downwards on the canvas). */
  lemma RotateVerticalOffset(c: Point, d: real, q: int)
    ensures var r := RotateQuarter(Point(c.x, c.y + d), c, q);
      && (q % 4 == 0 ==> r == Point(c.x, c.y + d))
      && (q % 4 == 1 ==> r == Point(c.x - d, c.y))
      && (q % 4 == 2 ==> r == Point(c.x, c.y - d))
      && (q % 4 == 3 ==> r == Point(c.x + d, c.y))
  {
  }
}
