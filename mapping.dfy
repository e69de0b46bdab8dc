/**
 * Coordinate mapping of the fire-state view: a cell coordinate relative to the
 * centre of the cell space is clamped to a grid index (scaleX/scaleY with
 * forceXInBounds/forceYInBounds), the index becomes the pixel origin of the cell
 * (drawCellToScale), and the pixel origin is divided back into the index of the
 * stored colour (fillCell).
 */
module Mapping {
  import opened Wrappers
  import opened JavaLang

  /** The colours the view paints with: fire, burned, and the fuel background. */
  datatype Color = Red | Black | Background

  /** One `Graphics.fillRect(x, y, width, height)` with the colour set just before it. */
  datatype Fill = Fill(x: Int32, y: Int32, width: Int32, height: Int32, color: Color)

  /** The fields of the view that the mapping reads. */
  datatype Geometry = Geometry(
    cellSize: Int32,
    width: Int32,       // spaceSize.width
    height: Int32,      // spaceSize.height
    displayGrid: bool,
    agentX: Int32,
    agentY: Int32)

  /** A call `drawCellToScale(cellX, cellY, color)`; the doubles passed always hold ints. */
  datatype DrawRequest = DrawRequest(cellX: Int32, cellY: Int32, color: Color)

  /** xCellspaceDim and yCellspaceDim. */
  const CellspaceDim: Int32 := 200
  /** x_cellDisplaySize, the cell size createGridView installs. */
  const CellDisplaySize: Int32 := 3
  /** xRange and yRange once createGridView has run: 200 cells of 3 pixels. */
  const SpaceDisplaySize: Int32 := 600
  /** The geometry createGridView leaves: 3-pixel cells, 200 x 200 cells, no agent. */
  const DefaultGeometry: Geometry := Geometry(3, 200, 200, false, -1, -1)

  /** `v` limited to `lo..hi`: the mathematical statement of clamping. */
  function Clamp(v: int, lo: int, hi: int): int
    requires lo <= hi
  {
    if v < lo then lo else if v > hi then hi else v
  }

  /** forceXInBounds / forceYInBounds. */
  function ForceInBounds(v: Int32, dim: Int32): (r: Int32)
    ensures dim >= 1 ==> 0 <= r < dim
    ensures 0 <= v < dim ==> r == v
    ensures dim >= 1 && v < 0 ==> r == 0
    ensures dim >= 1 && v >= dim ==> r == dim - 1
  {
    var a := if v < 0 then 0 else v;
    if a >= dim then Wrap32(dim - 1) else a
  }

  /** `(int) Math.rint(dim / 2.0)`: the integer nearest half of `dim`, ties to even. */
  function Center(dim: Int32): (r: Int32)
    ensures -1 <= 2 * r - dim <= 1
    ensures 2 * r != dim ==> r % 2 == 0
  {
    if dim % 2 == 0 then dim / 2
    else if (dim / 2) % 2 == 0 then dim / 2
    else dim / 2 + 1
  }

  /** scaleX(x), for a double that holds the integer `x`. */
  function ScaleX(g: Geometry, x: int): Int32 {
    ForceInBounds(Wrap32(Center(g.width) + SatInt32(x)), g.width)
  }

  /** scaleY(y), for a double that holds the integer `y`. */
  function ScaleY(g: Geometry, y: int): Int32 {
    ForceInBounds(Wrap32(Center(g.height) + SatInt32(y)), g.height)
  }

  /** `index * cellSize + 1` in `int` arithmetic: the pixel origin of a cell. */
  function Origin(g: Geometry, index: int): Int32 {
    Wrap32(Wrap32(index * g.cellSize) + 1)
  }

  /** The pixel location drawCellToScale computes; y is negated before scaling. */
  function Pixel(g: Geometry, r: DrawRequest): (Int32, Int32) {
    (Origin(g, ScaleX(g, r.cellX)), Origin(g, ScaleY(g, -(r.cellY as int))))
  }

  /** The agent check of drawCellToScale: the request only remembers its colour. */
  predicate Intercepted(g: Geometry, r: DrawRequest) {
    Pixel(g, r) == (g.agentX, g.agentY)
  }

  /** Width and height of a filled rectangle. */
  function FillSize(g: Geometry): Int32 {
    if g.displayGrid then Wrap32(g.cellSize - 1) else g.cellSize
  }

  /** The rectangle fillCell paints for a pixel origin. */
  function FillAt(g: Geometry, px: Int32, py: Int32, c: Color): Fill {
    Fill(px, py, FillSize(g), FillSize(g), c)
  }

  /**
   * The grid entry fillCell writes for a pixel origin: `(px / cellSize, py / cellSize)`,
   * or None when the division or the array access would throw.
   */
  function StoreIndex(g: Geometry, px: Int32, py: Int32): (r: Option<(int, int)>)
    ensures r.Some? ==> 0 <= r.value.0 < g.width && 0 <= r.value.1 < g.height
  {
    if g.cellSize == 0 then None
    else
      var gx := JavaDiv(px, g.cellSize);
      var gy := JavaDiv(py, g.cellSize);
      if 0 <= gx < g.width && 0 <= gy < g.height then Some((gx, gy)) else None
  }

  /** The grid entry a request ends up writing, if any. */
  function Target(g: Geometry, r: DrawRequest): (t: Option<(int, int)>)
    ensures t.Some? ==> 0 <= t.value.0 < g.width && 0 <= t.value.1 < g.height
  {
    if Intercepted(g, r) then None else StoreIndex(g, Pixel(g, r).0, Pixel(g, r).1)
  }

  // ---------------------------------------------------------------- lemmas

  /** Multiplying by a positive cell size preserves the order of indices. */
  lemma MulMonotone(a: int, b: int, c: int)
    requires 0 <= a <= b && 0 <= c
    ensures a * c <= b * c
  {
    var d := b - a;
    assert b * c == a * c + d * c;
  }

  /** Dividing a pixel origin by a cell size of 2 or more gives back its index. */
  lemma {:induction false} OriginDividesBack(g: Geometry, index: int)
    requires 2 <= g.cellSize
    requires 0 <= index && index * g.cellSize < MaxInt32
    ensures Origin(g, index) == index * g.cellSize + 1
    ensures JavaDiv(Origin(g, index), g.cellSize) == index
  {
    var cs := g.cellSize as int;
    var prod := index * cs;
    assert 0 <= prod < MaxInt32;
    assert Wrap32(prod) == prod;
    var p := prod + 1;
    assert Wrap32(p) == p;
    assert Origin(g, index) == p;
    DivUnique(p, cs, index, 1);
    assert JavaDiv(p as Int32, cs as Int32) == p / cs;
  }

  /** Euclidean division is determined by quotient and remainder. */
  lemma DivUnique(p: int, d: int, q: int, m: int)
    requires 0 < d && 0 <= m < d && p == q * d + m
    ensures p / d == q
  {
    var q' := p / d;
    var m' := p % d;
    assert p == q' * d + m';
    if q' < q {
      MulMonotone(q' + 1, q, d);
    } else if q' > q {
      MulMonotone(q + 1, q', d);
    }
  }

  /** A geometry whose cells fit `SpaceDisplaySize` pixels, as setCellSize leaves it. */
  predicate Consistent(g: Geometry) {
    1 <= g.cellSize && 1 <= g.width && 1 <= g.height &&
    g.width * g.cellSize <= SpaceDisplaySize && g.height * g.cellSize <= SpaceDisplaySize
  }

  /**
   * With cells of 2 pixels or more, a request that is not intercepted writes the
   * grid entry at exactly the scaled index drawCellToScale computed.
   */
  lemma TargetIsScaledIndex(g: Geometry, r: DrawRequest)
    requires Consistent(g) && 2 <= g.cellSize
    requires !Intercepted(g, r)
    ensures Target(g, r) == Some((ScaleX(g, r.cellX), ScaleY(g, -(r.cellY as int))))
  {
    var sx, sy := ScaleX(g, r.cellX), ScaleY(g, -(r.cellY as int));
    IndexFits(g, sx, g.width);
    IndexFits(g, sy, g.height);
    OriginDividesBack(g, sx);
    OriginDividesBack(g, sy);
    assert Pixel(g, r) == (Origin(g, sx), Origin(g, sy));
  }

  /** An index below a dimension that fits the display has a pixel origin in range. */
  lemma IndexFits(g: Geometry, index: int, dim: int)
    requires 1 <= g.cellSize && 0 <= index < dim && dim * g.cellSize <= SpaceDisplaySize
    ensures index * g.cellSize < MaxInt32
  {
    MulMonotone(index, dim, g.cellSize);
  }

  /**
   * With 1-pixel cells the `+ 1` of the pixel origin survives the division: the entry
   * written is one to the right of and one below the scaled index, and a request
   * clamped to the last column writes nothing (the array access would throw).
   */
  lemma OnePixelCellsShift(g: Geometry, r: DrawRequest)
    requires Consistent(g) && g.cellSize == 1
    requires !Intercepted(g, r)
    ensures var sx, sy := ScaleX(g, r.cellX), ScaleY(g, -(r.cellY as int));
      Target(g, r) == if sx + 1 < g.width && sy + 1 < g.height then Some((sx + 1, sy + 1)) else None
  {
  }

  /** No pixel origin of the default geometry is (-1, -1): nothing is intercepted. */
  lemma DefaultNeverIntercepted(r: DrawRequest)
    ensures !Intercepted(DefaultGeometry, r)
  {
    var sx := ScaleX(DefaultGeometry, r.cellX);
    assert Origin(DefaultGeometry, sx) == sx * 3 + 1;
  }

  /** In the default geometry every request writes the entry at its scaled index. */
  lemma DefaultTarget(r: DrawRequest)
    ensures Target(DefaultGeometry, r) ==
      Some((ScaleX(DefaultGeometry, r.cellX), ScaleY(DefaultGeometry, -(r.cellY as int))))
  {
    DefaultNeverIntercepted(r);
    TargetIsScaledIndex(DefaultGeometry, r);
  }

  /**
   * A feed x coordinate `cx` is drawn at `cx - 100` (int arithmetic) and scaled around
   * the centre 100: it lands on column `cx` clamped to 0..199, for every int.
   */
  lemma FeedXPassesThrough(cx: Int32)
    ensures ScaleX(DefaultGeometry, Wrap32(cx - 100)) == Clamp(cx, 0, 199)
  {
    WrapAddWrap(100, cx - 100);
  }

  /**
   * A feed y coordinate `cy` is drawn at `cy - 100`, negated and scaled around 100:
   * it lands on row `200 - cy` clamped to 0..199 (the y axis is flipped), whenever
   * `200 - cy` does not overflow an int.
   */
  lemma FeedYFlips(cy: Int32)
    requires cy >= MinInt32 + 201
    ensures ScaleY(DefaultGeometry, -(Wrap32(cy - 100) as int)) == Clamp(200 - cy, 0, 199)
  {
  }

  /**
   * The flip overflows at the bottom of the int range: each of the 201 lowest y
   * values, which ought to clamp to the last row 199, lands on row 0. Below
   * MinInt32 + 100 the wrap is in `cy - 100`; from there on `-(cy - 100)` is so
   * large that adding the centre 100 wraps.
   */
  lemma ExtremeYWrapsToRowZero(cy: Int32)
    requires cy <= MinInt32 + 200
    ensures ScaleY(DefaultGeometry, -(Wrap32(cy - 100) as int)) == 0
    ensures Clamp(200 - cy, 0, 199) == 199
    ensures Wrap32(cy - 100) != cy - 100 <==> cy < MinInt32 + 100
    ensures cy >= MinInt32 + 100 ==> Center(DefaultGeometry.height) + SatInt32(-(cy - 100)) > MaxInt32
  {
  }

  /** The row the background loop's outer index `i` paints: `y_pos = i - 100`, flipped. */
  function BackgroundRow(i: int): Int32
    requires 0 <= i < CellspaceDim
  {
    ScaleY(DefaultGeometry, -(i - 100))
  }

  /** The column the background loop's inner index `j` paints: `x_pos = j - 100`. */
  function BackgroundColumn(j: int): Int32
    requires 0 <= j < CellspaceDim
  {
    ScaleX(DefaultGeometry, j - 100)
  }

  lemma BackgroundRowValue(i: int)
    requires 0 <= i < CellspaceDim
    ensures BackgroundRow(i) == if i <= 1 then 199 else 200 - i
  {
  }

  lemma BackgroundColumnValue(j: int)
    requires 0 <= j < CellspaceDim
    ensures BackgroundColumn(j) == j
  {
  }

  /**
   * The background loop covers rows 1..199 only: row 199 is painted for i = 0 and
   * again for i = 1, and row 0 is never painted; its inner index passes straight
   * through to the column.
   */
  lemma BackgroundRowsCovered()
    ensures forall i :: 0 <= i < CellspaceDim ==> 1 <= BackgroundRow(i) <= 199
    ensures forall i :: 2 <= i < CellspaceDim ==> BackgroundRow(i) == 200 - i
    ensures BackgroundRow(0) == BackgroundRow(1) == 199
    ensures forall j :: 0 <= j < CellspaceDim ==> BackgroundColumn(j) == j
  {
  }
}
