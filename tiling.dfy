/**
 * Tiling of the watermark over the photo: the column and row counts derived
 * from the image and tile sizes, and the nested loop that pastes one rotated,
 * jittered copy of the tile per grid cell onto a transparent layer.
 *
 * The random draws of each iteration (rotation angle, horizontal and vertical
 * jitter) are supplied by the caller in the order the loop consumes them.
 * Rotation, pasting through the alpha mask, opacity scaling, compositing and
 * encoding are done by the image library; the layer records each paste as a
 * `Placement`.
 */
module Tiling {
  import opened Wrappers
  import opened Palette
  import opened TextWatermark

  /** The photo's size and the tile's size. */
  datatype Grid = Grid(width: nat, height: nat, tileWidth: nat, tileHeight: nat)

  /** The grid counts can be computed: neither integer division is by zero. */
  predicate Defined(g: Grid)
  {
    g.tileWidth > 0 && g.tileHeight > 0
  }

  /** The loop's column bound: columns -1 .. Cols(g) - 1 are visited. */
  function Cols(g: Grid): nat
    requires Defined(g)
  {
    g.width / g.tileWidth + 2
  }

  /** The loop's row bound: rows -1 .. Rows(g) - 1 are visited. */
  function Rows(g: Grid): nat
    requires Defined(g)
  {
    g.height / g.tileHeight + 2
  }

  /** Number of cells the loop visits. */
  function CellCount(g: Grid): nat
    requires Defined(g)
  {
    (Cols(g) + 1) * (Rows(g) + 1)
  }

  /** Largest rotation, in degrees, either way. */
  const MaxAngle: int := 45

  /** Lower end of the jitter range for a tile dimension: the floor of minus a quarter. */
  function JitterLow(size: nat): int
  {
    -(size as int) / 4
  }

  /** Upper end of the jitter range for a tile dimension: the floor of a quarter. */
  function JitterHigh(size: nat): int
  {
    size / 4
  }

  /** The three random draws of one iteration, in the order they are made. */
  datatype Draw = Draw(angle: int, dx: int, dy: int)

  /** The draws an inclusive random integer in each range can produce. */
  predicate DrawFits(g: Grid, d: Draw)
  {
    -MaxAngle <= d.angle <= MaxAngle &&
    JitterLow(g.tileWidth) <= d.dx <= JitterHigh(g.tileWidth) &&
    JitterLow(g.tileHeight) <= d.dy <= JitterHigh(g.tileHeight)
  }

  /** One draw per cell, each within its ranges. */
  predicate DrawsFit(g: Grid, draws: seq<Draw>)
    requires Defined(g)
  {
    |draws| == CellCount(g) && forall k :: 0 <= k < |draws| ==> DrawFits(g, draws[k])
  }

  /** One paste onto the layer: the cell, the rotation and the top-left corner. */
  datatype Placement = Placement(i: int, j: int, angle: int, x: int, y: int)

  /** The paste for cell (i, j): its nominal corner moved by the draw's jitter. */
  function Place(g: Grid, i: int, j: int, d: Draw): Placement
  {
    Placement(i, j, d.angle, i * g.tileWidth + d.dx, j * g.tileHeight + d.dy)
  }

  /** Position of cell (i, j) in column-major order. */
  function CellIndex(g: Grid, i: int, j: int): int
    requires Defined(g)
  {
    (i + 1) * (Rows(g) + 1) + (j + 1)
  }

  /** The column of the k-th cell in column-major order. */
  function CellCol(g: Grid, k: int): int
    requires Defined(g)
  {
    k / (Rows(g) + 1) - 1
  }

  /** The row of the k-th cell in column-major order. */
  function CellRow(g: Grid, k: int): int
    requires Defined(g)
  {
    k % (Rows(g) + 1) - 1
  }

  /** Cell (i, j) is one the loop visits. */
  predicate InGrid(g: Grid, i: int, j: int)
    requires Defined(g)
  {
    -1 <= i < Cols(g) && -1 <= j < Rows(g)
  }

  /** The pastes of the whole grid, the k-th made with the k-th draw. */
  function Plan(g: Grid, draws: seq<Draw>): seq<Placement>
    requires Defined(g) && |draws| == CellCount(g)
  {
    seq(CellCount(g), k requires 0 <= k < CellCount(g) => Place(g, CellCol(g, k), CellRow(g, k), draws[k]))
  }

  /** The product of two non-negative integers is non-negative. */
  lemma {:induction false} MulNonNegative(x: int, y: int)
    requires x >= 0 && y >= 0
    ensures x * y >= 0
  {
    if x > 0 {
      MulNonNegative(x - 1, y);
      assert x * y == (x - 1) * y + y;
    }
  }

  /** Multiplying by a positive number keeps the order of integers. */
  lemma MulMonotone(a: int, b: int, n: int)
    requires n > 0
    ensures a < b <==> a * n < b * n
  {
    var d := b - a;
    assert b * n == a * n + d * n;
    if d > 0 {
      MulNonNegative(d - 1, n);
      assert d * n == (d - 1) * n + n;
    } else {
      MulNonNegative(-d, n);
      assert (-d) * n == -(d * n);
    }
  }

  /** Euclidean division recovers quotient and remainder. */
  lemma DivModOf(q: int, r: int, n: int)
    requires n > 0 && 0 <= r < n
    ensures (q * n + r) / n == q && (q * n + r) % n == r
  {
    var a := q * n + r;
    var q', r' := a / n, a % n;
    assert a == q' * n + r';
    assert (q + 1) * n == q * n + n;
    assert (q' + 1) * n == q' * n + n;
    MulMonotone(q', q + 1, n);
    MulMonotone(q, q' + 1, n);
  }

  /** Cells and column-major positions correspond one to one. */
  lemma {:induction false} CellIndexInverse(g: Grid, i: int, j: int)
    requires Defined(g) && InGrid(g, i, j)
    ensures 0 <= CellIndex(g, i, j) < CellCount(g)
    ensures CellCol(g, CellIndex(g, i, j)) == i && CellRow(g, CellIndex(g, i, j)) == j
  {
    var n := Rows(g) + 1;
    DivModOf(i + 1, j + 1, n);
    assert (i + 1) * n <= Cols(g) * n;
    assert CellIndex(g, i, j) < (i + 1) * n + n == (i + 2) * n;
    assert (i + 2) * n <= (Cols(g) + 1) * n;
  }

  /** Every column-major position below the cell count is a cell of the grid. */
  lemma {:induction false} CellOfIndex(g: Grid, k: int)
    requires Defined(g) && 0 <= k < CellCount(g)
    ensures InGrid(g, CellCol(g, k), CellRow(g, k))
    ensures CellIndex(g, CellCol(g, k), CellRow(g, k)) == k
  {
    var n := Rows(g) + 1;
    var q, r := k / n, k % n;
    assert k == q * n + r;
    MulMonotone(q, Cols(g) + 1, n);
  }

  /**
   * The plan holds exactly one paste per cell of the grid: the k-th paste is
   * for a cell of the grid, and cell (i, j) is pasted as the
   * CellIndex(g, i, j)-th, with its draw.
   */
  lemma PlanCells(g: Grid, draws: seq<Draw>)
    requires Defined(g) && |draws| == CellCount(g)
    ensures |Plan(g, draws)| == (Cols(g) + 1) * (Rows(g) + 1)
    ensures forall k :: 0 <= k < |Plan(g, draws)| ==> InGrid(g, Plan(g, draws)[k].i, Plan(g, draws)[k].j)
    ensures forall i, j :: InGrid(g, i, j) ==>
      0 <= CellIndex(g, i, j) < |Plan(g, draws)| &&
      Plan(g, draws)[CellIndex(g, i, j)] == Place(g, i, j, draws[CellIndex(g, i, j)])
  {
    forall k | 0 <= k < |Plan(g, draws)|
      ensures InGrid(g, Plan(g, draws)[k].i, Plan(g, draws)[k].j)
    {
      CellOfIndex(g, k);
    }
    forall i, j | InGrid(g, i, j)
      ensures 0 <= CellIndex(g, i, j) < |Plan(g, draws)|
      ensures Plan(g, draws)[CellIndex(g, i, j)] == Place(g, i, j, draws[CellIndex(g, i, j)])
    {
      CellIndexInverse(g, i, j);
    }
  }

  /** Pastes come column by column, each column from the top row down. */
  lemma PlanColumnMajor(g: Grid, draws: seq<Draw>, k1: int, k2: int)
    requires Defined(g) && |draws| == CellCount(g)
    requires 0 <= k1 < k2 < CellCount(g)
    ensures var p := Plan(g, draws);
      p[k1].i < p[k2].i || (p[k1].i == p[k2].i && p[k1].j < p[k2].j)
  {
    var n := Rows(g) + 1;
    var p := Plan(g, draws);
    var q1, q2 := k1 / n, k2 / n;
    assert k1 == q1 * n + k1 % n;
    assert k2 == q2 * n + k2 % n;
    assert (q2 + 1) * n == q2 * n + n;
    MulMonotone(q1, q2 + 1, n);
  }

  /** Every angle and every jittered corner stays within the ranges the draws are taken from. */
  lemma PlanWithinBounds(g: Grid, draws: seq<Draw>)
    requires Defined(g) && DrawsFit(g, draws)
    ensures forall k :: 0 <= k < |Plan(g, draws)| ==>
      var p := Plan(g, draws)[k];
      -MaxAngle <= p.angle <= MaxAngle &&
      p.i * g.tileWidth + JitterLow(g.tileWidth) <= p.x <= p.i * g.tileWidth + JitterHigh(g.tileWidth) &&
      p.j * g.tileHeight + JitterLow(g.tileHeight) <= p.y <= p.j * g.tileHeight + JitterHigh(g.tileHeight)
  {
  }

  /**
   * Both ends of a jitter range are integer, the range is never empty, and it
   * is symmetric exactly when the dimension is a multiple of four; otherwise
   * it reaches one pixel further towards the top-left.
   */
  lemma JitterRange(size: nat)
    ensures JitterLow(size) <= 0 <= JitterHigh(size)
    ensures size % 4 == 0 ==> JitterLow(size) == -JitterHigh(size)
    ensures size % 4 != 0 ==> JitterLow(size) == -JitterHigh(size) - 1
  {
    var q, r := size / 4, size % 4;
    assert size == 4 * q + r;
    if r == 0 {
      DivModOf(-q, 0, 4);
    } else {
      DivModOf(-q - 1, 4 - r, 4);
    }
  }

  /** Some interval [i * step, (i + 1) * step), for i from -1 to size / step + 1, holds x. */
  lemma CoveringInterval(size: nat, step: nat, x: int) returns (i: int)
    requires step > 0 && 0 <= x < size
    ensures -1 <= i < size / step + 2
    ensures i * step <= x < (i + 1) * step
  {
    i := x / step;
    var q := size / step;
    assert x == i * step + x % step;
    assert size == q * step + size % step;
    assert (q + 1) * step == q * step + step;
    MulMonotone(i, q + 1, step);
  }

  /** Every pixel of the photo lies in the nominal (unjittered, unrotated) tile of some paste. */
  lemma PlanCoversImage(g: Grid, draws: seq<Draw>, x: int, y: int)
    requires Defined(g) && |draws| == CellCount(g)
    requires 0 <= x < g.width && 0 <= y < g.height
    ensures exists k :: (0 <= k < |Plan(g, draws)| &&
      Plan(g, draws)[k].i * g.tileWidth <= x < (Plan(g, draws)[k].i + 1) * g.tileWidth &&
      Plan(g, draws)[k].j * g.tileHeight <= y < (Plan(g, draws)[k].j + 1) * g.tileHeight)
  {
    var i := CoveringInterval(g.width, g.tileWidth, x);
    var j := CoveringInterval(g.height, g.tileHeight, y);
    CellIndexInverse(g, i, j);
    var k := CellIndex(g, i, j);
    assert Plan(g, draws)[k].i == i && Plan(g, draws)[k].j == j;
  }

  /**
   * The grid overshoots at the far edges: the nominal tiles of the last
   * column and the last row start beyond the photo.
   */
  lemma GridMargin(g: Grid)
    requires Defined(g)
    ensures (Cols(g) - 1) * g.tileWidth > g.width
    ensures (Rows(g) - 1) * g.tileHeight > g.height
  {
    var w, h := g.tileWidth, g.tileHeight;
    assert g.width == (g.width / w) * w + g.width % w;
    assert (Cols(g) - 1) * w == (g.width / w) * w + w;
    assert g.height == (g.height / h) * h + g.height % h;
    assert (Rows(g) - 1) * h == (g.height / h) * h + h;
  }

  /**
   * The transparent layer the size of the photo, with the pastes made on it;
   * `stamp` holds the drawing calls of the tile image that every paste copies.
   */
  class WatermarkLayer {
    const width: nat
    const height: nat
    const stamp: seq<Stroke>
    var pastes: seq<Placement>

    constructor (w: nat, h: nat, tile: seq<Stroke>)
      ensures width == w && height == h && stamp == tile && pastes == []
    {
      width, height, stamp := w, h, tile;
      pastes := [];
    }

    /** Pastes the rotated tile at the placement's corner, through its own alpha. */
    method Paste(p: Placement)
      modifies this
      ensures pastes == old(pastes) + [p]
    {
      pastes := pastes + [p];
    }
  }

  /**
   * The nested loop over columns -1 .. Cols - 1 and, inside, rows
   * -1 .. Rows - 1: one paste per cell, consuming the draws in order.
   */
  method PlaceTiles(layer: WatermarkLayer, g: Grid, draws: seq<Draw>)
    requires Defined(g) && DrawsFit(g, draws)
    modifies layer
    ensures layer.pastes == old(layer.pastes) + Plan(g, draws)
  {
    var cols := g.width / g.tileWidth + 2;
    var rows := g.height / g.tileHeight + 2;
    ghost var start := layer.pastes;
    ghost var plan := Plan(g, draws);
    // How many draws the random source has handed out so far.
    var n := 0;
    var i := -1;
    while i < cols
      invariant -1 <= i <= cols
      invariant n == (i + 1) * (rows + 1) && n <= |plan|
      invariant layer.pastes == start + plan[..n]
    {
      var j := -1;
      while j < rows
        invariant -1 <= j <= rows
        invariant n == (i + 1) * (rows + 1) + (j + 1) && n <= |plan|
        invariant layer.pastes == start + plan[..n]
      {
        CellIndexInverse(g, i, j);
        assert n == CellIndex(g, i, j);
        assert plan[n] == Place(g, i, j, draws[n]);
        var d := draws[n];
        var angle := d.angle;
        var posX := i * g.tileWidth + d.dx;
        var posY := j * g.tileHeight + d.dy;
        layer.Paste(Placement(i, j, angle, posX, posY));
        assert plan[..n + 1] == plan[..n] + [plan[n]];
        n := n + 1;
        j := j + 1;
      }
      assert (i + 2) * (rows + 1) == (i + 1) * (rows + 1) + (rows + 1);
      i := i + 1;
    }
    assert plan[..n] == plan;
  }

  /** The grid of a photo for the tile the text box gives, when the tile can be created. */
  function GridFor(width: nat, height: nat, b: BBox): Grid
    requires TileDims(b).Some?
  {
    Grid(width, height, TileDims(b).value.0, TileDims(b).value.1)
  }

  /** Tiling can go ahead: the tile could be created and neither grid division is by zero. */
  predicate Tileable(width: nat, height: nat, b: BBox)
  {
    TileDims(b).Some? && Defined(GridFor(width, height, b))
  }

  /** The random source supplies one in-range draw for every cell the loop visits. */
  predicate DrawsSupplied(width: nat, height: nat, b: BBox, draws: seq<Draw>)
  {
    Tileable(width, height, b) ==> DrawsFit(GridFor(width, height, b), draws)
  }

  /** For the box a font reports, tiling always goes ahead, with at least 3 by 3 cells. */
  lemma WellFormedIsTileable(width: nat, height: nat, b: BBox)
    requires WellFormed(b)
    ensures Tileable(width, height, b)
    ensures Cols(GridFor(width, height, b)) >= 2 && Rows(GridFor(width, height, b)) >= 2
    ensures CellCount(GridFor(width, height, b)) >= 9
  {
    TileDimsWellFormed(b);
    var g := GridFor(width, height, b);
    assert (Cols(g) + 1) * (Rows(g) + 1) >= 3 * (Rows(g) + 1) >= 9;
  }

  /**
   * The watermarking of a photo of the given size, up to the layer of pastes:
   * None on the two arithmetic failures (a tile size the image library
   * refuses, a tile dimension of zero that the grid divides by), otherwise a
   * fresh layer of the photo's size carrying the whole plan.
   */
  method AddWatermark(width: nat, height: nat, b: BBox, fill: RGBA, draws: seq<Draw>)
    returns (layer: Option<WatermarkLayer>)
    requires DrawsSupplied(width, height, b, draws)
    ensures layer.Some? <==> Tileable(width, height, b)
    ensures layer.Some? ==> fresh(layer.value)
    ensures layer.Some? ==> layer.value.width == width && layer.value.height == height
    ensures layer.Some? ==> layer.value.stamp == TextStrokes(b, fill, TextOutlineColor)
    ensures layer.Some? ==> layer.value.pastes == Plan(GridFor(width, height, b), draws)
  {
    var tile := CreateTextWatermark(b, fill, TextOutlineColor);
    if tile.None? {
      return None;
    }
    var l := new WatermarkLayer(width, height, tile.value.strokes);
    var tw, th := tile.value.width, tile.value.height;
    if tw == 0 || th == 0 {
      return None;
    }
    var g := Grid(width, height, tw, th);
    PlaceTiles(l, g, draws);
    layer := Some(l);
  }
}
