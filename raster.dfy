/** FrameRasterizer: one glyph draw per grid cell, in row-major order, each at
    the top-left corner of its own cell-sized block of the output frame. */
module Raster {
  import opened Common
  import opened Arith
  import opened Color
  import opened Glyphs
  import opened Geometry

  /** One downsampled frame: the grey levels (`gray`) and the BGR samples
      (`small`), both indexed [row][column]. */
  datatype Grid = Grid(grey: seq<seq<byte>>, bgr: seq<seq<Bgr>>)

  /** The grid has the plan's gridH rows of gridW cells, as cv2.resize makes it. */
  predicate Fits(grid: Grid, plan: Plan)
  {
    && |grid.grey| == plan.gridH && |grid.bgr| == plan.gridH
    && (forall y :: 0 <= y < |grid.grey| ==> |grid.grey[y]| == plan.gridW)
    && (forall y :: 0 <= y < |grid.bgr| ==> |grid.bgr[y]| == plan.gridW)
  }

  /** One `draw.text((x, y), glyph, fill=color)` call. */
  datatype Draw = Draw(glyph: char, x: int, y: int, fill: Rgb)

  /** The black canvas of the plan's size and the draws made on it. */
  datatype OutFrame = OutFrame(width: int, height: int, draws: seq<Draw>)

  /** The draw for cell (cx, cy). */
  function CellDraw(plan: Plan, mode: ColorMode, grid: Grid, cx: int, cy: int): Draw
    requires Fits(grid, plan)
    requires 0 <= cx < plan.gridW && 0 <= cy < plan.gridH
  {
    Draw(Glyph(grid.grey[cy][cx]), cx * plan.cellW, cy * plan.cellH, FillColor(mode, grid.bgr[cy][cx]))
  }

  /** The draws of row cy, left to right. */
  function RenderRow(plan: Plan, mode: ColorMode, grid: Grid, cy: int): (row: seq<Draw>)
    requires plan.Valid() && Fits(grid, plan)
    requires 0 <= cy < plan.gridH
    ensures |row| == plan.gridW
  {
    seq(plan.gridW, cx requires 0 <= cx < plan.gridW => CellDraw(plan, mode, grid, cx, cy))
  }

  /** The draws of the first `rows` rows, top to bottom. */
  function RenderRows(plan: Plan, mode: ColorMode, grid: Grid, rows: nat): seq<Draw>
    requires plan.Valid() && Fits(grid, plan)
    requires rows <= plan.gridH
  {
    if rows == 0 then []
    else RenderRows(plan, mode, grid, rows - 1) + RenderRow(plan, mode, grid, rows - 1)
  }

  /** Every draw of one frame, in the order the nested loops issue them. */
  function Render(plan: Plan, mode: ColorMode, grid: Grid): seq<Draw>
    requires plan.Valid() && Fits(grid, plan)
  {
    RenderRows(plan, mode, grid, plan.gridH)
  }

  /** The first `rows` rows hold rows * gridW draws, and the draw for cell
      (cx, cy) is number cy * gridW + cx. */
  lemma {:induction false} RenderRowsAt(plan: Plan, mode: ColorMode, grid: Grid, rows: nat, cx: int, cy: int)
    requires plan.Valid() && Fits(grid, plan)
    requires rows <= plan.gridH
    requires 0 <= cx < plan.gridW && 0 <= cy < rows
    ensures |RenderRows(plan, mode, grid, rows)| == rows * plan.gridW
    ensures cy * plan.gridW + cx < rows * plan.gridW
    ensures RenderRows(plan, mode, grid, rows)[cy * plan.gridW + cx] == CellDraw(plan, mode, grid, cx, cy)
  {
    var w := plan.gridW;
    RenderRowsLength(plan, mode, grid, rows - 1);
    RowMajor(cy, cx, w, rows);
    if cy < rows - 1 {
      RenderRowsAt(plan, mode, grid, rows - 1, cx, cy);
    } else {
      assert cy * w + cx == (rows - 1) * w + cx;
    }
  }

  lemma {:induction false} RenderRowsLength(plan: Plan, mode: ColorMode, grid: Grid, rows: nat)
    requires plan.Valid() && Fits(grid, plan)
    requires rows <= plan.gridH
    ensures |RenderRows(plan, mode, grid, rows)| == rows * plan.gridW
  {
    if rows > 0 {
      RenderRowsLength(plan, mode, grid, rows - 1);
      assert rows * plan.gridW == (rows - 1) * plan.gridW + plan.gridW;
    }
  }

  /** Exhaustive and row-major: a frame has exactly gridH * gridW draws and
      the one for cell (cx, cy) is number cy * gridW + cx. */
  lemma RenderAt(plan: Plan, mode: ColorMode, grid: Grid, cx: int, cy: int)
    requires plan.Valid() && Fits(grid, plan)
    requires 0 <= cx < plan.gridW && 0 <= cy < plan.gridH
    ensures |Render(plan, mode, grid)| == plan.gridH * plan.gridW
    ensures cy * plan.gridW + cx < |Render(plan, mode, grid)|
    ensures Render(plan, mode, grid)[cy * plan.gridW + cx] == CellDraw(plan, mode, grid, cx, cy)
  {
    RenderRowsAt(plan, mode, grid, plan.gridH, cx, cy);
  }

  /** Conversely, draw number k belongs to cell (k % gridW, k / gridW). */
  lemma RenderIndex(plan: Plan, mode: ColorMode, grid: Grid, k: int)
    requires plan.Valid() && Fits(grid, plan)
    requires 0 <= k < |Render(plan, mode, grid)|
    ensures 0 <= k % plan.gridW < plan.gridW && 0 <= k / plan.gridW < plan.gridH
    ensures Render(plan, mode, grid)[k] == CellDraw(plan, mode, grid, k % plan.gridW, k / plan.gridW)
  {
    RenderRowsLength(plan, mode, grid, plan.gridH);
    RowMajorInverse(k, plan.gridW, plan.gridH);
    RenderAt(plan, mode, grid, k % plan.gridW, k / plan.gridW);
  }

  /** Pixel (px, py) lies in the cell-sized block whose top-left corner is
      the draw's origin. */
  predicate InBlock(plan: Plan, d: Draw, px: int, py: int)
  {
    d.x <= px < d.x + plan.cellW && d.y <= py < d.y + plan.cellH
  }

  /** Every block lies inside the output frame:
      0 <= x <= outW - cellW and 0 <= y <= outH - cellH. */
  lemma CellInFrame(plan: Plan, mode: ColorMode, grid: Grid, cx: int, cy: int)
    requires plan.Valid() && Fits(grid, plan)
    requires 0 <= cx < plan.gridW && 0 <= cy < plan.gridH
    ensures var d := CellDraw(plan, mode, grid, cx, cy);
      0 <= d.x <= plan.outW - plan.cellW && 0 <= d.y <= plan.outH - plan.cellH
  {
    MulMonotone(cx + 1, plan.gridW, plan.cellW);
    MulMonotone(cy + 1, plan.gridH, plan.cellH);
    MulMonotone(0, cx, plan.cellW);
    MulMonotone(0, cy, plan.cellH);
  }

  /** A pixel inside a cell's block determines that cell. */
  lemma BlockOwner(plan: Plan, mode: ColorMode, grid: Grid, cx: int, cy: int, px: int, py: int)
    requires plan.Valid() && Fits(grid, plan)
    requires 0 <= cx < plan.gridW && 0 <= cy < plan.gridH
    requires InBlock(plan, CellDraw(plan, mode, grid, cx, cy), px, py)
    ensures cx == px / plan.cellW && cy == py / plan.cellH
  {
    DivOfBlock(px, plan.cellW, cx);
    DivOfBlock(py, plan.cellH, cy);
  }

  /** Distinct cells get disjoint blocks. */
  lemma CellsDisjoint(plan: Plan, mode: ColorMode, grid: Grid, cx: int, cy: int, dx: int, dy: int, px: int, py: int)
    requires plan.Valid() && Fits(grid, plan)
    requires 0 <= cx < plan.gridW && 0 <= cy < plan.gridH
    requires 0 <= dx < plan.gridW && 0 <= dy < plan.gridH
    requires (cx, cy) != (dx, dy)
    ensures !(InBlock(plan, CellDraw(plan, mode, grid, cx, cy), px, py)
              && InBlock(plan, CellDraw(plan, mode, grid, dx, dy), px, py))
  {
    if InBlock(plan, CellDraw(plan, mode, grid, cx, cy), px, py) {
      BlockOwner(plan, mode, grid, cx, cy, px, py);
      if InBlock(plan, CellDraw(plan, mode, grid, dx, dy), px, py) {
        BlockOwner(plan, mode, grid, dx, dy, px, py);
      }
    }
  }

  /** The blocks cover the frame: every pixel of the outW x outH frame lies in
      the block of cell (px / cellW, py / cellH). */
  lemma CellsCover(plan: Plan, mode: ColorMode, grid: Grid, px: int, py: int)
    requires plan.Valid() && Fits(grid, plan)
    requires 0 <= px < plan.outW && 0 <= py < plan.outH
    ensures 0 <= px / plan.cellW < plan.gridW && 0 <= py / plan.cellH < plan.gridH
    ensures InBlock(plan, CellDraw(plan, mode, grid, px / plan.cellW, py / plan.cellH), px, py)
  {
    RowMajorInverse(px, plan.cellW, plan.gridW);
    RowMajorInverse(py, plan.cellH, plan.gridH);
  }

  /** Green mode paints every glyph in the accent color. */
  lemma GreenFrameIsMonochrome(plan: Plan, grid: Grid, k: int)
    requires plan.Valid() && Fits(grid, plan)
    requires 0 <= k < |Render(plan, Green, grid)|
    ensures Render(plan, Green, grid)[k].fill == Rgb(0, 255, 0)
  {
    RenderIndex(plan, Green, grid, k);
  }

  /** True-color mode paints cell (cx, cy) in its own sample, reordered to
      RGB, with the glyph its grey level selects. */
  lemma TrueColorCell(plan: Plan, grid: Grid, cx: int, cy: int)
    requires plan.Valid() && Fits(grid, plan)
    requires 0 <= cx < plan.gridW && 0 <= cy < plan.gridH
    ensures cy * plan.gridW + cx < |Render(plan, TrueColor, grid)|
    ensures var d := Render(plan, TrueColor, grid)[cy * plan.gridW + cx];
      && ToBgr(d.fill) == grid.bgr[cy][cx]
      && d.glyph == Ramp[GlyphIndex(grid.grey[cy][cx])]
      && d.x == cx * plan.cellW && d.y == cy * plan.cellH
  {
    RenderAt(plan, TrueColor, grid, cx, cy);
    TrueColorRoundTrip(grid.bgr[cy][cx]);
  }

  /** Every glyph drawn comes from the ramp. */
  lemma GlyphsFromRamp(plan: Plan, mode: ColorMode, grid: Grid, k: int)
    requires plan.Valid() && Fits(grid, plan)
    requires 0 <= k < |Render(plan, mode, grid)|
    ensures Render(plan, mode, grid)[k].glyph in Ramp
  {
    RenderIndex(plan, mode, grid, k);
  }

  /** Lines 89-100: a black canvas and the nested y / x loops that draw one
      glyph per cell. */
  method Rasterize(plan: Plan, mode: ColorMode, grid: Grid) returns (frame: OutFrame)
    requires plan.Valid() && Fits(grid, plan)
    ensures frame == OutFrame(plan.outW, plan.outH, Render(plan, mode, grid))
  {
    var draws: seq<Draw> := [];
    var y := 0;
    while y < plan.gridH
      invariant 0 <= y <= plan.gridH
      invariant draws == RenderRows(plan, mode, grid, y)
    {
      var x := 0;
      while x < plan.gridW
        invariant 0 <= x <= plan.gridW
        invariant draws == RenderRows(plan, mode, grid, y) + RenderRow(plan, mode, grid, y)[..x]
      {
        var glyph := Ramp[GlyphIndex(grid.grey[y][x])];
        var fill := FillColor(mode, grid.bgr[y][x]);
        draws := draws + [Draw(glyph, x * plan.cellW, y * plan.cellH, fill)];
        assert RenderRow(plan, mode, grid, y)[..x + 1]
            == RenderRow(plan, mode, grid, y)[..x] + [RenderRow(plan, mode, grid, y)[x]];
        x := x + 1;
      }
      assert RenderRow(plan, mode, grid, y)[..plan.gridW] == RenderRow(plan, mode, grid, y);
      y := y + 1;
    }
    frame := OutFrame(plan.outW, plan.outH, draws);
  }
}
