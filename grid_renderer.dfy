/**
 * The grid overlay. Drawing is a foreign call, so each drawing routine
 * returns the lines it would draw, in drawing order, as start and end pixels.
 */
module GridRenderer {
  import opened Coordinates

  datatype Line = Line(start: Pixel, end: Pixel)

  /** The full-height vertical line at the left edge of column `column`. */
  function VerticalLine(column: int): Line {
    Line(Pixel(column * CellWidth, 0), Pixel(column * CellWidth, ScreenHeight))
  }

  /** The full-width horizontal line at the top edge of row `row`. */
  function HorizontalLine(row: int): Line {
    Line(Pixel(0, row * CellHeight), Pixel(ScreenWidth, row * CellHeight))
  }

  /**
   * A line whose two ends lie in the closed rectangle of the canvas, its
   * bottom and right edges (x = ScreenWidth, y = ScreenHeight) included,
   * although no pixel row or column lies on those edges.
   */
  predicate OnCanvas(l: Line) {
    0 <= l.start.x <= ScreenWidth && 0 <= l.start.y <= ScreenHeight &&
    0 <= l.end.x <= ScreenWidth && 0 <= l.end.y <= ScreenHeight
  }

  /**
   * draw_grid as written: GridWidth vertical lines, then a horizontal
   * line for every row index below GridWidth (not GridHeight).
   */
  method DrawGrid() returns (lines: seq<Line>)
    ensures |lines| == GridWidth + GridWidth
    ensures forall column :: 0 <= column < GridWidth ==> lines[column] == VerticalLine(column)
    ensures forall row :: 0 <= row < GridWidth ==> lines[GridWidth + row] == HorizontalLine(row)
  {
    lines := [];
    for column := 0 to GridWidth
      invariant |lines| == column
      invariant forall k :: 0 <= k < column ==> lines[k] == VerticalLine(k)
    {
      lines := lines + [VerticalLine(column)];
    }
    for row := 0 to GridWidth
      invariant |lines| == GridWidth + row
      invariant forall k :: 0 <= k < GridWidth ==> lines[k] == VerticalLine(k)
      invariant forall k :: 0 <= k < row ==> lines[GridWidth + k] == HorizontalLine(k)
    {
      lines := lines + [HorizontalLine(row)];
    }
  }

  /** The grid lines pass through the corner pixel that GridToScreenPoint gives each cell. */
  lemma LinesMeetCellCorners(c: Cell)
    requires InGrid(c)
    ensures VerticalLine(c.col).start.x == GridToScreenPoint(c).x
    ensures HorizontalLine(c.row).start.y == GridToScreenPoint(c).y
  {
  }

  /**
   * The horizontal lines for rows GridHeight .. GridWidth - 1 that DrawGrid
   * draws lie on or below the bottom edge of the canvas: y is 512 to 608.
   */
  lemma DrawGridExtraRowsOffCanvas(row: int)
    requires GridHeight <= row < GridWidth
    ensures HorizontalLine(row).start.y >= ScreenHeight
    ensures row > GridHeight ==> !OnCanvas(HorizontalLine(row))
  {
  }

  /**
   * draw_grid with the horizontal loop over GridHeight, as the grid's
   * dimensions call for: every line lies on the canvas and each one is the
   * top edge of a row of the grid.
   */
  method DrawGridIntended() returns (lines: seq<Line>)
    ensures |lines| == GridWidth + GridHeight
    ensures forall column :: 0 <= column < GridWidth ==> lines[column] == VerticalLine(column)
    ensures forall row :: 0 <= row < GridHeight ==> lines[GridWidth + row] == HorizontalLine(row)
    ensures forall k :: 0 <= k < |lines| ==> OnCanvas(lines[k])
    ensures forall k :: GridWidth <= k < |lines| ==> lines[k].start.y < ScreenHeight
  {
    lines := [];
    for column := 0 to GridWidth
      invariant |lines| == column
      invariant forall k :: 0 <= k < column ==> lines[k] == VerticalLine(k)
    {
      lines := lines + [VerticalLine(column)];
    }
    for row := 0 to GridHeight
      invariant |lines| == GridWidth + row
      invariant forall k :: 0 <= k < GridWidth ==> lines[k] == VerticalLine(k)
      invariant forall k :: 0 <= k < row ==> lines[GridWidth + k] == HorizontalLine(k)
    {
      lines := lines + [HorizontalLine(row)];
    }
    forall k | 0 <= k < |lines|
      ensures OnCanvas(lines[k])
      ensures GridWidth <= k ==> lines[k].start.y < ScreenHeight
    {
      if k < GridWidth {
        VerticalLineOnCanvas(k);
      } else {
        assert lines[k] == HorizontalLine(k - GridWidth);
        HorizontalLineOnCanvas(k - GridWidth);
      }
    }
  }

  lemma VerticalLineOnCanvas(column: int)
    requires 0 <= column < GridWidth
    ensures OnCanvas(VerticalLine(column))
  {
  }

  lemma HorizontalLineOnCanvas(row: int)
    requires 0 <= row < GridHeight
    ensures OnCanvas(HorizontalLine(row)) && HorizontalLine(row).start.y < ScreenHeight
  {
  }
}
