/**
 * The fixed screen and grid geometry of the game and the two converters
 * between pixel coordinates and grid cells.
 */
module Coordinates {

  const ScreenWidth: int := 640
  const ScreenHeight: int := 512
  const GridWidth: int := 20
  const GridHeight: int := 16
  const CellWidth: int := ScreenWidth / GridWidth
  const CellHeight: int := ScreenHeight / GridHeight

  /** A pixel position on the window (x to the right, y downwards). */
  datatype Pixel = Pixel(x: int, y: int)

  /** A grid cell, by column and row. */
  datatype Cell = Cell(col: int, row: int)

  predicate OnScreen(p: Pixel) {
    0 <= p.x < ScreenWidth && 0 <= p.y < ScreenHeight
  }

  predicate InGrid(c: Cell) {
    0 <= c.col < GridWidth && 0 <= c.row < GridHeight
  }

  /** The pixels of the CellWidth x CellHeight box whose top-left corner is the corner of c. */
  predicate InCellBox(p: Pixel, c: Cell) {
    c.col * CellWidth <= p.x < c.col * CellWidth + CellWidth &&
    c.row * CellHeight <= p.y < c.row * CellHeight + CellHeight
  }

  /**
   * The quotient a/b rounded toward zero, which is what Python's int()
   * does with the quotient of a true division.
   */
  function TruncDiv(a: int, b: int): (q: int)
    requires b > 0
    ensures 0 <= a ==> 0 <= q
    ensures a < 0 ==> q <= 0
  {
    if 0 <= a then a / b else -((-a) / b)
  }

  /** The grid cell under a pixel: x / ScreenWidth * GridWidth, truncated, and the same for y. */
  function ScreenToGridPoint(p: Pixel): (c: Cell)
    ensures OnScreen(p) ==> InGrid(c)
    ensures 0 <= p.x && 0 <= p.y ==> InCellBox(p, c)
  {
    assert CellWidth == 32 && CellHeight == 32;
    Cell(TruncDiv(p.x * GridWidth, ScreenWidth), TruncDiv(p.y * GridHeight, ScreenHeight))
  }

  /** The pixel at the top-left corner of a cell: col / GridWidth * ScreenWidth, truncated, and the same for row. */
  function GridToScreenPoint(c: Cell): (p: Pixel)
    ensures p == Pixel(c.col * CellWidth, c.row * CellHeight)
    ensures InGrid(c) ==> OnScreen(p)
  {
    Pixel(TruncDiv(c.col * ScreenWidth, GridWidth), TruncDiv(c.row * ScreenHeight, GridHeight))
  }

  /** Converting a cell to its corner pixel and back gives the cell again, for every cell. */
  lemma GridRoundTrip(c: Cell)
    ensures ScreenToGridPoint(GridToScreenPoint(c)) == c
  {
  }

  /**
   * For pixels with non-negative coordinates, a pixel maps to a cell exactly
   * when it lies in that cell's box.
   */
  lemma ScreenToGridPointIffInCellBox(p: Pixel, c: Cell)
    requires 0 <= p.x && 0 <= p.y
    ensures ScreenToGridPoint(p) == c <==> InCellBox(p, c)
  {
    var d := ScreenToGridPoint(p);
    if InCellBox(p, c) {
      assert InCellBox(p, d);
      assert CellWidth == 32 && CellHeight == 32;
      assert d.col == c.col;
      assert d.row == c.row;
    }
  }

  /**
   * Truncation toward zero: every pixel less than one cell to the left of
   * the window maps to column 0, although it lies outside that column's box.
   * Rounding down would give column -1 instead.
   */
  lemma NegativePixelTruncatesToColumnZero(x: int, y: int)
    requires -CellWidth < x < 0 && 0 <= y < ScreenHeight
    ensures ScreenToGridPoint(Pixel(x, y)).col == 0
    ensures !InCellBox(Pixel(x, y), ScreenToGridPoint(Pixel(x, y)))
    ensures (x * GridWidth) / ScreenWidth == -1
  {
  }
}
