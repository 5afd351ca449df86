/**
 * The grid laid over the square canvas: `amountPixels` cells per side,
 * each `pixelSize` canvas pixels wide, and the mapping from a pointer
 * position to the top-left corner of the cell under it.
 */
module Grid {

  /** A point of the canvas, in canvas pixels: x to the right, y down. */
  datatype Position = Position(x: int, y: int)

  /**
   * `Math.floor(width / amountPixels)`: the largest cell size with which
   * amountPixels cells fit into the width.
   */
  function PixelSize(width: nat, amountPixels: nat): (size: nat)
    requires 1 <= amountPixels <= width
    ensures 1 <= size
    ensures size * amountPixels <= width < (size + 1) * amountPixels
  {
    var size := width / amountPixels;
    assert width == size * amountPixels + width % amountPixels;
    assert (size + 1) * amountPixels == size * amountPixels + amountPixels;
    size
  }

  /**
   * createPositionByRowAndCol: the top-left corner of a cell; `row` counts
   * along x and `col` along y. With cells of at least one pixel, the corner
   * lies on the cell boundaries and falls in cell (row, col) again.
   */
  function PositionByRowAndCol(row: int, col: int, pixelSize: nat): (p: Position)
    ensures 1 <= pixelSize ==> p.x % pixelSize == 0 && p.x / pixelSize == row
    ensures 1 <= pixelSize ==> p.y % pixelSize == 0 && p.y / pixelSize == col
  {
    if 1 <= pixelSize then
      DivModUnique(row * pixelSize, pixelSize, row, 0);
      DivModUnique(col * pixelSize, pixelSize, col, 0);
      Position(row * pixelSize, col * pixelSize)
    else
      Position(row * pixelSize, col * pixelSize)
  }

  /**
   * createPositionByMousedown: the top-left corner of the cell under the
   * pointer, a multiple of the cell size at most one cell before the
   * pointer in each direction.
   */
  function PositionByMousedown(x: int, y: int, pixelSize: nat): (p: Position)
    requires 1 <= pixelSize
    ensures p.x % pixelSize == 0 && p.x <= x < p.x + pixelSize
    ensures p.y % pixelSize == 0 && p.y <= y < p.y + pixelSize
  {
    PositionByRowAndCol(x / pixelSize, y / pixelSize, pixelSize)
  }

  /** The corner of the next cell along a row or a column is one cell further. */
  lemma NextCorner(k: int, size: int)
    ensures (k + 1) * size == k * size + size
  {
  }

  lemma MulAtLeast(d: int, size: nat)
    requires d >= 1
    ensures d * size >= size
  {
    assert d * size == (d - 1) * size + size;
  }

  /** Floor division and remainder are the only quotient and remainder in [0, size). */
  lemma DivModUnique(a: int, size: nat, q: int, r: int)
    requires 1 <= size && a == q * size + r && 0 <= r < size
    ensures a / size == q && a % size == r
  {
    var q', r' := a / size, a % size;
    assert a == q' * size + r';
    assert (q - q') * size == r' - r;
    if q > q' {
      MulAtLeast(q - q', size);
    } else if q < q' {
      MulAtLeast(q' - q, size);
    }
  }

  /** The pixels of cell k along one axis are exactly those whose floor division by the cell size is k. */
  lemma CellBounds(p: int, k: int, size: nat)
    requires 1 <= size
    ensures k * size <= p < k * size + size <==> p / size == k
  {
    if k * size <= p < k * size + size {
      DivModUnique(p, size, k, p - k * size);
    }
  }

  /**
   * A pointer anywhere inside a cell maps to that cell's corner: the
   * mapping inverts createPositionByRowAndCol.
   */
  lemma MousedownInCell(row: int, col: int, pixelSize: nat, dx: int, dy: int)
    requires 1 <= pixelSize && 0 <= dx < pixelSize && 0 <= dy < pixelSize
    ensures PositionByMousedown(row * pixelSize + dx, col * pixelSize + dy, pixelSize)
            == PositionByRowAndCol(row, col, pixelSize)
  {
    CellBounds(row * pixelSize + dx, row, pixelSize);
    CellBounds(col * pixelSize + dy, col, pixelSize);
  }

  /** The two grid densities of the widget on a 128-pixel canvas, and a pointer mapped to its cell. */
  lemma GridExample()
    ensures PixelSize(128, 4) == 32 && PixelSize(128, 32) == 4
    ensures PositionByMousedown(33, 65, 32) == Position(32, 64) == PositionByRowAndCol(1, 2, 32)
  {
  }
}
