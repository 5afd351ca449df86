/**
 * The drawing surface: a square canvas of `width × width` pixels with a
 * grid of `amountPixels × amountPixels` cells over it. It paints a cell,
 * fills or clears the whole canvas, reads a pixel back as hexadecimal text,
 * and captures or repaints the grid as a snapshot of colour texts, which is
 * what the page keeps in its local storage.
 */
module Canvas {
  import opened Wrappers
  import opened ColorConversion
  import opened CanvasColor
  import opened Grid
  import opened ColorHistory

  /** A snapshot as createData builds it and drawByData reads it: rows of colour texts. */
  type Snapshot = seq<seq<string>>

  /** An n × n snapshot of colours written as rgbToHex writes them. */
  predicate IsCanonicalSnapshot(data: Snapshot, n: nat)
  {
    |data| == n &&
    forall i | 0 <= i < n :: |data[i]| == n && forall j | 0 <= j < n :: IsLowerHexColor(data[i][j])
  }

  /**
   * Whether drawByData, with cells of the given size, paints pixel (x, y):
   * the row of the snapshot for the pixel's y has an entry for its x.
   */
  predicate Covers(data: Snapshot, size: nat, x: nat, y: nat)
    requires 1 <= size
  {
    y / size < |data| && x / size < |data[y / size]|
  }

  /** Cell k of n, with n cells of the given size fitting into the width, lies inside the width. */
  lemma CellInside(k: nat, n: nat, size: nat, width: nat)
    requires k < n && size * n <= width
    ensures k * size + size <= width
  {
    MulAtLeast(n - k, size);
    assert n * size == k * size + (n - k) * size;
  }

  class PixelCanvas {
    /** `canvas.width`; the code uses it as the height too, so the canvas is square. */
    const width: nat
    /** The pixels of the canvas: pixels[x, y] is the pixel at column x of row y. */
    const pixels: array2<Rgb>
    /** The `fillStyle` of the canvas's 2D context. */
    var fillStyle: Rgb
    /** The number of grid cells per side. */
    var amountPixels: nat
    /** The side of one grid cell, in canvas pixels. */
    var pixelSize: nat
    /** The colour menu whose current colour the pencil and the fill bucket paint with. */
    const colorMenu: ColorMenu

    /** The pixel buffer covers the square canvas. */
    ghost predicate Shaped()
      reads this
    {
      pixels.Length0 == width && pixels.Length1 == width
    }

    /** The grid fits the canvas and its cells have the size setAmountPixels computes. */
    ghost predicate Valid()
      reads this
    {
      Shaped() && 1 <= amountPixels <= width && pixelSize == PixelSize(width, amountPixels)
    }

    /**
     * The colour a one-pixel getImageData read reports at (x, y): the pixel,
     * or the transparent black that the canvas reports outside itself.
     */
    ghost function ReadPixel(x: int, y: int): Rgb
      reads this, pixels
      requires Shaped()
    {
      if 0 <= x < width && 0 <= y < width then pixels[x, y] else Black
    }

    /** rgbToHex's text for the pixel at the top-left corner of the cell in row i, column j. */
    ghost function CornerHex(i: nat, j: nat): string
      reads this, pixels
      requires Shaped()
    {
      CanonicalHex(ReadPixel(j * pixelSize, i * pixelSize))
    }

    /**
     * data is the snapshot of the grid: one entry per cell, row by row,
     * holding rgbToHex's text for the pixel at the cell's top-left corner.
     */
    ghost predicate Captures(data: Snapshot)
      reads this, pixels
      requires Shaped()
    {
      |data| == amountPixels &&
      forall i | 0 <= i < amountPixels ::
        |data[i]| == amountPixels &&
        forall j | 0 <= j < amountPixels ::
          data[i][j] == CornerHex(i, j)
    }

    /** The snapshot of a grid is unique. */
    lemma CapturedOnce(data1: Snapshot, data2: Snapshot)
      requires Shaped() && Captures(data1) && Captures(data2)
      ensures data1 == data2
    {
      forall i | 0 <= i < |data1| ensures data1[i] == data2[i] {
        assert |data1[i]| == |data2[i]|;
      }
    }

    /**
     * The pixels show the snapshot drawn over a white canvas from a white
     * fill style: a pixel of a cell the snapshot has an entry for is in that
     * cell's style, every other pixel is white.
     */
    ghost predicate ShowsOverWhite(data: Snapshot)
      reads this, pixels
      requires Shaped() && 1 <= pixelSize
    {
      forall x, y {:trigger pixels[x, y]} | 0 <= x < width && 0 <= y < width ::
        pixels[x, y] == if Covers(data, pixelSize, x, y) then CellStyle(White, data, y / pixelSize, x / pixelSize) else White
    }

    /**
     * A page load: the canvas is cleared at a grid of 4 × 4 cells and, when
     * the local storage holds a snapshot, that snapshot is drawn over the
     * white canvas, whatever its shape.
     */
    constructor (width: nat, colorMenu: ColorMenu, stored: Option<Snapshot>)
      requires 4 <= width
      ensures Valid() && fresh(pixels)
      ensures this.width == width && this.colorMenu == colorMenu && amountPixels == 4
      ensures stored.None? ==>
        fillStyle == White && forall x, y | 0 <= x < width && 0 <= y < width :: pixels[x, y] == White
      ensures stored.Some? ==> ShowsOverWhite(stored.value)
      ensures stored.Some? ==> fillStyle == StyleAfterRows(White, stored.value, |stored.value|)
      ensures stored.Some? && IsCanonicalSnapshot(stored.value, 4) ==> Captures(stored.value)
    {
      this.width := width;
      this.colorMenu := colorMenu;
      pixels := new Rgb[width, width]((x, y) => Black);
      fillStyle := Black;
      new;
      Load(4, stored);
    }

    /**
     * A page load that restores the grid density of the snapshot: a stored
     * snapshot of n rows, with 1 <= n <= width, sets a grid of n × n cells
     * before it is drawn; otherwise the grid is 4 × 4 as before. A snapshot
     * the canvas took of itself is then captured again unchanged.
     */
    constructor Restore(width: nat, colorMenu: ColorMenu, stored: Option<Snapshot>)
      requires 4 <= width
      ensures Valid() && fresh(pixels)
      ensures this.width == width && this.colorMenu == colorMenu
      ensures amountPixels == if stored.Some? && 1 <= |stored.value| <= width then |stored.value| else 4
      ensures stored.None? ==>
        fillStyle == White && forall x, y | 0 <= x < width && 0 <= y < width :: pixels[x, y] == White
      ensures stored.Some? ==> ShowsOverWhite(stored.value)
      ensures stored.Some? ==> fillStyle == StyleAfterRows(White, stored.value, |stored.value|)
      ensures stored.Some? && IsCanonicalSnapshot(stored.value, amountPixels) ==> Captures(stored.value)
    {
      this.width := width;
      this.colorMenu := colorMenu;
      pixels := new Rgb[width, width]((x, y) => Black);
      fillStyle := Black;
      new;
      var amount := if stored.Some? && 1 <= |stored.value| <= width then |stored.value| else 4;
      Load(amount, stored);
    }

    /** What both page loads do once the grid density is chosen: clear at that density, then draw the snapshot if any. */
    method Load(amount: nat, stored: Option<Snapshot>)
      requires Shaped() && 1 <= amount <= width
      modifies this`fillStyle, this`amountPixels, this`pixelSize, pixels
      ensures Valid() && amountPixels == amount
      ensures stored.None? ==>
        fillStyle == White && forall x, y | 0 <= x < width && 0 <= y < width :: pixels[x, y] == White
      ensures stored.Some? ==> ShowsOverWhite(stored.value)
      ensures stored.Some? ==> fillStyle == StyleAfterRows(White, stored.value, |stored.value|)
      ensures stored.Some? && IsCanonicalSnapshot(stored.value, amount) ==> Captures(stored.value)
    {
      SetAmountPixels(amount);
      if stored.Some? {
        DrawByData(stored.value);
        if IsCanonicalSnapshot(stored.value, amount) {
          RepaintedCells(stored.value, White);
        }
      }
    }

    /** The canvas's fillRect: the part of the rectangle inside the canvas takes the fill style. */
    method FillRect(x: int, y: int, w: nat, h: nat)
      requires Shaped()
      modifies pixels
      ensures forall px, py | 0 <= px < width && 0 <= py < width ::
        pixels[px, py] == if x <= px < x + w && y <= py < y + h then fillStyle else old(pixels[px, py])
    {
      forall px, py | 0 <= px < width && 0 <= py < width && x <= px < x + w && y <= py < y + h {
        pixels[px, py] := fillStyle;
      }
    }

    /** A new grid density: the canvas is cleared to white and the cell size recomputed. */
    method SetAmountPixels(amountPixels: nat)
      requires Shaped() && 1 <= amountPixels <= width
      modifies this`fillStyle, this`amountPixels, this`pixelSize, pixels
      ensures Valid() && this.amountPixels == amountPixels
      ensures pixelSize * amountPixels <= width < (pixelSize + 1) * amountPixels
      ensures fillStyle == White
      ensures forall x, y | 0 <= x < width && 0 <= y < width :: pixels[x, y] == White
    {
      ClearCanvas();
      this.amountPixels := amountPixels;
      pixelSize := PixelSize(width, amountPixels);
    }

    /**
     * The pencil: the cell under the pointer, clipped to the canvas, takes
     * the current colour; every other pixel keeps its colour.
     */
    method DrawPixel(x: int, y: int)
      requires Valid()
      modifies this`fillStyle, pixels
      ensures fillStyle == ApplyStyle(old(fillStyle), colorMenu.curColor)
      ensures forall px, py | 0 <= px < width && 0 <= py < width ::
        pixels[px, py] ==
          if px / pixelSize == x / pixelSize && py / pixelSize == y / pixelSize then fillStyle
          else old(pixels[px, py])
    {
      var pos := PositionByMousedown(x, y, pixelSize);
      fillStyle := ApplyStyle(fillStyle, colorMenu.curColor);
      FillRect(pos.x, pos.y, pixelSize, pixelSize);
      forall px, py | 0 <= px < width && 0 <= py < width
        ensures (pos.x <= px < pos.x + pixelSize) == (px / pixelSize == x / pixelSize)
        ensures (pos.y <= py < pos.y + pixelSize) == (py / pixelSize == y / pixelSize)
      {
        CellBounds(px, x / pixelSize, pixelSize);
        CellBounds(py, y / pixelSize, pixelSize);
      }
    }

    /** The fill bucket: every pixel of the canvas, inside the grid or not, takes the current colour. */
    method FillCanvas()
      requires Shaped()
      modifies this`fillStyle, pixels
      ensures fillStyle == ApplyStyle(old(fillStyle), colorMenu.curColor)
      ensures forall x, y | 0 <= x < width && 0 <= y < width :: pixels[x, y] == fillStyle
    {
      fillStyle := ApplyStyle(fillStyle, colorMenu.curColor);
      FillRect(0, 0, width, width);
    }

    /** Every pixel of the canvas becomes white. */
    method ClearCanvas()
      requires Shaped()
      modifies this`fillStyle, pixels
      ensures fillStyle == White
      ensures forall x, y | 0 <= x < width && 0 <= y < width :: pixels[x, y] == White
    {
      fillStyle := ApplyStyle(fillStyle, "#FFFFFF");
      assert ParseColor("#FFFFFF") == Some(White);
      FillRect(0, 0, width, width);
    }

    /**
     * The eyedropper's read: the pixel at (x, y), or the transparent black
     * reported outside the canvas, written as `rgb(r, g, b)` and converted
     * by rgbToHex, which gives the pixel's canonical hexadecimal text.
     */
    method GetColorByPoint(x: int, y: int) returns (hex: string)
      requires Shaped()
      ensures hex == CanonicalHex(ReadPixel(x, y))
    {
      var pixel := if 0 <= x < width && 0 <= y < width then pixels[x, y] else Black;
      var conversion := RgbToHex(RgbText(pixel));
      ReadBackConverts(pixel);
      CanonicalHexParses(pixel);
      hex := conversion.hex;
    }

    /**
     * createData: the snapshot of the grid, row by row, sampling each cell at
     * its top-left corner.
     */
    method CreateData() returns (data: Snapshot)
      requires Shaped()
      ensures Captures(data)
      ensures IsCanonicalSnapshot(data, amountPixels)
    {
      var size := amountPixels;
      data := [];
      var i, y := 0, 0;
      while i < size
        invariant 0 <= i <= size && y == i * pixelSize
        invariant |data| == i
        invariant forall r | 0 <= r < i ::
          |data[r]| == size &&
          forall c | 0 <= c < size ::
            data[r][c] == CornerHex(r, c)
      {
        var row := [];
        var j, x := 0, 0;
        while j < size
          invariant 0 <= j <= size && x == j * pixelSize
          invariant |row| == j
          invariant forall c | 0 <= c < j ::
            row[c] == CornerHex(i, c)
        {
          var hex := GetColorByPoint(x, y);
          CapturedCell(row, hex, i);
          row := row + [hex];
          NextCorner(j, pixelSize);
          x := x + pixelSize;
          j := j + 1;
        }
        CapturedRow(data, row);
        data := data + [row];
        NextCorner(i, pixelSize);
        y := y + pixelSize;
        i := i + 1;
      }
      CapturedIsCanonical(data);
    }

    /** Appending the text of the next cell of row i to the texts of the cells before it. */
    lemma CapturedCell(row: seq<string>, hex: string, i: nat)
      requires Shaped()
      requires forall c | 0 <= c < |row| :: row[c] == CornerHex(i, c)
      requires hex == CanonicalHex(ReadPixel(|row| * pixelSize, i * pixelSize))
      ensures forall c | 0 <= c < |row| + 1 :: (row + [hex])[c] == CornerHex(i, c)
    {
      forall c | 0 <= c < |row| + 1
        ensures (row + [hex])[c] == if c < |row| then row[c] else hex
      {
      }
    }

    /** Appending the snapshot of row |data| to the snapshot of the rows above it. */
    lemma CapturedRow(data: Snapshot, row: seq<string>)
      requires Shaped()
      requires forall r | 0 <= r < |data| ::
        |data[r]| == |row| && forall c | 0 <= c < |row| :: data[r][c] == CornerHex(r, c)
      requires forall c | 0 <= c < |row| :: row[c] == CornerHex(|data|, c)
      ensures forall r | 0 <= r < |data| + 1 ::
        |(data + [row])[r]| == |row| &&
        forall c | 0 <= c < |row| :: (data + [row])[r][c] == CornerHex(r, c)
    {
      forall r | 0 <= r < |data| + 1
        ensures (data + [row])[r] == if r < |data| then data[r] else row
      {
      }
    }

    /** Every entry of a snapshot of the grid is a lowercase hexadecimal colour. */
    lemma CapturedIsCanonical(data: Snapshot)
      requires Shaped() && Captures(data)
      ensures IsCanonicalSnapshot(data, amountPixels)
    {
      forall i, j | 0 <= i < amountPixels && 0 <= j < amountPixels
        ensures IsLowerHexColor(data[i][j])
      {
        CanonicalHexParses(ReadPixel(j * pixelSize, i * pixelSize));
      }
    }

    /**
     * drawByData: each entry of the snapshot is assigned to the fill style
     * and its cell painted, row by row, whatever the shape of the snapshot;
     * the canvas clips cells outside it, and an entry it does not understand
     * leaves the previous style in force.
     */
    method DrawByData(data: Snapshot)
      requires Shaped() && 1 <= pixelSize
      modifies this`fillStyle, pixels
      ensures fillStyle == StyleAfterRows(old(fillStyle), data, |data|)
      ensures forall px, py {:trigger pixels[px, py]} | 0 <= px < width && 0 <= py < width ::
        pixels[px, py] ==
          if Covers(data, pixelSize, px, py) then CellStyle(old(fillStyle), data, py / pixelSize, px / pixelSize)
          else old(pixels[px, py])
    {
      ghost var style := fillStyle;
      ghost var ends, befores, styles := SnapshotStyles(style, data);
      DrawRows(data, ends, befores, styles);
      forall px, py | 0 <= px < width && 0 <= py < width && Covers(data, pixelSize, px, py)
        ensures pixels[px, py] == CellStyle(style, data, py / pixelSize, px / pixelSize)
      {
        var r, c := py / pixelSize, px / pixelSize;
        assert pixels[px, py] == styles[r][c];
        assert styles[r][c] == CellStyle(style, data, r, c);
      }
    }

    /**
     * The outer loop of drawByData. The ghost parameters name the styles of
     * the drawing, as StylesOfDrawing relates them.
     */
    method DrawRows(data: Snapshot, ghost ends: seq<Rgb>, ghost befores: seq<seq<Rgb>>, ghost styles: seq<seq<Rgb>>)
      requires Shaped() && 1 <= pixelSize
      requires StylesOfDrawing(data, ends, befores, styles) && fillStyle == ends[0]
      modifies this`fillStyle, pixels
      ensures fillStyle == ends[|data|]
      ensures forall px, py {:trigger pixels[px, py]} | 0 <= px < width && 0 <= py < width ::
        pixels[px, py] ==
          if Covers(data, pixelSize, px, py) then styles[py / pixelSize][px / pixelSize]
          else old(pixels[px, py])
    {
      var size := pixelSize;
      var i := 0;
      while i < |data|
        invariant 0 <= i <= |data|
        invariant fillStyle == ends[i]
        invariant forall px, py {:trigger pixels[px, py]} | 0 <= px < width && 0 <= py < width ::
          pixels[px, py] ==
            if py / size < i && Covers(data, size, px, py) then styles[py / size][px / size]
            else old(pixels[px, py])
      {
        assert RowOfDrawing(data, ends, befores, styles, i);
        DrawRow(data, i, ends[i + 1], befores[i], styles[i]);
        i := i + 1;
      }
    }

    /**
     * The inner loop of drawByData: the entries of row i are assigned to the
     * fill style in order, and each paints its cell of the row.
     * before[j] is the style in force before entry j is assigned,
     * rowStyles[j] the style after it, and end the style after the row.
     */
    method DrawRow(data: Snapshot, i: nat, ghost end: Rgb, ghost before: seq<Rgb>, ghost rowStyles: seq<Rgb>)
      requires Shaped() && 1 <= pixelSize && i < |data|
      requires RowStyled(data[i], fillStyle, end, before, rowStyles)
      modifies this`fillStyle, pixels
      ensures fillStyle == end
      ensures forall px, py {:trigger pixels[px, py]} | 0 <= px < width && 0 <= py < width ::
        pixels[px, py] ==
          if py / pixelSize == i && px / pixelSize < |data[i]| then rowStyles[px / pixelSize]
          else old(pixels[px, py])
    {
      var size := pixelSize;
      var j := 0;
      while j < |data[i]|
        invariant 0 <= j <= |data[i]|
        invariant fillStyle == if j == 0 then old(fillStyle) else rowStyles[j - 1]
        invariant forall px, py {:trigger pixels[px, py]} | 0 <= px < width && 0 <= py < width ::
          pixels[px, py] ==
            if py / size == i && px / size < j then rowStyles[px / size]
            else old(pixels[px, py])
      {
        assert fillStyle == before[j];
        PaintCell(data, i, j);
        j := j + 1;
      }
    }

    /**
     * One step of drawByData: entry data[i][j] is assigned to the fill style
     * and its cell, in row i and column j of the grid, is painted.
     */
    method PaintCell(data: Snapshot, i: nat, j: nat)
      requires Shaped() && 1 <= pixelSize && i < |data| && j < |data[i]|
      modifies this`fillStyle, pixels
      ensures fillStyle == ApplyStyle(old(fillStyle), data[i][j])
      ensures forall px, py {:trigger pixels[px, py]} | 0 <= px < width && 0 <= py < width ::
        pixels[px, py] ==
          if py / pixelSize == i && px / pixelSize == j then fillStyle
          else old(pixels[px, py])
    {
      var x, y := j * pixelSize, i * pixelSize;
      fillStyle := ApplyStyle(fillStyle, data[i][j]);
      FillRect(x, y, pixelSize, pixelSize);
      forall px, py | 0 <= px < width && 0 <= py < width
        ensures x <= px < x + pixelSize <==> px / pixelSize == j
        ensures y <= py < y + pixelSize <==> py / pixelSize == i
      {
        CellBounds(px, j, pixelSize);
        CellBounds(py, i, pixelSize);
      }
    }

    /**
     * The styles of drawing data: ends[i] is the style before row i (and
     * ends[|data|] the style after the last row), befores[i][j] the style
     * before entry j of row i is assigned and styles[i][j] the style after it.
     */
    ghost predicate StylesOfDrawing(data: Snapshot, ends: seq<Rgb>, befores: seq<seq<Rgb>>, styles: seq<seq<Rgb>>)
    {
      |ends| == |data| + 1 && |befores| == |data| && |styles| == |data| &&
      (forall r | 0 <= r < |data| :: |befores[r]| == |data[r]| && |styles[r]| == |data[r]|) &&
      (forall r {:trigger RowOfDrawing(data, ends, befores, styles, r)} | 0 <= r < |data| ::
        RowOfDrawing(data, ends, befores, styles, r))
    }

    /** Row r of data is drawn from ends[r] to ends[r + 1] through befores[r] and styles[r]. */
    ghost predicate RowOfDrawing(data: Snapshot, ends: seq<Rgb>, befores: seq<seq<Rgb>>, styles: seq<seq<Rgb>>, r: nat)
      requires r < |data| && |ends| == |data| + 1 && |befores| == |data| && |styles| == |data|
    {
      RowStyled(data[r], ends[r], ends[r + 1], befores[r], styles[r])
    }

    /** The styles of drawing data from a given style, as drawByData goes through them. */
    lemma SnapshotStyles(style: Rgb, data: Snapshot) returns (ends: seq<Rgb>, befores: seq<seq<Rgb>>, styles: seq<seq<Rgb>>)
      ensures StylesOfDrawing(data, ends, befores, styles)
      ensures ends[0] == style && ends[|data|] == StyleAfterRows(style, data, |data|)
      ensures forall r, c {:trigger CellStyle(style, data, r, c)} | 0 <= r < |data| && 0 <= c < |data[r]| ::
        styles[r][c] == CellStyle(style, data, r, c)
    {
      ends := seq(|data| + 1, r requires 0 <= r <= |data| => StyleAfterRows(style, data, r));
      befores := seq(|data|, r requires 0 <= r < |data| => StylesBefore(style, data, r));
      styles := seq(|data|, r requires 0 <= r < |data| => CellStyles(style, data, r));
      forall r | 0 <= r < |data|
        ensures |befores[r]| == |data[r]| && |styles[r]| == |data[r]|
        ensures RowOfDrawing(data, ends, befores, styles, r)
      {
        CellStylesRow(style, data, r);
      }
    }

    /**
     * Drawing an amountPixels × amountPixels snapshot of lowercase
     * hexadecimal colours, from any fill style, makes the grid's snapshot
     * equal to it.
     */
    lemma RepaintedCells(data: Snapshot, style: Rgb)
      requires Valid() && IsCanonicalSnapshot(data, amountPixels)
      requires forall px, py | 0 <= px < width && 0 <= py < width && Covers(data, pixelSize, px, py) ::
        pixels[px, py] == CellStyle(style, data, py / pixelSize, px / pixelSize)
      ensures Captures(data)
    {
      forall i, j | 0 <= i < amountPixels && 0 <= j < amountPixels
        ensures data[i][j] == CanonicalHex(ReadPixel(j * pixelSize, i * pixelSize))
      {
        var x, y := j * pixelSize, i * pixelSize;
        CellInside(i, amountPixels, pixelSize, width);
        CellInside(j, amountPixels, pixelSize, width);
        CellBounds(x, j, pixelSize);
        CellBounds(y, i, pixelSize);
        assert Covers(data, pixelSize, x, y);
        ParsedColorReprints(data[i][j]);
        CellStyleOfColor(style, data, i, j);
        assert ReadPixel(x, y) == ParseColor(data[i][j]).value;
      }
    }
  }

  /**
   * Drawing a snapshot of the grid's shape made of lowercase hexadecimal
   * colours and capturing the grid again gives back that snapshot, from any
   * fill style and whatever the canvas showed before.
   */
  method DrawThenCapture(canvas: PixelCanvas, d: Snapshot) returns (data: Snapshot)
    requires canvas.Valid() && IsCanonicalSnapshot(d, canvas.amountPixels)
    modifies canvas`fillStyle, canvas.pixels
    ensures data == d
  {
    ghost var style := canvas.fillStyle;
    canvas.DrawByData(d);
    canvas.RepaintedCells(d, style);
    data := canvas.CreateData();
    canvas.CapturedOnce(d, data);
  }

  /**
   * Loading the page with a stored 4 × 4 snapshot of lowercase hexadecimal
   * colours and capturing the new page gives back that snapshot.
   */
  method LoadThenCapture(width: nat, colorMenu: ColorMenu, stored: Snapshot) returns (data: Snapshot)
    requires 4 <= width && IsCanonicalSnapshot(stored, 4)
    ensures data == stored
  {
    var page := new PixelCanvas(width, colorMenu, Some(stored));
    data := page.CreateData();
    page.CapturedOnce(stored, data);
  }

  /**
   * Loading the page with the grid density restored from a stored square
   * snapshot of lowercase hexadecimal colours, of any side from 1 to the
   * width, and capturing the new page gives back that snapshot.
   */
  method RestoreThenCapture(width: nat, colorMenu: ColorMenu, stored: Snapshot) returns (data: Snapshot)
    requires 4 <= width && 1 <= |stored| <= width && IsCanonicalSnapshot(stored, |stored|)
    ensures data == stored
  {
    var page := new PixelCanvas.Restore(width, colorMenu, Some(stored));
    data := page.CreateData();
    page.CapturedOnce(stored, data);
  }

  /**
   * Saving a 4 × 4 canvas and loading the page again: the new page draws
   * the saved snapshot and captures exactly that snapshot again.
   */
  method ReloadFourByFour(canvas: PixelCanvas) returns (saved: Snapshot, reloaded: Snapshot)
    requires canvas.Valid() && canvas.amountPixels == 4
    ensures saved == reloaded
  {
    saved := canvas.CreateData();
    reloaded := LoadThenCapture(canvas.width, canvas.colorMenu, saved);
  }

  /**
   * Saving a canvas of any grid density and loading the page again, as the
   * page does it: the new page always has a 4 × 4 grid, so a snapshot taken
   * at another density comes back with a different shape.
   */
  method ReloadAsWritten(canvas: PixelCanvas) returns (saved: Snapshot, reloaded: Snapshot)
    requires canvas.Valid() && 4 <= canvas.width
    ensures |saved| == canvas.amountPixels && |reloaded| == 4
    ensures canvas.amountPixels != 4 ==> saved != reloaded
  {
    saved := canvas.CreateData();
    var page := new PixelCanvas(canvas.width, canvas.colorMenu, Some(saved));
    reloaded := page.CreateData();
  }

  /**
   * Saving a canvas of any grid density and loading the page with the grid
   * restored from the snapshot: the new page captures exactly the saved
   * snapshot again.
   */
  method ReloadRestored(canvas: PixelCanvas) returns (saved: Snapshot, reloaded: Snapshot)
    requires canvas.Valid() && 4 <= canvas.width
    ensures saved == reloaded
  {
    saved := canvas.CreateData();
    reloaded := RestoreThenCapture(canvas.width, canvas.colorMenu, saved);
  }
}
