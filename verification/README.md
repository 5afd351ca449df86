# codejam-canvas: the pixel canvas, its colour history and rgbToHex

A model of the drawing core of the codejam-canvas page. The page is a
square canvas with a grid of `amountPixels × amountPixels` cells over it.
A pencil paints one cell in the current colour. A fill bucket paints the
whole canvas. An eyedropper reads a pixel back as hexadecimal text. The
grid is captured as a snapshot (rows of colour texts) that the page keeps
in local storage and draws again when the page loads. The colour menu
keeps a current and a previous colour and a colour picker whose choice is
committed when the picker closes. `rgbToHex` turns the `rgb(r, g, b)` text
a browser reports into `#rrggbb`.

Modules:

- `NumberText`: `n.toString(radix)` and `parseInt` on digit strings.
- `ColorConversion`: `rgbToHex` and the regular expression it runs.
- `CanvasColor`: pixels as byte triples, the `fillStyle` texts the canvas
  accepts, and the style in force at each cell while a snapshot is drawn.
- `Grid`: the cell size and the cell under a pointer.
- `ColorHistory`: the class `ColorMenu`.
- `Canvas`: the class `PixelCanvas`. Its pixels are an `array2<Rgb>` that
  the methods update in place.

rgbToHex returns `undefined` for any text without `rgb` in it. This holds
even when the text is a hexadecimal colour such as `#abcdef`, because the
check at script.js:199 comes before the `#` case at script.js:203. The `#`
branch looks meant to pass hexadecimal colours through, but only text that
also contains `rgb` reaches it, so a `#` text is returned unchanged only
when it also contains `rgb`. The model follows the code as written.

## Model

| member | source | states |
|---|---|---|
| NumberText.ValueOfToText | codejam-canvas/js/script.js:208-210 | `parseInt(n.toString(base), base) == n` for every non-negative n and base 2 to 16 |
| NumberText.HexLength | codejam-canvas/js/script.js:208-216 | `n.toString(16)` has one digit exactly when n < 16, two exactly when 16 <= n < 256, and three or more exactly when n >= 256 |
| ColorConversion.FirstMatch | codejam-canvas/js/script.js:207 | exec gives null exactly when the tail of the pattern matches at no position; otherwise it gives the groups of the earliest position where it matches |
| ColorConversion.ContainsIff | codejam-canvas/js/script.js:199 | `color.indexOf("rgb") >= 0` holds exactly when `rgb` begins at some position of the text |
| ColorConversion.DigitRunOf | codejam-canvas/js/script.js:207 | `\d+` takes exactly the decimal digits before the first non-digit |
| ColorConversion.SpaceRunOf | codejam-canvas/js/script.js:207 | `\s*` takes exactly the whitespace before the first other character |
| ColorConversion.NumberOf | codejam-canvas/js/script.js:207-208 | the group `(\d+)` on the decimal text of n, followed by a non-digit, captures that text, parseInt gives back n, and the rest is left |
| ColorConversion.CommaNumberOf | codejam-canvas/js/script.js:207-208 | `,\s*(\d+)` reads a comma, any whitespace and the decimal text of n, gives n and leaves the rest |
| ColorConversion.MatchAtPieces | codejam-canvas/js/script.js:207 | the tail `rgb\((\d+),\s*(\d+),\s*(\d+)\)` matches at a position when `rgb(`, a number, two comma-numbers and `)` follow one another there, and captures the three numbers |
| ColorConversion.MatchAtRgbCall | codejam-canvas/js/script.js:207 | the tail of the pattern matches `rgb(r,` whitespace `g,` whitespace `b)` at its start and captures r, g and b, for any numbers and any following text |
| ColorConversion.RgbToHex | codejam-canvas/js/script.js:197-217 | undefined exactly when the text has no `rgb`; a text starting with `#` comes back unchanged; otherwise the result is the padded hexadecimal of the first match; a throw happens only when no position matches |
| ColorConversion.RgbCallConverts | codejam-canvas/js/script.js:207-216 | `rgb(r,` then spaces, `g,` then spaces, `b)` followed by anything converts to `#` plus the three padded hexadecimal components, for any numbers |
| ColorConversion.HexComponent | codejam-canvas/js/script.js:212-216 | a component below 256 becomes exactly two digits, high then low; a component of 256 or more keeps all its three or more digits unpadded |
| ColorConversion.UndefinedWithoutLetters | codejam-canvas/js/script.js:198-201 | a text without `r` or without `g` converts to undefined |
| ColorConversion.NullMatchWhen | codejam-canvas/js/script.js:199-210 | a text that contains `rgb`, does not start with `#` and matches nowhere makes the call throw |
| ColorConversion.RgbaThrows | codejam-canvas/js/script.js:199-210 | `rgba` followed by text without `r` passes the `rgb` check, matches nowhere and throws |
| ColorConversion.ConvertsExample | codejam-canvas/js/script.js:207-216 | `rgb(255, 0, 17)` converts to `#ff0011` |
| ColorConversion.OutOfRangeExample | codejam-canvas/js/script.js:207-216 | `rgb(256, 0, 0)` converts to `#1000000`, with no range check and no padding of the long component |
| ColorConversion.UndefinedExamples | codejam-canvas/js/script.js:198-205 | the empty text, `purple` and `#abcdef` give undefined; `#rgb` comes back unchanged |
| ColorConversion.NullMatchExample | codejam-canvas/js/script.js:199-210 | `rgba(1, 2, 3, 0.5)` makes the call throw |
| CanvasColor.ParseColorAccepts | codejam-canvas/js/script.js:71 | the canvas accepts an assigned `fillStyle` text exactly when it is `#` and six hexadecimal digits of either case; an accepted lowercase text prints back as itself |
| CanvasColor.AssignedStyle | codejam-canvas/js/script.js:71 | assigning an accepted text sets the style to its colour whatever the style was; assigning any other text leaves the style as it was; assigning the same text twice is assigning it once; a lowercase `#rrggbb` text sets a style that prints back as that text |
| CanvasColor.CanonicalHexParses | codejam-canvas/js/script.js:39-42 | the text rgbToHex writes for a pixel is `#` and six lowercase digits, and the canvas reads it back as the same pixel |
| CanvasColor.ParsedColorReprints | codejam-canvas/js/script.js:68-72 | a snapshot entry of `#` and six lowercase digits is a colour the canvas accepts, and converting that colour back gives the same text |
| CanvasColor.ReadBackConverts | codejam-canvas/js/script.js:39-42 | the `rgb(r, g, b)` text built from a pixel converts to that pixel's `#rrggbb` text |
| CanvasColor.CellStyleAfterRow | codejam-canvas/js/script.js:69-72 | the style a cell is painted in is the style after every entry of its row up to and including its own has been assigned |
| CanvasColor.RowEndStyle | codejam-canvas/js/script.js:69-76 | after a row, the style is that of its last cell, or the style before the row when the row is empty |
| CanvasColor.CellStylesRow | codejam-canvas/js/script.js:69-72 | row i is drawn from the style after the rows above it to the style after itself; each entry is applied to the style left by the entry before it, and the first to the style at the start of the row |
| CanvasColor.StyleAfterRowIsLastColor | codejam-canvas/js/script.js:70-72 | after a row's entries are assigned, the style is the last entry the canvas understood |
| CanvasColor.StyleAfterRowWithoutColor | codejam-canvas/js/script.js:70-72 | when the canvas understands none of the entries, the style stays what it was |
| CanvasColor.CellStyleOfColor | codejam-canvas/js/script.js:71-72 | a cell whose entry the canvas understands is painted in that entry's colour |
| Grid.PixelSize | codejam-canvas/js/script.js:20 | the cell size is at least 1, and it is the largest size at which amountPixels cells fit into the width |
| Grid.PositionByRowAndCol | codejam-canvas/js/script.js:44-46 | the corner of a cell is a multiple of the cell size on each axis, and dividing it by the cell size gives back the row and the column |
| Grid.PositionByMousedown | codejam-canvas/js/script.js:48-52 | the corner under the pointer is a multiple of the cell size, at most one cell before the pointer on each axis |
| Grid.MousedownInCell | codejam-canvas/js/script.js:44-52 | every point inside a cell maps to that cell's corner, so the mouse mapping inverts createPositionByRowAndCol |
| Grid.CellBounds | codejam-canvas/js/script.js:48-50 | a coordinate is inside cell k exactly when its floor division by the cell size is k |
| Grid.GridExample | codejam-canvas/js/script.js:20 | on a 128-pixel canvas, 4 cells are 32 pixels wide and 32 cells are 4 pixels wide; the pointer (33, 65) maps to (32, 64) |
| ColorHistory.ColorMenu.constructor | codejam-canvas/js/script.js:83 | the current and previous colours start as `#000000`, and the picker starts closed |
| ColorHistory.ColorMenu.ShowColorPicker | codejam-canvas/js/script.js:113-119 | a closed picker opens and nothing else changes; an open picker closes and commits as removeColorPicker does |
| ColorHistory.ColorMenu.RemoveColorPicker | codejam-canvas/js/script.js:121-126 | an open picker closes and the colour shown becomes current, with the old current colour as previous; a closed picker changes nothing |
| ColorHistory.ColorMenu.SetCurrentColor | codejam-canvas/js/script.js:128-133 | the old current colour becomes the previous one, the given colour becomes current, and the swatch shows it |
| ColorHistory.ColorMenu.PickColor | codejam-canvas/js/script.js:135-137 | the swatch shows the converted background colour, and the colour history is untouched |
| ColorHistory.ColorMenu.ChoosePreviousColor | codejam-canvas/js/script.js:139-141 | the current and previous colours trade places |
| ColorHistory.ChoosePreviousTwice | codejam-canvas/js/script.js:139-141 | choosing the previous colour twice restores both colours |
| ColorHistory.PickAndCommit | codejam-canvas/js/script.js:113-137 | opening the picker, picking and closing it makes the picked colour current and the old current colour previous |
| Canvas.PixelCanvas.constructor | codejam-canvas/js/script.js:3-15 | the page starts with a 4 × 4 grid on a white canvas; a stored snapshot is drawn over it and leaves the fill style at the style after all its entries; a 4 × 4 snapshot of hexadecimal colours is then the grid's own snapshot |
| Canvas.PixelCanvas.Load | codejam-canvas/js/script.js:6-14 | the canvas is cleared at the given density; with nothing stored every pixel and the fill style are white; a stored snapshot is drawn over white, the fill style ends at the style after all its entries, and a grid-shaped snapshot of hexadecimal colours is then the grid's snapshot |
| Canvas.PixelCanvas.FillRect | codejam-canvas/js/script.js:26 | the fillRect calls at lines 26, 31, 36 and 72: exactly the pixels of the rectangle that lie on the canvas take the fill style, and every other pixel keeps its colour |
| Canvas.PixelCanvas.SetAmountPixels | codejam-canvas/js/script.js:17-21 | every pixel is white, the grid has the given density, and the cell size is the largest that fits |
| Canvas.PixelCanvas.DrawPixel | codejam-canvas/js/script.js:23-27 | exactly the pixels of the cell under the pointer take the current colour; every other pixel keeps its colour |
| Canvas.PixelCanvas.FillCanvas | codejam-canvas/js/script.js:29-32 | every pixel takes the current colour |
| Canvas.PixelCanvas.ClearCanvas | codejam-canvas/js/script.js:34-37 | every pixel becomes white |
| Canvas.PixelCanvas.GetColorByPoint | codejam-canvas/js/script.js:39-42 | the result is the `#rrggbb` text of the pixel, or `#000000` outside the canvas |
| Canvas.PixelCanvas.CreateData | codejam-canvas/js/script.js:54-66 | the snapshot has amountPixels rows of amountPixels entries, and each entry is the text of the pixel at its cell's top-left corner |
| Canvas.PixelCanvas.CapturedOnce | codejam-canvas/js/script.js:54-66 | a grid has only one snapshot |
| Canvas.PixelCanvas.DrawByData | codejam-canvas/js/script.js:68-77 | each pixel covered by an entry, whatever the snapshot's shape, takes the style in force at that entry; every other pixel is unchanged; the final style is the style after all entries |
| Canvas.PixelCanvas.DrawRows | codejam-canvas/js/script.js:69-76 | the rows are drawn in order: each pixel covered by an entry takes the style after that entry, every other pixel is unchanged, and the fill style ends at the style after the last row |
| Canvas.PixelCanvas.DrawRow | codejam-canvas/js/script.js:70-74 | the entries of one row are drawn in order: exactly the pixels of the row's cells take the styles after their entries, and the fill style ends at the style after the row |
| Canvas.PixelCanvas.PaintCell | codejam-canvas/js/script.js:71-72 | the entry is applied to the fill style, and exactly the pixels of its cell take the resulting style |
| Canvas.PixelCanvas.SnapshotStyles | codejam-canvas/js/script.js:68-77 | the styles drawByData goes through are those of CellStyle and StyleAfterRows: each row starts where the row above ended, and each cell's style is its entry applied to the style before it |
| Canvas.PixelCanvas.RepaintedCells | codejam-canvas/js/script.js:54-77 | once a grid-shaped snapshot of hexadecimal colours is drawn, it is the grid's snapshot |
| Canvas.DrawThenCapture | codejam-canvas/js/script.js:54-77 | drawing a grid-shaped snapshot of hexadecimal colours and capturing again gives back the same snapshot |
| Canvas.LoadThenCapture | codejam-canvas/js/script.js:3-15 | loading the page with a stored 4 × 4 snapshot of hexadecimal colours and capturing the new page gives back that snapshot |
| Canvas.RestoreThenCapture | codejam-canvas/js/script.js:3-15 | loading the page with the density restored from a stored square snapshot of hexadecimal colours, of any side from 1 to the width, and capturing gives back that snapshot |
| Canvas.ReloadFourByFour | codejam-canvas/js/script.js:3-15 | saving a 4 × 4 canvas and loading the page again gives back the saved snapshot |
| Canvas.ReloadAsWritten | codejam-canvas/js/script.js:3-15 | after a reload, a snapshot saved at another density comes back as 4 × 4, which differs from what was saved |
| Canvas.PixelCanvas.Restore | codejam-canvas/js/script.js:3-15 | a page load that first sets the grid density to the snapshot's row count; the stored snapshot is drawn over white and leaves the fill style at the style after all its entries; a grid-shaped snapshot of hexadecimal colours is then the grid's snapshot |
| Canvas.ReloadRestored | codejam-canvas/js/script.js:3-15 | with the density restored, saving at any density and reloading gives back the saved snapshot |

## Left out

- chooseExampleColor (script.js:143-145) and the ToolsMenu class are not part of this model. Both are DOM event wiring around the operations above.
- The top-level script, the event listeners and the DOM elements are not modelled. Events become method calls.
- Local storage and JSON are not modelled. A stored snapshot is passed to the constructor as `Option<Snapshot>`. Saving on every mouse move is `CreateData`.
- The ColorPicker library is not modelled. Its background colour text is a parameter of `PickColor`.
- The browser's colour parsing is modelled only for `#` plus six hexadecimal digits. Named colours, `#rgb` and functional notation are treated as text the canvas ignores.
- The browser rewrites `style.fill` and `backgroundColor` into its own form. That rewriting is not modelled, and the swatch's fill is kept as the text that was set.
- The previous-colour swatch (`svgPrevColor`) only mirrors `prevColor` and is not kept. The same goes for the picker's `setHex`.
- The canvas is assumed square, with its CSS size equal to its pixel size. Pointer offsets are integers.
- Alpha is not modelled. Every colour painted is opaque.
- `setAmountPixels` with more cells than pixels, which divides to a zero cell size, is excluded by a precondition.
- `parseInt` and `toString` are exact on unbounded integers. Numbers above 2^53 are not modelled.
- rgbToHex's `"" + color` coercion of non-string values is not modelled. The input is a string.
- Canvas.PixelCanvas.GetColorByPoint: the contract gives the pixel's `#rrggbb` text. That this text parses back to the same pixel is stated separately, by CanvasColor.CanonicalHexParses.

## Findings

| source | as written | input that shows it | evidently intended | confidence | as-written member | corrected member |
|---|---|---|---|---|---|---|
| codejam-canvas/js/script.js:6, 12-14 | the constructor always sets a 4 × 4 grid before drawing the stored snapshot | save a canvas at 32 × 32 (width 128), then reload: the snapshot is drawn with 32-pixel cells and captured as 4 × 4 | the stored drawing comes back at the density it was saved at | not executed | Canvas.ReloadAsWritten | Canvas.ReloadRestored |
