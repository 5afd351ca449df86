/**
 * Colours as the drawing surface holds them: one red, green and blue byte
 * per pixel. The surface takes its colour from `fillStyle` text and hands a
 * pixel back as the numbers rgbToHex receives.
 */
module CanvasColor {
  import opened Wrappers
  import opened NumberText
  import opened ColorConversion

  /** One colour channel of a pixel: a byte. */
  type Channel = x: nat | x < 256

  /**
   * The colour of one pixel. Every colour the widget paints is opaque, so
   * the alpha byte is always 255 and is not kept.
   */
  datatype Rgb = Rgb(r: Channel, g: Channel, b: Channel)

  /** The `#FFFFFF` of clearCanvas. */
  const White := Rgb(255, 255, 255)

  /**
   * The initial `fillStyle` of a canvas, and also the red, green and blue
   * bytes of the transparent pixels that getImageData reports outside the
   * canvas.
   */
  const Black := Rgb(0, 0, 0)

  /** A hexadecimal colour as rgbToHex writes one for a byte triple: `#` and six lowercase digits. */
  predicate IsLowerHexColor(s: string)
  {
    |s| == 7 && s[0] == '#' && forall i | 1 <= i < 7 :: IsLowerHexDigit(s[i])
  }

  /** The byte written by two hexadecimal digits at positions i and i + 1. */
  function ByteAt(s: string, i: nat): Channel
    requires i + 1 < |s| && IsHexDigit(s[i]) && IsHexDigit(s[i + 1])
  {
    DigitValue(s[i]) * 16 + DigitValue(s[i + 1])
  }

  /**
   * The colour a canvas takes from `fillStyle` text `#rrggbb`, with digits
   * of either case. Any other text gives None: the canvas ignores it and
   * keeps the style it had.
   */
  function ParseColor(s: string): Option<Rgb>
  {
    if |s| == 7 && s[0] == '#' && IsHexDigit(s[1]) && IsHexDigit(s[2]) && IsHexDigit(s[3]) && IsHexDigit(s[4]) && IsHexDigit(s[5]) && IsHexDigit(s[6]) then
      Some(Rgb(ByteAt(s, 1), ByteAt(s, 3), ByteAt(s, 5)))
    else
      None
  }

  /**
   * The canvas accepts exactly the texts of `#` and six hexadecimal digits,
   * and the case of the digits does not change the colour.
   */
  lemma ParseColorAccepts(s: string)
    ensures ParseColor(s).Some? <==> |s| == 7 && s[0] == '#' && forall i | 1 <= i < 7 :: IsHexDigit(s[i])
    ensures ParseColor(s).Some? && IsLowerHexColor(s) ==> CanonicalHex(ParseColor(s).value) == s
  {
    if |s| == 7 && s[0] == '#' && forall i | 1 <= i < 7 :: IsHexDigit(s[i]) {
      assert IsHexDigit(s[1]) && IsHexDigit(s[2]) && IsHexDigit(s[3]);
      assert IsHexDigit(s[4]) && IsHexDigit(s[5]) && IsHexDigit(s[6]);
    }
    if IsLowerHexColor(s) {
      ParsedColorReprints(s);
    }
  }

  /** The text rgbToHex makes of a pixel. */
  function CanonicalHex(c: Rgb): string
  {
    HexTriple(c.r, c.g, c.b)
  }

  /** The text getColorByPoint builds from a pixel it reads: `rgb(${r}, ${g}, ${b})`. */
  function RgbText(c: Rgb): string
  {
    RgbCall(c.r, c.g, c.b, " ", " ", "")
  }

  /** A byte in hexadecimal is two lowercase digits that read back as the byte. */
  lemma ByteText(n: Channel)
    ensures |PadHex(ToText(n, 16))| == 2
    ensures IsLowerHexDigit(PadHex(ToText(n, 16))[0]) && IsLowerHexDigit(PadHex(ToText(n, 16))[1])
    ensures ByteAt(PadHex(ToText(n, 16)), 0) == n
  {
    HexComponent(n);
    DigitRoundTrip(n / 16);
    DigitRoundTrip(n % 16);
  }

  /**
   * rgbToHex writes every pixel as `#` and six lowercase digits, and the
   * canvas reads that text back as the same pixel.
   */
  lemma CanonicalHexParses(c: Rgb)
    ensures IsLowerHexColor(CanonicalHex(c))
    ensures ParseColor(CanonicalHex(c)) == Some(c)
  {
    ByteText(c.r);
    ByteText(c.g);
    ByteText(c.b);
    var red, green, blue := PadHex(ToText(c.r, 16)), PadHex(ToText(c.g, 16)), PadHex(ToText(c.b, 16));
    assert CanonicalHex(c) == "#" + red + green + blue;
    ParsePairs(red, green, blue);
  }

  /** `#` followed by three pairs of lowercase digits is a colour the canvas reads pair by pair. */
  lemma ParsePairs(red: string, green: string, blue: string)
    requires |red| == 2 && |green| == 2 && |blue| == 2
    requires IsLowerHexDigit(red[0]) && IsLowerHexDigit(red[1])
    requires IsLowerHexDigit(green[0]) && IsLowerHexDigit(green[1])
    requires IsLowerHexDigit(blue[0]) && IsLowerHexDigit(blue[1])
    ensures IsLowerHexColor("#" + red + green + blue)
    ensures ParseColor("#" + red + green + blue) == Some(Rgb(ByteAt(red, 0), ByteAt(green, 0), ByteAt(blue, 0)))
  {
    var s := "#" + red + green + blue;
    assert s[1] == red[0] && s[2] == red[1];
    assert s[3] == green[0] && s[4] == green[1];
    assert s[5] == blue[0] && s[6] == blue[1];
  }

  /**
   * Every `#` and six lowercase digits is a colour the canvas accepts, and
   * rgbToHex writes that colour back as the same text.
   */
  lemma ParsedColorReprints(s: string)
    requires IsLowerHexColor(s)
    ensures ParseColor(s).Some?
    ensures CanonicalHex(ParseColor(s).value) == s
  {
    assert forall i | 1 <= i < 7 :: IsHexDigit(s[i]);
    var c := Rgb(ByteAt(s, 1), ByteAt(s, 3), ByteAt(s, 5));
    assert ParseColor(s) == Some(c);
    ByteReprints(s, 1);
    ByteReprints(s, 3);
    ByteReprints(s, 5);
    assert CanonicalHex(c) == "#" + s[1..3] + s[3..5] + s[5..7];
    SplitColor(s);
  }

  /** Seven characters starting with `#` are `#` and three pairs. */
  lemma SplitColor(s: string)
    requires |s| == 7 && s[0] == '#'
    ensures s == "#" + s[1..3] + s[3..5] + s[5..7]
  {
  }

  /** Two lowercase digits are the padded hexadecimal text of the byte they write. */
  lemma ByteReprints(s: string, i: nat)
    requires i + 1 < |s| && IsLowerHexDigit(s[i]) && IsLowerHexDigit(s[i + 1])
    ensures PadHex(ToText(ByteAt(s, i), 16)) == s[i..i + 2]
  {
    var n := ByteAt(s, i);
    var high, low := DigitValue(s[i]), DigitValue(s[i + 1]);
    assert n / 16 == high && n % 16 == low;
    HexComponent(n);
    LowerDigitRoundTrip(s[i]);
    LowerDigitRoundTrip(s[i + 1]);
  }

  /** Reading a pixel back through rgbToHex gives its canonical hexadecimal text. */
  lemma ReadBackConverts(c: Rgb)
    ensures RgbToHex(RgbText(c)) == Converted(CanonicalHex(c))
  {
    RgbCallConverts(c.r, c.g, c.b, " ", " ", "");
  }

  /** Assigning text to `fillStyle`: a colour the canvas understands replaces the style, other text is ignored. */
  function ApplyStyle(style: Rgb, s: string): Rgb
  {
    match ParseColor(s)
    case Some(c) => c
    case None => style
  }

  /**
   * Assigning a text to `fillStyle`: a colour the canvas understands is the
   * new style whatever the style was, and assigning it again changes
   * nothing; text it does not understand leaves the style as it was; and a
   * text of `#` and six lowercase digits reads back as itself.
   */
  lemma AssignedStyle(style: Rgb, s: string)
    ensures ParseColor(s).Some? ==> forall other: Rgb :: ApplyStyle(other, s) == ApplyStyle(style, s)
    ensures ParseColor(s).None? ==> ApplyStyle(style, s) == style
    ensures ApplyStyle(ApplyStyle(style, s), s) == ApplyStyle(style, s)
    ensures IsLowerHexColor(s) ==> CanonicalHex(ApplyStyle(style, s)) == s
  {
    if IsLowerHexColor(s) {
      ParsedColorReprints(s);
    }
  }

  /** The fill style after the first n entries of a snapshot row have been assigned in order. */
  function StyleAfterRow(style: Rgb, row: seq<string>, n: nat): Rgb
    requires n <= |row|
  {
    if n == 0 then style else ApplyStyle(StyleAfterRow(style, row, n - 1), row[n - 1])
  }

  /** The fill style after every entry of the first n rows of a snapshot has been assigned in order. */
  function StyleAfterRows(style: Rgb, data: seq<seq<string>>, n: nat): Rgb
    requires n <= |data|
  {
    if n == 0 then style else StyleAfterRow(StyleAfterRows(style, data, n - 1), data[n - 1], |data[n - 1]|)
  }

  /**
   * The fill style in force when drawByData paints the cell of entry
   * data[i][j]: that entry assigned to the style left by the entry before
   * it in the row, or by the rows above for the first entry of a row.
   */
  function CellStyle(style: Rgb, data: seq<seq<string>>, i: nat, j: nat): Rgb
    requires i < |data| && j < |data[i]|
    decreases j
  {
    ApplyStyle(if j == 0 then StyleAfterRows(style, data, i) else CellStyle(style, data, i, j - 1), data[i][j])
  }

  /** The style of a cell is the style after the entries of its row up to and including its own. */
  lemma {:induction false} CellStyleAfterRow(style: Rgb, data: seq<seq<string>>, i: nat, j: nat)
    requires i < |data| && j < |data[i]|
    ensures CellStyle(style, data, i, j) == StyleAfterRow(StyleAfterRows(style, data, i), data[i], j + 1)
    decreases j
  {
    if j > 0 {
      CellStyleAfterRow(style, data, i, j - 1);
    }
  }

  /** The style after a row is the style of its last cell, or the style before it for an empty row. */
  lemma RowEndStyle(style: Rgb, data: seq<seq<string>>, i: nat)
    requires i < |data|
    ensures StyleAfterRows(style, data, i + 1) ==
      if |data[i]| == 0 then StyleAfterRows(style, data, i) else CellStyle(style, data, i, |data[i]| - 1)
  {
    if |data[i]| > 0 {
      CellStyleAfterRow(style, data, i, |data[i]| - 1);
    }
  }

  /**
   * The styles of drawing one snapshot row, entry by entry, from style
   * start to style end: before[j] is the style before entry j is assigned
   * and after[j] the style after it.
   */
  ghost predicate RowStyled(row: seq<string>, start: Rgb, end: Rgb, before: seq<Rgb>, after: seq<Rgb>)
  {
    |before| == |row| && |after| == |row| &&
    (|row| > 0 ==> before[0] == start) &&
    end == (if |row| == 0 then start else after[|row| - 1]) &&
    (forall j {:trigger before[j]} | 0 < j < |row| :: before[j] == after[j - 1]) &&
    (forall j {:trigger ApplyStyle(before[j], row[j])} | 0 <= j < |row| :: after[j] == ApplyStyle(before[j], row[j]))
  }

  /** The style of each cell of row i. */
  ghost function CellStyles(style: Rgb, data: seq<seq<string>>, i: nat): seq<Rgb>
    requires i < |data|
  {
    seq(|data[i]|, j requires 0 <= j < |data[i]| => CellStyle(style, data, i, j))
  }

  /** The style in force before each entry of row i is assigned. */
  ghost function StylesBefore(style: Rgb, data: seq<seq<string>>, i: nat): seq<Rgb>
    requires i < |data|
  {
    seq(|data[i]|, j requires 0 <= j < |data[i]| =>
      if j == 0 then StyleAfterRows(style, data, i) else CellStyle(style, data, i, j - 1))
  }

  /** Row i is drawn from the style after the rows above it to the style after itself, through its cell styles. */
  lemma CellStylesRow(style: Rgb, data: seq<seq<string>>, i: nat)
    requires i < |data|
    ensures RowStyled(data[i], StyleAfterRows(style, data, i), StyleAfterRows(style, data, i + 1),
                      StylesBefore(style, data, i), CellStyles(style, data, i))
  {
    RowEndStyle(style, data, i);
  }

  /**
   * After assigning a row's entries, the style is that of the last entry
   * the canvas understood.
   */
  lemma {:induction false} StyleAfterRowIsLastColor(style: Rgb, row: seq<string>, n: nat, k: nat)
    requires k < n <= |row|
    requires ParseColor(row[k]).Some?
    requires forall m | k < m < n :: ParseColor(row[m]).None?
    ensures StyleAfterRow(style, row, n) == ParseColor(row[k]).value
    decreases n
  {
    if n - 1 > k {
      StyleAfterRowIsLastColor(style, row, n - 1, k);
    }
  }

  /** When the canvas understands none of the entries assigned, the style is the one before them. */
  lemma {:induction false} StyleAfterRowWithoutColor(style: Rgb, row: seq<string>, n: nat)
    requires n <= |row|
    requires forall m | 0 <= m < n :: ParseColor(row[m]).None?
    ensures StyleAfterRow(style, row, n) == style
    decreases n
  {
    if n > 0 {
      StyleAfterRowWithoutColor(style, row, n - 1);
    }
  }

  /** A cell whose entry the canvas understands is painted in the colour of that entry. */
  lemma CellStyleOfColor(style: Rgb, data: seq<seq<string>>, i: nat, j: nat)
    requires i < |data| && j < |data[i]| && ParseColor(data[i][j]).Some?
    ensures CellStyle(style, data, i, j) == ParseColor(data[i][j]).value
  {
  }
}
