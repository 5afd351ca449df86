/**
 * The `rgbToHex` helper of the widget: it takes a colour as CSS text, as a
 * browser writes it back (`rgb(255, 0, 17)`), and turns it into `#` and
 * three hexadecimal components.
 */
module ColorConversion {
  import opened Wrappers
  import opened NumberText

  /**
   * What a call of rgbToHex ends in: it returns `undefined`, returns a
   * string, or throws a TypeError because the regular expression did not
   * match and the code indexes into the null it got back.
   */
  datatype Conversion = Undefined | Converted(hex: string) | NullMatch

  /** The three numbers captured by the regular expression, parsed in base 10. */
  datatype Triple = Triple(r: nat, g: nat, b: nat)

  /** `s.indexOf(t) >= 0`: t occurs in s (case-sensitive). */
  predicate Contains(s: string, t: string)
    decreases |s|
  {
    t <= s || (|s| > 0 && Contains(s[1..], t))
  }

  /** Contains agrees with "t is a prefix of some suffix of s". */
  lemma {:induction false} ContainsIff(s: string, t: string)
    ensures Contains(s, t) <==> exists i | 0 <= i <= |s| :: t <= s[i..]
    decreases |s|
  {
    if t <= s {
      assert s[0..] == s;
    } else if |s| > 0 {
      ContainsIff(s[1..], t);
      if Contains(s[1..], t) {
        var i :| 0 <= i <= |s| - 1 && t <= s[1..][i..];
        assert s[1..][i..] == s[i + 1..];
      } else {
        forall i | 0 <= i <= |s| ensures !(t <= s[i..]) {
          if i > 0 {
            assert s[1..][i - 1..] == s[i..];
          }
        }
      }
    } else {
      forall i | 0 <= i <= |s| ensures !(t <= s[i..]) {
        assert s[i..] == s;
      }
    }
  }

  /**
   * The class `\s` of JavaScript regular expressions: the WhiteSpace and
   * LineTerminator code points of ECMAScript.
   */
  predicate IsRegExpSpace(c: char)
  {
    var n := c as int;
    n == 0x09 || n == 0x0A || n == 0x0B || n == 0x0C || n == 0x0D || n == 0x20 ||
    n == 0xA0 || n == 0x1680 || (0x2000 <= n <= 0x200A) || n == 0x2028 || n == 0x2029 ||
    n == 0x202F || n == 0x205F || n == 0x3000 || n == 0xFEFF
  }

  /** The length of the longest prefix of s made of decimal digits (`\d` is ASCII only). */
  function DigitRun(s: string): (n: nat)
    ensures n <= |s|
    ensures forall i | 0 <= i < n :: IsDecimalDigit(s[i])
    ensures n < |s| ==> !IsDecimalDigit(s[n])
  {
    if s != [] && IsDecimalDigit(s[0]) then 1 + DigitRun(s[1..]) else 0
  }

  /** The length of the longest prefix of s made of `\s` characters. */
  function SpaceRun(s: string): (n: nat)
    ensures n <= |s|
    ensures forall i | 0 <= i < n :: IsRegExpSpace(s[i])
    ensures n < |s| ==> !IsRegExpSpace(s[n])
  {
    if s != [] && IsRegExpSpace(s[0]) then 1 + SpaceRun(s[1..]) else 0
  }

  /**
   * The group `(\d+)` at the start of s: the number it captures, read by
   * `parseInt(…, 10)`, and the text after it. The repetition is greedy, and
   * giving a digit back could not help, as the pattern goes on with `,` or
   * `)`, so the longest run of digits is the only way to match.
   */
  function Number(s: string): Option<(nat, string)>
  {
    var n := DigitRun(s);
    if n == 0 then None
    else
      assert IsDigitsOf(s[..n], 10) by {
        forall i | 0 <= i < n ensures IsHexDigit(s[..n][i]) && DigitValue(s[..n][i]) < 10 {
          assert IsDecimalDigit(s[i]);
        }
      }
      Some((Value(s[..n], 10), s[n..]))
  }

  /**
   * `,\s*(\d+)` at the start of s. Spaces are skipped greedily; giving one
   * back could not help, as a digit must follow.
   */
  function CommaNumber(s: string): Option<(nat, string)>
  {
    if s != [] && s[0] == ',' then Number(s[1..][SpaceRun(s[1..])..]) else None
  }

  /**
   * `rgb\((\d+),\s*(\d+),\s*(\d+)\)` with the `i` flag, tried at the start
   * of s: the letters r, g and b may be of either case.
   */
  function MatchAt(s: string): Option<Triple>
  {
    if |s| >= 4 && s[0] in "rR" && s[1] in "gG" && s[2] in "bB" && s[3] == '(' then
      match Number(s[4..])
      case None => None
      case Some((r, afterRed)) =>
        match CommaNumber(afterRed)
        case None => None
        case Some((g, afterGreen)) =>
          match CommaNumber(afterGreen)
          case None => None
          case Some((b, afterBlue)) =>
            if afterBlue != [] && afterBlue[0] == ')' then Some(Triple(r, g, b)) else None
    else None
  }

  /**
   * The groups 2 to 4 that `/(.*?)rgb\((\d+),\s*(\d+),\s*(\d+)\)/i.exec(s)`
   * captures, or None where exec returns null. They are those of the first
   * position of s at which the tail of the pattern matches: the lazy
   * `(.*?)` tries the positions in order, and although it cannot run across
   * a line terminator, the attempt that starts just after the last line
   * terminator before that position reaches it, and every earlier start
   * fails, so exec reports the same groups.
   */
  function FirstMatch(s: string): (m: Option<Triple>)
    ensures m.None? <==> forall p | 0 <= p <= |s| :: MatchAt(s[p..]).None?
    ensures m.Some? ==> exists p | 0 <= p <= |s| ::
      MatchAt(s[p..]) == m && forall q | 0 <= q < p :: MatchAt(s[q..]).None?
    decreases |s|
  {
    assert s[0..] == s;
    if MatchAt(s).Some? then MatchAt(s)
    else if s == [] then None
    else
      var m := FirstMatch(s[1..]);
      assert forall p | 1 <= p <= |s| :: s[1..][p - 1..] == s[p..];
      if m.Some? then
        var p :| 0 <= p <= |s| - 1 && MatchAt(s[1..][p..]) == m &&
          forall q | 0 <= q < p :: MatchAt(s[1..][q..]).None?;
        assert MatchAt(s[p + 1..]) == m;
        m
      else
        m
  }

  /** A hexadecimal component, left-padded with `0` only when it has a single digit. */
  function PadHex(h: string): string
  {
    if |h| == 1 then "0" + h else h
  }

  /** `#` followed by the three components in padded lowercase hexadecimal. */
  function HexTriple(r: nat, g: nat, b: nat): string
  {
    "#" + PadHex(ToText(r, 16)) + PadHex(ToText(g, 16)) + PadHex(ToText(b, 16))
  }

  /**
   * rgbToHex: `undefined` unless the text contains `rgb` (this also rejects
   * the empty text); the text itself when it starts with `#`; otherwise the
   * three captured numbers in padded hexadecimal, or a TypeError when the
   * regular expression does not match.
   */
  function RgbToHex(color: string): (result: Conversion)
    ensures result.Undefined? <==> forall i | 0 <= i <= |color| :: !("rgb" <= color[i..])
    ensures result.NullMatch? ==> forall p | 0 <= p <= |color| :: MatchAt(color[p..]).None?
    ensures !result.Undefined? && color[0] == '#' ==> result == Converted(color)
    ensures !result.Undefined? && color[0] != '#' && FirstMatch(color).Some? ==>
      result == Converted(HexTriple(FirstMatch(color).value.r, FirstMatch(color).value.g, FirstMatch(color).value.b))
  {
    ContainsIff(color, "rgb");
    if !Contains(color, "rgb") then Undefined
    else if color[0] == '#' then Converted(color)
    else
      match FirstMatch(color)
      case None => NullMatch
      case Some(t) => Converted(HexTriple(t.r, t.g, t.b))
  }

  /** A digit run ends where its digits end. */
  lemma {:induction false} DigitRunOf(digits: string, rest: string)
    requires forall i | 0 <= i < |digits| :: IsDecimalDigit(digits[i])
    requires rest == [] || !IsDecimalDigit(rest[0])
    ensures DigitRun(digits + rest) == |digits|
    decreases |digits|
  {
    if digits == [] {
      assert digits + rest == rest;
    } else {
      assert (digits + rest)[1..] == digits[1..] + rest;
      DigitRunOf(digits[1..], rest);
    }
  }

  /** A space run ends where its spaces end. */
  lemma {:induction false} SpaceRunOf(spaces: string, rest: string)
    requires forall i | 0 <= i < |spaces| :: IsRegExpSpace(spaces[i])
    requires rest == [] || !IsRegExpSpace(rest[0])
    ensures SpaceRun(spaces + rest) == |spaces|
    decreases |spaces|
  {
    if spaces == [] {
      assert spaces + rest == rest;
    } else {
      assert (spaces + rest)[1..] == spaces[1..] + rest;
      SpaceRunOf(spaces[1..], rest);
    }
  }

  /** The group `(\d+)` captures the decimal text of n and parses it back to n. */
  lemma NumberOf(n: nat, rest: string)
    requires rest == [] || !IsDecimalDigit(rest[0])
    ensures Number(ToText(n, 10) + rest) == Some((n, rest))
  {
    var digits := ToText(n, 10);
    forall i | 0 <= i < |digits| ensures IsDecimalDigit(digits[i]) {
      assert DigitValue(digits[i]) < 10;
    }
    DigitRunOf(digits, rest);
    assert (digits + rest)[..|digits|] == digits;
    assert (digits + rest)[|digits|..] == rest;
    ValueOfToText(n, 10);
  }

  /** `,\s*(\d+)` reads a comma, any `\s` characters and the decimal text of n. */
  lemma CommaNumberOf(spaces: string, n: nat, rest: string)
    requires forall i | 0 <= i < |spaces| :: IsRegExpSpace(spaces[i])
    requires rest == [] || !IsDecimalDigit(rest[0])
    ensures CommaNumber("," + spaces + ToText(n, 10) + rest) == Some((n, rest))
  {
    var digits := ToText(n, 10);
    var tail := digits + rest;
    var s := "," + spaces + digits + rest;
    assert s[1..] == spaces + tail by {
      assert s == "," + (spaces + tail);
    }
    assert !IsRegExpSpace(tail[0]) by {
      assert tail[0] == digits[0];
      assert IsDecimalDigit(digits[0]) by {
        assert DigitValue(digits[0]) < 10;
      }
    }
    SpaceRunOf(spaces, tail);
    assert (spaces + tail)[|spaces|..] == tail;
    NumberOf(n, rest);
  }

  /** The text `r,<spaces>g,<spaces>b)` followed by anything, with r, g and b in decimal. */
  function RgbArguments(r: nat, g: nat, b: nat, spaces1: string, spaces2: string, rest: string): string
  {
    ToText(r, 10) + "," + spaces1 + ToText(g, 10) + "," + spaces2 + ToText(b, 10) + ")" + rest
  }

  /** The text `rgb(r,<spaces>g,<spaces>b)` followed by anything. */
  function RgbCall(r: nat, g: nat, b: nat, spaces1: string, spaces2: string, rest: string): string
  {
    "rgb(" + RgbArguments(r, g, b, spaces1, spaces2, rest)
  }

  /** The tail of the regular expression matches when its pieces match one after another. */
  lemma MatchAtPieces(s: string, r: nat, g: nat, b: nat, afterRed: string, afterGreen: string, afterBlue: string)
    requires |s| >= 4 && s[0] == 'r' && s[1] == 'g' && s[2] == 'b' && s[3] == '('
    requires Number(s[4..]) == Some((r, afterRed))
    requires CommaNumber(afterRed) == Some((g, afterGreen))
    requires CommaNumber(afterGreen) == Some((b, afterBlue))
    requires afterBlue != [] && afterBlue[0] == ')'
    ensures MatchAt(s) == Some(Triple(r, g, b))
  {
  }

  /** The text `rgb(` followed by the arguments. */
  lemma RgbOpening(arguments: string)
    ensures var s := "rgb(" + arguments;
      |s| >= 4 && s[0] == 'r' && s[1] == 'g' && s[2] == 'b' && s[3] == '(' && s[4..] == arguments && "rgb" <= s
  {
  }

  /** A text starting with a match of the tail of the regular expression converts what that match captures. */
  lemma ConvertsAtStart(color: string, t: Triple)
    requires "rgb" <= color && color[0] != '#' && MatchAt(color) == Some(t)
    ensures RgbToHex(color) == Converted(HexTriple(t.r, t.g, t.b))
  {
    assert color[0..] == color;
  }

  /** The tail of the regular expression matches an RgbCall text at its start and captures r, g and b. */
  lemma MatchAtRgbCall(r: nat, g: nat, b: nat, spaces1: string, spaces2: string, rest: string)
    requires forall i | 0 <= i < |spaces1| :: IsRegExpSpace(spaces1[i])
    requires forall i | 0 <= i < |spaces2| :: IsRegExpSpace(spaces2[i])
    ensures MatchAt(RgbCall(r, g, b, spaces1, spaces2, rest)) == Some(Triple(r, g, b))
  {
    var tail := ")" + rest;
    var afterGreen := "," + spaces2 + ToText(b, 10) + tail;
    var afterRed := "," + spaces1 + ToText(g, 10) + afterGreen;
    var arguments := RgbArguments(r, g, b, spaces1, spaces2, rest);
    assert arguments == ToText(r, 10) + afterRed;
    NumberOf(r, afterRed);
    CommaNumberOf(spaces1, g, afterGreen);
    CommaNumberOf(spaces2, b, tail);
    RgbOpening(arguments);
    MatchAtPieces("rgb(" + arguments, r, g, b, afterRed, afterGreen, tail);
  }

  /**
   * An RgbCall text converts to `#` and each component in lowercase
   * hexadecimal, padded to two digits only when it has one.
   */
  lemma RgbCallConverts(r: nat, g: nat, b: nat, spaces1: string, spaces2: string, rest: string)
    requires forall i | 0 <= i < |spaces1| :: IsRegExpSpace(spaces1[i])
    requires forall i | 0 <= i < |spaces2| :: IsRegExpSpace(spaces2[i])
    ensures RgbToHex(RgbCall(r, g, b, spaces1, spaces2, rest)) == Converted(HexTriple(r, g, b))
  {
    MatchAtRgbCall(r, g, b, spaces1, spaces2, rest);
    RgbOpening(RgbArguments(r, g, b, spaces1, spaces2, rest));
    ConvertsAtStart(RgbCall(r, g, b, spaces1, spaces2, rest), Triple(r, g, b));
  }

  /**
   * A component below 256 becomes exactly two lowercase hexadecimal digits
   * (a leading `0` is added to a single digit); from 256 on there is no
   * range check, and the component keeps its three or more digits unpadded.
   */
  lemma HexComponent(n: nat)
    ensures n < 256 ==> PadHex(ToText(n, 16)) == [DigitChar(n / 16), DigitChar(n % 16)]
    ensures 256 <= n ==> PadHex(ToText(n, 16)) == ToText(n, 16) && |ToText(n, 16)| >= 3
  {
    HexLength(n);
    if n < 256 {
      HexDigitsOfByte(n);
    }
  }

  /** No match can start at or after position k when no `r` or `R` occurs there. */
  lemma NoMatchFrom(s: string, k: nat)
    requires k <= |s| && 'r' !in s[k..] && 'R' !in s[k..]
    ensures forall p | k <= p <= |s| :: MatchAt(s[p..]).None?
  {
    forall p | k <= p < |s| ensures MatchAt(s[p..]).None? {
      assert s[p] == s[k..][p - k];
    }
  }

  /** A text in which `r` or `g` never occurs has no `rgb` in it, so it converts to undefined. */
  lemma UndefinedWithoutLetters(color: string)
    requires 'r' !in color || 'g' !in color
    ensures RgbToHex(color) == Undefined
  {
    forall i | 0 <= i <= |color| ensures !("rgb" <= color[i..]) {
      if i + 1 < |color| {
        assert color[i] in color && color[i + 1] in color;
      }
    }
  }

  /** `rgb(255, 0, 17)` converts to `#ff0011`. */
  lemma ConvertsExample()
    ensures RgbToHex("rgb(255, 0, 17)") == Converted("#ff0011")
  {
    ConvertsExampleText();
    ConvertsExampleHex();
    RgbCallConverts(255, 0, 17, " ", " ", "");
  }

  lemma ConvertsExampleText()
    ensures RgbCall(255, 0, 17, " ", " ", "") == "rgb(255, 0, 17)"
  {
    assert ToText(255, 10) == "255" && ToText(17, 10) == "17" && ToText(0, 10) == "0";
  }

  lemma ConvertsExampleHex()
    ensures HexTriple(255, 0, 17) == "#ff0011"
  {
    var red, green, blue := PadHex(ToText(255, 16)), PadHex(ToText(0, 16)), PadHex(ToText(17, 16));
    assert red == "ff" && green == "00" && blue == "11";
    assert HexTriple(255, 0, 17) == "#" + red + green + blue;
    assert "#" + "ff" + "00" + "11" == "#ff0011";
  }

  /** A component above 255 is neither rejected nor clipped: `rgb(256, 0, 0)` converts to `#1000000`. */
  lemma OutOfRangeExample()
    ensures RgbToHex("rgb(256, 0, 0)") == Converted("#1000000")
  {
    OutOfRangeExampleText();
    OutOfRangeExampleHex();
    RgbCallConverts(256, 0, 0, " ", " ", "");
  }

  lemma OutOfRangeExampleText()
    ensures RgbCall(256, 0, 0, " ", " ", "") == "rgb(256, 0, 0)"
  {
    assert ToText(256, 10) == "256" && ToText(0, 10) == "0";
  }

  lemma OutOfRangeExampleHex()
    ensures HexTriple(256, 0, 0) == "#1000000"
  {
    assert ToText(1, 16) == "1";
    assert ToText(16, 16) == "10";
    assert ToText(256, 16) == "100";
    var red, other := PadHex(ToText(256, 16)), PadHex(ToText(0, 16));
    assert red == "100" && other == "00";
    assert HexTriple(256, 0, 0) == "#" + red + other + other;
    assert "#" + "100" + "00" + "00" == "#1000000";
  }

  /**
   * The check for `rgb` comes first: the empty text, a colour name and a
   * hexadecimal colour are all undefined, while a `#` text containing `rgb`
   * is returned unchanged.
   */
  lemma UndefinedExamples()
    ensures RgbToHex("") == Undefined
    ensures RgbToHex("purple") == Undefined
    ensures RgbToHex("#abcdef") == Undefined
    ensures RgbToHex("#rgb") == Converted("#rgb")
  {
    UndefinedWithoutLetters("");
    UndefinedWithoutLetters("purple");
    UndefinedWithoutLetters("#abcdef");
    var hashRgb := "#rgb";
    assert "rgb" <= hashRgb[1..];
  }

  /**
   * A text that contains `rgb`, does not start with `#`, and at no position
   * matches the tail of the regular expression makes rgbToHex throw.
   */
  lemma NullMatchWhen(color: string)
    requires exists i | 0 <= i <= |color| :: "rgb" <= color[i..]
    requires color == [] || color[0] != '#'
    requires forall p | 0 <= p <= |color| :: MatchAt(color[p..]).None?
    ensures RgbToHex(color) == NullMatch
  {
  }

  /** `rgba` followed by text without `r` or `R` contains `rgb` but never matches: the call throws. */
  lemma RgbaThrows(arguments: string)
    requires 'r' !in arguments && 'R' !in arguments
    ensures RgbToHex("rgba" + arguments) == NullMatch
  {
    var color := "rgba" + arguments;
    assert color[0..] == color && "rgb" <= color;
    assert color[3] == 'a';
    assert color[4..] == arguments;
    assert 'r' !in color[1..] && 'R' !in color[1..] by {
      assert color[1..] == "gba" + arguments;
    }
    NoMatchFrom(color, 1);
    NullMatchWhen(color);
  }

  /** `rgba(1, 2, 3, 0.5)` contains `rgb` but does not match the regular expression: the call throws. */
  lemma NullMatchExample()
    ensures RgbToHex("rgba(1, 2, 3, 0.5)") == NullMatch
  {
    var arguments := "(1, 2, 3, 0.5)";
    AlphaArguments(arguments);
    RgbaThrows(arguments);
    assert "rgba" + arguments == "rgba(1, 2, 3, 0.5)";
  }

  lemma AlphaArguments(arguments: string)
    requires arguments == "(1, 2, 3, 0.5)"
    ensures 'r' !in arguments && 'R' !in arguments
  {
  }
}
