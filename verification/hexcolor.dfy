/** `parseHexColor`: the six-digit form of the CSS hex colour notation
    (section 5.2 of CSS Color Module Level 4), with an optional '#'. */
module HexColor {
  import opened Bytes
  import opened Results
  import opened Strconv
  import opened Strings
  import opened Images

  /** A hexadecimal digit of either case, defined without reference to the
      digit table `ParseUint` uses. */
  predicate IsHexDigit(c: uint8) {
    (DIGIT_0 <= c <= DIGIT_9) || (LOWER_A <= c <= LOWER_A + 5) || (UPPER_A <= c <= UPPER_A + 5)
  }

  function HexDigitValue(c: uint8): (d: nat)
    requires IsHexDigit(c)
  {
    if c <= DIGIT_9 then c - DIGIT_0
    else if c >= LOWER_A then c - LOWER_A + 10
    else c - UPPER_A + 10
  }

  /** parseHexColor(s): strip one leading '#', demand exactly six bytes, and
      read them as three `ParseUint(_, 16, 8)` groups for red, green and blue;
      alpha is always 255. */
  function ParseHexColor(s: GoString): (r: Result<Rgba, ImgError>)
    ensures r.Success? ==> r.value.a == 255
    ensures r.Failure? ==> r.error == InvalidColor
  {
    var t := TrimPrefix(s, HASH);
    if |t| != 6 then Failure(InvalidColor)
    else
      match ParseUint(t[0..2], 16, 8)
      case None => Failure(InvalidColor)
      case Some(red) =>
        match ParseUint(t[2..4], 16, 8)
        case None => Failure(InvalidColor)
        case Some(green) =>
          match ParseUint(t[4..6], 16, 8)
          case None => Failure(InvalidColor)
          case Some(blue) => Success(Rgba(red, green, blue, 255))
  }

  /** Two hex digits, most significant first; `upper` picks the letter case. */
  function HexByte(v: uint8, upper: bool): GoString {
    [DigitByte(v / 16, upper), DigitByte(v % 16, upper)]
  }

  /** The colour as six hex digits, with or without a leading '#'. */
  function FormatHexColor(c: Rgba, upper: bool, hash: bool): (s: GoString)
    ensures |s| == if hash then 7 else 6
  {
    (if hash then [HASH] else []) + HexByte(c.r, upper) + HexByte(c.g, upper) + HexByte(c.b, upper)
  }

  /** A letter forced to the chosen case; other bytes unchanged. */
  function FoldCase(c: uint8, upper: bool): uint8 {
    if upper && LOWER_A <= c <= LOWER_Z then c - 0x20
    else if !upper && UPPER_A <= c <= UPPER_Z then c + 0x20
    else c
  }

  function FoldCaseAll(s: GoString, upper: bool): (t: GoString)
    ensures |t| == |s| && forall i :: 0 <= i < |s| ==> t[i] == FoldCase(s[i], upper)
  {
    seq(|s|, i requires 0 <= i < |s| => FoldCase(s[i], upper))
  }

  /** On hex digits the digit table of `ParseUint` agrees with HexDigitValue,
      and base 16 accepts exactly the hex digits. */
  lemma HexDigitAgrees(c: uint8)
    ensures IsDigit(c, 16) <==> IsHexDigit(c)
    ensures IsHexDigit(c) ==> DigitValue(c) == HexDigitValue(c)
  {
  }

  /** ParseUint(_, 16, 8) on two bytes succeeds exactly on two hex digits,
      and then never overflows: two hex digits are at most 0xFF. */
  lemma ParseHexPair(p: GoString)
    requires |p| == 2
    ensures ParseUint(p, 16, 8).Some? <==> IsHexDigit(p[0]) && IsHexDigit(p[1])
    ensures ParseUint(p, 16, 8).Some? ==>
      ParseUint(p, 16, 8).value == 16 * HexDigitValue(p[0]) + HexDigitValue(p[1])
  {
    HexDigitAgrees(p[0]);
    HexDigitAgrees(p[1]);
    if IsHexDigit(p[0]) && IsHexDigit(p[1]) {
      assert AllDigits(p, 16);
      assert p[..1] == [p[0]];
      assert [p[0]][..0] == [];
      var v := DigitsValue(p, 16);
      assert v == DigitsValue([p[0]], 16) * 16 + DigitValue(p[1]);
      DigitsValueBound(p, 16);
      assert v < Pow(16, 2) == 0x100;
    }
  }

  /** parseHexColor succeeds exactly when what is left after removing one
      optional '#' is six hex digits of either case, and then yields the
      three two-digit groups as red, green and blue with alpha 255. */
  lemma ParseHexColorMeaning(s: GoString)
    ensures var t := TrimPrefix(s, HASH);
      ParseHexColor(s).Success? <==> |t| == 6 && forall i :: 0 <= i < 6 ==> IsHexDigit(t[i])
    ensures var t := TrimPrefix(s, HASH);
      ParseHexColor(s).Success? ==> ParseHexColor(s).value == Rgba(
        16 * HexDigitValue(t[0]) + HexDigitValue(t[1]),
        16 * HexDigitValue(t[2]) + HexDigitValue(t[3]),
        16 * HexDigitValue(t[4]) + HexDigitValue(t[5]),
        255)
  {
    var t := TrimPrefix(s, HASH);
    if |t| == 6 {
      ParseHexPair(t[0..2]);
      ParseHexPair(t[2..4]);
      ParseHexPair(t[4..6]);
      if forall i :: 0 <= i < 6 ==> IsHexDigit(t[i]) {
      } else {
        var i :| 0 <= i < 6 && !IsHexDigit(t[i]);
        if i < 2 {
          assert t[i] == t[0..2][i];
        } else if i < 4 {
          assert t[i] == t[2..4][i - 2];
        } else {
          assert t[i] == t[4..6][i - 4];
        }
      }
    }
  }

  lemma HexByteDigits(v: uint8, upper: bool)
    ensures var p := HexByte(v, upper);
      IsHexDigit(p[0]) && IsHexDigit(p[1]) && 16 * HexDigitValue(p[0]) + HexDigitValue(p[1]) == v
  {
  }

  /** Writing a colour as six hex digits, in either case, with or without
      '#', and parsing the text gives the colour back with alpha 255. */
  lemma ParseFormatHexColor(c: Rgba, upper: bool, hash: bool)
    ensures ParseHexColor(FormatHexColor(c, upper, hash)) == Success(Rgba(c.r, c.g, c.b, 255))
  {
    var s := FormatHexColor(c, upper, hash);
    var t := HexByte(c.r, upper) + HexByte(c.g, upper) + HexByte(c.b, upper);
    assert s == (if hash then [HASH] else []) + t;
    HexByteDigits(c.r, upper);
    HexByteDigits(c.g, upper);
    HexByteDigits(c.b, upper);
    HexDigitAgrees(t[0]);
    assert TrimPrefix(s, HASH) == t;
    ParseHexColorMeaning(s);
  }

  /** Two hex digits read as a byte and written back come out case-folded. */
  lemma HexBytePair(d0: uint8, d1: uint8, upper: bool)
    requires IsHexDigit(d0) && IsHexDigit(d1)
    ensures HexByte(16 * HexDigitValue(d0) + HexDigitValue(d1), upper) == [FoldCase(d0, upper), FoldCase(d1, upper)]
  {
  }

  /** Parsing accepted text and writing the colour back in one letter case
      reproduces the six digits of the text, folded to that case. */
  lemma FormatParseHexColor(s: GoString, upper: bool)
    requires ParseHexColor(s).Success?
    ensures FormatHexColor(ParseHexColor(s).value, upper, false) == FoldCaseAll(TrimPrefix(s, HASH), upper)
  {
    ParseHexColorMeaning(s);
    FormatDigits(TrimPrefix(s, HASH), ParseHexColor(s).value, upper);
  }

  lemma FormatDigits(t: GoString, c: Rgba, upper: bool)
    requires |t| == 6 && forall i :: 0 <= i < 6 ==> IsHexDigit(t[i])
    requires c.r == 16 * HexDigitValue(t[0]) + HexDigitValue(t[1])
    requires c.g == 16 * HexDigitValue(t[2]) + HexDigitValue(t[3])
    requires c.b == 16 * HexDigitValue(t[4]) + HexDigitValue(t[5])
    ensures FormatHexColor(c, upper, false) == FoldCaseAll(t, upper)
  {
    HexBytePair(t[0], t[1], upper);
    HexBytePair(t[2], t[3], upper);
    HexBytePair(t[4], t[5], upper);
    assert FormatHexColor(c, upper, false) == HexByte(c.r, upper) + HexByte(c.g, upper) + HexByte(c.b, upper);
    assert FoldCaseAll(t, upper) ==
      [FoldCase(t[0], upper), FoldCase(t[1], upper)] +
      [FoldCase(t[2], upper), FoldCase(t[3], upper)] +
      [FoldCase(t[4], upper), FoldCase(t[5], upper)];
  }

  /** "#FF0000" is pure red, fully opaque. */
  lemma ParseHexColorRed()
    ensures ParseHexColor([HASH, 0x46, 0x46, 0x30, 0x30, 0x30, 0x30]) == Success(Rgba(255, 0, 0, 255))
  {
    ParseFormatHexColor(Rgba(255, 0, 0, 255), true, true);
    assert FormatHexColor(Rgba(255, 0, 0, 255), true, true) == [HASH, 0x46, 0x46, 0x30, 0x30, 0x30, 0x30];
  }
}
