/** `parseDimension`: a size written "<width>x<height>". */
module Dimension {
  import opened Bytes
  import opened Results
  import opened Strconv
  import opened Strings
  import opened Images

  datatype Dim = Dim(width: int, height: int)

  /** The text is a decimal number, optionally signed, whose value is
      greater than zero and fits in a 64-bit `int`. */
  predicate IsPositiveInt(p: GoString) {
    IsDecimalText(p) && 0 < DecimalTextValue(p) <= MaxInt
  }

  /** parseDimension(s): split on the lower-case 'x', demand exactly two
      pieces, and read each with Atoi, demanding a value above zero; the
      width is checked before the height. */
  function ParseDimension(s: GoString): (r: Result<Dim, ImgError>)
    ensures r.Success? ==> 0 < r.value.width <= MaxInt && 0 < r.value.height <= MaxInt
  {
    var parts := Split(s, LOWER_X);
    if |parts| != 2 then Failure(InvalidDimension)
    else
      match Atoi(parts[0])
      case None => Failure(InvalidWidth)
      case Some(w) =>
        if w <= 0 then Failure(InvalidWidth)
        else
          match Atoi(parts[1])
          case None => Failure(InvalidHeight)
          case Some(h) =>
            if h <= 0 then Failure(InvalidHeight)
            else Success(Dim(w, h))
  }

  /** The size written back as text, as Go's fmt would print "%dx%d". */
  function FormatDimension(d: Dim): GoString {
    Itoa(d.width) + [LOWER_X] + Itoa(d.height)
  }

  /** parseDimension succeeds exactly when s holds exactly one 'x' and the
      texts before and after it are positive ints, which it returns as width
      and height. Otherwise the error names the first check that failed:
      the count of 'x', then the width, then the height. */
  lemma ParseDimensionMeaning(s: GoString)
    ensures multiset(s)[LOWER_X] != 1 ==> ParseDimension(s) == Failure(InvalidDimension)
    ensures multiset(s)[LOWER_X] == 1 ==>
      var i := IndexOf(s, LOWER_X);
      var before, after := s[..i], s[i + 1..];
      && (!IsPositiveInt(before) ==> ParseDimension(s) == Failure(InvalidWidth))
      && (IsPositiveInt(before) && !IsPositiveInt(after) ==> ParseDimension(s) == Failure(InvalidHeight))
      && (IsPositiveInt(before) && IsPositiveInt(after) ==>
            ParseDimension(s) == Success(Dim(DecimalTextValue(before), DecimalTextValue(after))))
  {
    if multiset(s)[LOWER_X] == 1 {
      var i := IndexOf(s, LOWER_X);
      AtoiMeaning(s[..i]);
      AtoiMeaning(s[i + 1..]);
    }
  }

  /** Reading back a printed size with both sides positive gives the size. */
  lemma ParseFormatDimension(d: Dim)
    requires 0 < d.width <= MaxInt && 0 < d.height <= MaxInt
    ensures ParseDimension(FormatDimension(d)) == Success(d)
  {
    var a, b := Itoa(d.width), Itoa(d.height);
    NoLetterX(d.width);
    NoLetterX(d.height);
    SplitTwo(a, LOWER_X, b);
    AtoiItoa(d.width);
    AtoiItoa(d.height);
  }

  /** The decimal text of a positive number has no 'x' in it. */
  lemma NoLetterX(n: int)
    requires n > 0
    ensures LOWER_X !in Itoa(n)
  {
  }

  /** "100x50" is 100 wide and 50 high. */
  lemma ParseDimensionExample()
    ensures ParseDimension([0x31, 0x30, 0x30, LOWER_X, 0x35, 0x30]) == Success(Dim(100, 50))
  {
    assert FormatDimension(Dim(100, 50)) == [0x31, 0x30, 0x30, LOWER_X, 0x35, 0x30] by {
      assert Itoa(100) == [0x31, 0x30, 0x30];
      assert Itoa(50) == [0x35, 0x30];
    }
    ParseFormatDimension(Dim(100, 50));
  }

  /** "+7x007" is 7 by 7: Atoi takes a '+' sign and leading zeros. */
  lemma ParseDimensionSignAndZeros()
    ensures ParseDimension([PLUS, 0x37, LOWER_X, 0x30, 0x30, 0x37]) == Success(Dim(7, 7))
  {
    var w: GoString := [PLUS, 0x37];
    var h: GoString := [0x30, 0x30, 0x37];
    AtoiPlusZeros(7, 0);
    AtoiPlusZeros(7, 2);
    assert Itoa(7) == [0x37];
    assert [PLUS] + seq(0, _ => DIGIT_0) + Itoa(7) == w;
    assert [PLUS] + seq(2, _ => DIGIT_0) + Itoa(7) == [PLUS] + h;
    assert Atoi(h) == Some(7) by {
      assert ([PLUS] + h)[1..] == h;
    }
    assert [PLUS, 0x37, LOWER_X, 0x30, 0x30, 0x37] == w + [LOWER_X] + h;
    SplitTwo(w, LOWER_X, h);
  }

  /** Only the lower-case 'x' separates: "100X50" is one piece, and
      "1x2x3" three. */
  lemma ParseDimensionSeparatorCount()
    ensures ParseDimension([0x31, 0x30, 0x30, 0x58, 0x35, 0x30]) == Failure(InvalidDimension)
    ensures ParseDimension([0x31, LOWER_X, 0x32, LOWER_X, 0x33]) == Failure(InvalidDimension)
  {
  }

  /** "0x5" and "x5" have no positive width. */
  lemma ParseDimensionBadWidth()
    ensures ParseDimension([0x30, LOWER_X, 0x35]) == Failure(InvalidWidth)
    ensures ParseDimension([LOWER_X, 0x35]) == Failure(InvalidWidth)
  {
    assert [0x30, LOWER_X, 0x35] == [0x30] + [LOWER_X] + [0x35];
    SplitTwo([0x30], LOWER_X, [0x35]);
    assert [LOWER_X, 0x35] == [] + [LOWER_X] + [0x35];
    SplitTwo([], LOWER_X, [0x35]);
  }

  /** "5x-5" has a negative height. */
  lemma ParseDimensionBadHeight()
    ensures ParseDimension([0x35, LOWER_X, MINUS, 0x35]) == Failure(InvalidHeight)
  {
    var w: GoString := [0x35];
    var h: GoString := [MINUS, 0x35];
    assert Atoi(w) == Some(5);
    assert Atoi(h) == Some(-5) by {
      assert h[1..] == w;
    }
    assert [0x35, LOWER_X, MINUS, 0x35] == w + [LOWER_X] + h;
    SplitTwo(w, LOWER_X, h);
  }
}
