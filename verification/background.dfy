/** `MakeBackground`: a solid canvas of the configured size and colour. */
module Background {
  import opened Bytes
  import opened Results
  import opened Images
  import opened HexColor
  import opened Dimension

  /** The fill loop: a width-by-height image with every pixel set to c. */
  method Fill(width: nat, height: nat, c: Rgba) returns (img: Image<Rgba>)
    ensures img.Valid() && img.width == width && img.height == height
    ensures forall x, y :: img.Contains(x, y) ==> img.At(x, y) == c
  {
    var rows: seq<seq<Rgba>> := [];
    var y := 0;
    while y < height
      invariant 0 <= y <= height
      invariant |rows| == y
      invariant forall j :: 0 <= j < y ==> |rows[j]| == width
      invariant forall j, i :: 0 <= j < y && 0 <= i < width ==> rows[j][i] == c
    {
      var row: seq<Rgba> := [];
      var x := 0;
      while x < width
        invariant 0 <= x <= width
        invariant |row| == x
        invariant forall i :: 0 <= i < x ==> row[i] == c
      {
        row := row + [c];
        x := x + 1;
      }
      rows := rows + [row];
      y := y + 1;
    }
    img := Image(width, height, rows);
  }

  /** MakeBackground(dimension, bgHex, _) without the PNG file: the size is
      checked before the colour, so a bad size is reported even when the
      colour is bad too; on success every pixel of the width-by-height
      canvas is the parsed colour, fully opaque. */
  method MakeBackground(dimension: GoString, bgHex: GoString) returns (r: Result<Image<Rgba>, ImgError>)
    ensures ParseDimension(dimension).Failure? ==> r == Failure(ParseDimension(dimension).error)
    ensures ParseDimension(dimension).Success? && ParseHexColor(bgHex).Failure? ==> r == Failure(InvalidColor)
    ensures r.Success? <==> ParseDimension(dimension).Success? && ParseHexColor(bgHex).Success?
    ensures r.Success? ==>
      && r.value.Valid()
      && r.value.width == ParseDimension(dimension).value.width
      && r.value.height == ParseDimension(dimension).value.height
    ensures r.Success? ==> forall x, y :: r.value.Contains(x, y) ==>
      r.value.At(x, y) == ParseHexColor(bgHex).value && r.value.At(x, y).a == 255
  {
    var dim := ParseDimension(dimension);
    if dim.Failure? {
      return Failure(dim.error);
    }
    var bg := ParseHexColor(bgHex);
    if bg.Failure? {
      return Failure(bg.error);
    }
    var img := Fill(dim.value.width, dim.value.height, bg.value);
    return Success(img);
  }
}
