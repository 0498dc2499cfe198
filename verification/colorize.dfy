/** `Colorize`: the duotone recolouring. Each source pixel becomes a blend of
    the foreground and background colours, weighted by how light it is;
    transparent pixels become the background. */
module Colorize {
  import opened Bytes
  import opened Results
  import opened Images
  import opened HexColor

  /** A blend weight: 0 selects the foreground, 1 the background. */
  type Weight = t: real | 0.0 <= t <= 1.0

  /** The gamma curve applied to the luminance; the program uses
      `math.Pow(_, 1.8)`, which the model leaves a parameter. */
  type Gamma = Weight -> Weight

  /** lerp(a, b, t) = uint8(a*(1-t) + b*t). The conversion truncates toward
      zero, which for a non-negative value is the floor. */
  function Lerp(a: uint8, b: uint8, t: Weight): (c: uint8)
    ensures a <= b ==> a <= c <= b
    ensures b <= a ==> b <= c <= a
    ensures t == 0.0 ==> c == a
    ensures t == 1.0 ==> c == b
  {
    LerpFloor(a, b, t);
    (a as real * (1.0 - t) + b as real * t).Floor
  }

  lemma LerpFloor(a: uint8, b: uint8, t: Weight)
    ensures var c := (a as real * (1.0 - t) + b as real * t).Floor;
      && (a <= b ==> a <= c <= b)
      && (b <= a ==> b <= c <= a)
      && (t == 0.0 ==> c == a)
      && (t == 1.0 ==> c == b)
  {
    var v := a as real * (1.0 - t) + b as real * t;
    var d := (b - a) as real;
    assert v == a as real + d * t;
    if a <= b {
      MulNonneg(d, t);
      MulNonneg(d, 1.0 - t);
      assert d * (1.0 - t) == d - d * t;
      FloorBetween(v, a, b);
    } else {
      MulNonneg(-d, t);
      MulNonneg(-d, 1.0 - t);
      assert (-d) * (1.0 - t) == d * t - d;
      assert (-d) * t == -(d * t);
      FloorBetween(v, b, a);
    }
    if t == 0.0 {
      assert v == a as real;
    }
    if t == 1.0 {
      assert v == b as real;
    }
  }

  lemma MulNonneg(x: real, y: real)
    requires 0.0 <= x && 0.0 <= y
    ensures 0.0 <= x * y
  {
  }

  lemma FloorBetween(v: real, lo: int, hi: int)
    requires lo as real <= v <= hi as real
    ensures lo <= v.Floor <= hi
  {
  }

  /** The perceptual luminance (0.299 r + 0.587 g + 0.114 b) / 255 of an
      8-bit colour. It is zero exactly for black; the weights are positive. */
  function Luminance(r: uint8, g: uint8, b: uint8): (l: Weight)
    ensures l == 0.0 <==> r == 0 && g == 0 && b == 0
  {
    (0.299 * r as real + 0.587 * g as real + 0.114 * b as real) / 255.0
  }

  /** The 8-bit channel Go reads from a 16-bit one: `v >> 8`. */
  function HighByte(v: uint16): (b: uint8)
    ensures b as int * 0x100 <= v as int < b as int * 0x100 + 0x100
  {
    v / 0x100
  }

  /** The body of Colorize's pixel loop: a transparent pixel becomes the
      background colour; any other pixel becomes, channel by channel, the
      blend of foreground and background at the gamma-corrected luminance
      of its high bytes, fully opaque. */
  function RecolorPixel(p: Rgba64, bg: Rgba, fg: Rgba, gamma: Gamma): (q: Rgba)
  {
    if p.a == 0 then bg
    else
      var t := gamma(Luminance(HighByte(p.r), HighByte(p.g), HighByte(p.b)));
      Rgba(Lerp(fg.r, bg.r, t), Lerp(fg.g, bg.g, t), Lerp(fg.b, bg.b, t), 255)
  }

  /** Every channel of a recoloured pixel lies between the foreground's and
      the background's value for that channel. */
  predicate BetweenColors(q: Rgba, bg: Rgba, fg: Rgba) {
    && (fg.r <= q.r <= bg.r || bg.r <= q.r <= fg.r)
    && (fg.g <= q.g <= bg.g || bg.g <= q.g <= fg.g)
    && (fg.b <= q.b <= bg.b || bg.b <= q.b <= fg.b)
  }

  /** A pixel that is not transparent and whose colour channels all have a
      zero high byte: black, as Colorize reads it. */
  predicate IsVisibleBlack(p: Rgba64) {
    p.a != 0 && p.r < 0x100 && p.g < 0x100 && p.b < 0x100
  }

  /** What the pixel loop promises of one pixel: a transparent pixel becomes
      exactly the background colour, whatever its colour channels hold; any
      other pixel becomes opaque with every channel between foreground and
      background; and a visible pure black pixel (high bytes all zero)
      becomes exactly the foreground colour, because its luminance is 0,
      0 to the power 1.8 is 0, and lerp(a, b, 0) = a. */
  lemma RecolorPixelMeaning(p: Rgba64, bg: Rgba, fg: Rgba, gamma: Gamma)
    ensures p.a == 0 ==> RecolorPixel(p, bg, fg, gamma) == bg
    ensures p.a != 0 ==> RecolorPixel(p, bg, fg, gamma).a == 255
    ensures p.a != 0 ==> BetweenColors(RecolorPixel(p, bg, fg, gamma), bg, fg)
    ensures IsVisibleBlack(p) && gamma(0.0) == 0.0 ==>
      RecolorPixel(p, bg, fg, gamma) == Rgba(fg.r, fg.g, fg.b, 255)
  {
  }

  /** A visible pixel's result depends only on the high bytes of its colour
      channels: not on its alpha and not on the low bytes. */
  lemma RecolorPixelHighBytesOnly(p: Rgba64, p': Rgba64, bg: Rgba, fg: Rgba, gamma: Gamma)
    requires p.a != 0 && p'.a != 0
    requires HighByte(p.r) == HighByte(p'.r) && HighByte(p.g) == HighByte(p'.g) && HighByte(p.b) == HighByte(p'.b)
    ensures RecolorPixel(p, bg, fg, gamma) == RecolorPixel(p', bg, fg, gamma)
  {
  }

  /** The pixel loop of Colorize: a new image with the source's bounds, each
      pixel recoloured on its own. Transparent pixels become exactly the
      background colour; every other pixel becomes opaque, lies between the
      two colours, and is exactly the foreground colour when it is black. */
  method Recolor(src: Image<Rgba64>, bg: Rgba, fg: Rgba, gamma: Gamma) returns (out: Image<Rgba>)
    requires src.Valid()
    ensures out.Valid() && out.width == src.width && out.height == src.height
    ensures forall x, y :: src.Contains(x, y) ==> out.At(x, y) == RecolorPixel(src.At(x, y), bg, fg, gamma)
    ensures forall x, y :: src.Contains(x, y) && src.At(x, y).a == 0 ==> out.At(x, y) == bg
    ensures forall x, y :: src.Contains(x, y) && src.At(x, y).a != 0 ==>
      out.At(x, y).a == 255 && BetweenColors(out.At(x, y), bg, fg)
    ensures gamma(0.0) == 0.0 ==> forall x, y :: src.Contains(x, y) && IsVisibleBlack(src.At(x, y)) ==>
      out.At(x, y) == Rgba(fg.r, fg.g, fg.b, 255)
  {
    var rows: seq<seq<Rgba>> := [];
    var y := 0;
    while y < src.height
      invariant 0 <= y <= src.height
      invariant |rows| == y
      invariant forall j :: 0 <= j < y ==> |rows[j]| == src.width
      invariant forall j, i :: 0 <= j < y && 0 <= i < src.width ==>
        rows[j][i] == RecolorPixel(src.rows[j][i], bg, fg, gamma)
    {
      var row: seq<Rgba> := [];
      var x := 0;
      while x < src.width
        invariant 0 <= x <= src.width
        invariant |row| == x
        invariant forall i :: 0 <= i < x ==> row[i] == RecolorPixel(src.rows[y][i], bg, fg, gamma)
      {
        row := row + [RecolorPixel(src.rows[y][x], bg, fg, gamma)];
        x := x + 1;
      }
      rows := rows + [row];
      y := y + 1;
    }
    out := Image(src.width, src.height, rows);
    forall x, y | src.Contains(x, y) {
      RecolorPixelMeaning(src.At(x, y), bg, fg, gamma);
    }
  }

  /** Colorize(inputPath, backgroundHex, foregroundHex, _) with the decoded
      image in hand: parse the background colour, then the foreground
      colour, and recolour every pixel. The result has the source's bounds
      and is fully opaque: transparent pixels take the background colour,
      whose alpha parsing fixed at 255. */
  method ColorizeImage(src: Image<Rgba64>, backgroundHex: GoString, foregroundHex: GoString, gamma: Gamma)
    returns (r: Result<Image<Rgba>, ImgError>)
    requires src.Valid()
    ensures r.Failure? <==> ParseHexColor(backgroundHex).Failure? || ParseHexColor(foregroundHex).Failure?
    ensures r.Failure? ==> r.error == InvalidColor
    ensures r.Success? ==> r.value.Valid() && r.value.width == src.width && r.value.height == src.height
    ensures r.Success? ==> forall x, y :: src.Contains(x, y) ==> r.value.At(x, y).a == 255
    ensures r.Success? ==> forall x, y :: src.Contains(x, y) ==>
      r.value.At(x, y) == RecolorPixel(src.At(x, y), ParseHexColor(backgroundHex).value, ParseHexColor(foregroundHex).value, gamma)
  {
    var bg := ParseHexColor(backgroundHex);
    if bg.Failure? {
      return Failure(bg.error);
    }
    var fg := ParseHexColor(foregroundHex);
    if fg.Failure? {
      return Failure(fg.error);
    }
    var out := Recolor(src, bg.value, fg.value, gamma);
    return Success(out);
  }
}
