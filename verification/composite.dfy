/** `CompositeCenter`: the recoloured comic drawn centred on the background. */
module Composite {
  import opened Results
  import opened Images

  function Abs(n: int): int {
    if n < 0 then -n else n
  }

  /** Go's integer division, which truncates toward zero; Dafny's `/` is
      Euclidean and rounds -1 / 2 down to -1 where Go gives 0. */
  function GoDiv(a: int, b: int): (q: int)
    requires b != 0
    ensures a >= 0 ==> 0 <= a - q * b < Abs(b)
    ensures a < 0 ==> -Abs(b) < a - q * b <= 0
  {
    if a >= 0 && b > 0 then a / b
    else if a >= 0 then -(a / -b)
    else if b > 0 then -(-a / b)
    else -a / -b
  }

  /** The offset that centres a span of length inner in a span of length
      outer: (outer - inner) / 2, truncated toward zero. Twice the offset is
      the slack itself, or the slack moved one step toward zero when it is
      odd. */
  function CenterOffset(outer: int, inner: int): (off: int)
    ensures inner <= outer ==> 0 <= (outer - inner) - 2 * off <= 1
    ensures outer < inner ==> -1 <= (outer - inner) - 2 * off <= 0
  {
    GoDiv(outer - inner, 2)
  }

  /** The offset is negative exactly when the inner span is at least two
      longer than the outer one: one longer still gives offset 0, because
      -1 / 2 truncates to 0. */
  lemma CenterOffsetSign(outer: int, inner: int)
    ensures CenterOffset(outer, inner) < 0 <==> inner > outer + 1
    ensures inner == outer + 1 ==> CenterOffset(outer, inner) == 0
  {
  }

  /** When the inner span fits, the offset centres it: the margin after it
      is the margin before it, or one more when the slack is odd. */
  lemma CenterOffsetCentres(outer: int, inner: int)
    requires inner <= outer
    ensures var off := CenterOffset(outer, inner);
      0 <= off && off <= outer - inner - off <= off + 1
  {
  }

  /** draw.Over for a source pixel that is not fully opaque: the library's
      16-bit premultiplied blend, which the model leaves a parameter. */
  type Blend = (Rgba, Rgba) -> Rgba

  /** draw.Over of one source pixel onto one destination pixel: an opaque
      source replaces the destination exactly. */
  function Over(src: Rgba, dst: Rgba, blend: Blend): (p: Rgba)
    ensures src.a == 255 ==> p == src
  {
    if src.a == 255 then src else blend(src, dst)
  }

  /** The rectangle with corner (ox, oy) and the size of src. */
  predicate InRect(x: int, y: int, ox: int, oy: int, src: Image<Rgba>) {
    ox <= x < ox + src.width && oy <= y < oy + src.height
  }

  /** draw.Draw(dst, r, src, src.Bounds().Min, draw.Over) for r the rectangle
      at (ox, oy) with src's size: the rectangle is clipped to dst's bounds,
      each dst pixel inside it gets the matching src pixel composited over
      it, and every other pixel keeps its value. */
  function DrawOver(dst: Image<Rgba>, ox: int, oy: int, src: Image<Rgba>, blend: Blend): (out: Image<Rgba>)
    requires dst.Valid() && src.Valid()
    ensures out.Valid() && out.width == dst.width && out.height == dst.height
    ensures forall x, y :: dst.Contains(x, y) && !InRect(x, y, ox, oy, src) ==> out.At(x, y) == dst.At(x, y)
    ensures forall x, y :: dst.Contains(x, y) && InRect(x, y, ox, oy, src) ==>
      out.At(x, y) == Over(src.At(x - ox, y - oy), dst.At(x, y), blend)
  {
    Image(dst.width, dst.height,
      seq(dst.height, y requires 0 <= y < dst.height =>
        seq(dst.width, x requires 0 <= x < dst.width =>
          if InRect(x, y, ox, oy, src) then Over(src.rows[y - oy][x - ox], dst.rows[y][x], blend)
          else dst.rows[y][x])))
  }

  /** CompositeCenter(fgPath, bgPath, _) with both images decoded: the output
      starts as a copy of the background, the centring offsets are computed
      with truncating division, a negative offset is an error, and otherwise
      the foreground is drawn over the output at the offsets. */
  function CompositeCenter(fg: Image<Rgba>, bg: Image<Rgba>, blend: Blend): (r: Result<Image<Rgba>, ImgError>)
    requires fg.Valid() && bg.Valid()
    ensures r.Failure? <==> fg.width > bg.width + 1 || fg.height > bg.height + 1
    ensures r.Failure? ==> r.error == ForegroundTooLarge
    ensures r.Success? ==> r.value.Valid() && r.value.width == bg.width && r.value.height == bg.height
    ensures r.Success? ==>
      var ox, oy := CenterOffset(bg.width, fg.width), CenterOffset(bg.height, fg.height);
      forall x, y :: bg.Contains(x, y) && !InRect(x, y, ox, oy, fg) ==> r.value.At(x, y) == bg.At(x, y)
    ensures r.Success? ==>
      var ox, oy := CenterOffset(bg.width, fg.width), CenterOffset(bg.height, fg.height);
      forall x, y :: bg.Contains(x, y) && InRect(x, y, ox, oy, fg) && fg.At(x - ox, y - oy).a == 255 ==>
        r.value.At(x, y) == fg.At(x - ox, y - oy)
  {
    CenterOffsetSign(bg.width, fg.width);
    CenterOffsetSign(bg.height, fg.height);
    var out := bg;
    var ox := CenterOffset(bg.width, fg.width);
    var oy := CenterOffset(bg.height, fg.height);
    if ox < 0 || oy < 0 then Failure(ForegroundTooLarge)
    else Success(DrawOver(out, ox, oy, fg, blend))
  }

  /** Every pixel of an opaque image has alpha 255; the recoloured comic is one. */
  predicate Opaque(img: Image<Rgba>)
    requires img.Valid()
  {
    forall x, y :: 0 <= x < img.width && 0 <= y < img.height ==> img.At(x, y).a == 255
  }

  /** With an opaque foreground the blend arithmetic for translucent pixels
      plays no part: any two blends give the same composite. */
  lemma CompositeOpaqueIgnoresBlend(fg: Image<Rgba>, bg: Image<Rgba>, blend: Blend, blend': Blend)
    requires fg.Valid() && bg.Valid() && Opaque(fg)
    ensures CompositeCenter(fg, bg, blend) == CompositeCenter(fg, bg, blend')
  {
    var r, r' := CompositeCenter(fg, bg, blend), CompositeCenter(fg, bg, blend');
    if r.Success? {
      var ox, oy := CenterOffset(bg.width, fg.width), CenterOffset(bg.height, fg.height);
      forall y | 0 <= y < bg.height
        ensures r.value.rows[y] == r'.value.rows[y]
      {
        forall x | 0 <= x < bg.width
          ensures r.value.rows[y][x] == r'.value.rows[y][x]
        {
          if InRect(x, y, ox, oy, fg) {
            assert fg.At(x - ox, y - oy).a == 255;
          }
          assert r.value.At(x, y) == r'.value.At(x, y);
        }
      }
      assert r.value.rows == r'.value.rows;
    }
  }

  /** A 100-by-100 comic on a 200-by-200 background sits at (50, 50); a
      comic 250 wide is rejected; a comic 201 wide on a 200-wide background
      is accepted at offset 0 and its last column is clipped away. */
  lemma CompositeCenterExamples(fg: Image<Rgba>, bg: Image<Rgba>, blend: Blend)
    requires fg.Valid() && bg.Valid()
    ensures bg.width == 200 && bg.height == 200 && fg.width == 100 && fg.height == 100 ==>
      CompositeCenter(fg, bg, blend).Success? && CenterOffset(200, 100) == 50
    ensures bg.width == 200 && fg.width == 250 ==> CompositeCenter(fg, bg, blend) == Failure(ForegroundTooLarge)
    ensures bg.width == 200 && fg.width == 201 && fg.height <= bg.height ==>
      CompositeCenter(fg, bg, blend).Success? && CenterOffset(200, 201) == 0
  {
  }
}
