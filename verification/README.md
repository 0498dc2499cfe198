# xkcd-wall image pipeline, modelled in Dafny

xkcd-wall turns a webcomic into a desktop wallpaper. It recolours the comic
with a two-colour duotone, builds a solid background canvas of the configured
size, and draws the recoloured comic centred on that canvas. This project
models the pure image logic of `xkcd/img.go` and proves properties of it:

- `parseHexColor`: the six-digit form of the CSS hex colour notation
  (section 5.2 of CSS Color Module Level 4), with at most one leading `#`
  stripped. Module `HexColor`.
- `parseDimension`: `"<w>x<h>"`, split on the lower-case `x` only, each side
  read by Go's `strconv.Atoi` and required to be above zero. Module `Dimension`.
- The per-pixel loop of `Colorize`, together with `lerp`. Module `Colorize`.
- The fill loop of `MakeBackground`. Module `Background`.
- The offset, rejection and drawing logic of `CompositeCenter`. Module `Composite`.

The Go library calls these functions rely on are modelled as far as the code
depends on them:

- `strings.TrimPrefix` and `strings.Split`, in module `Strings`. The image
  code never calls `strings.Join`; the model defines it only as the inverse
  that `Split`'s contract and round trip are stated against.
- `strconv.ParseUint` with an explicit base, `strconv.Atoi`, and their
  formatting inverses, in module `Strconv`.

Go strings are byte strings, so text is `seq<uint8>` (module `Bytes`). Images
are immutable values: a width, a height and a sequence of rows (module
`Images`). Errors are the datatype `ImgError`. It has one constructor per
way the modelled code fails: `InvalidColor`, `InvalidDimension`,
`InvalidWidth`, `InvalidHeight` and `ForegroundTooLarge`.

Decisions worth knowing when reading the model:

- A source pixel is what `img.At(x, y).RGBA()` returns: four 16-bit channels
  (`Rgba64`). `Colorize` reads the high byte of each colour channel (`v >> 8`).
- The luminance `(0.299 r + 0.587 g + 0.114 b) / 255` is written out in exact
  real arithmetic.
- The gamma curve `math.Pow(_, 1.8)` is a parameter `gamma` of type
  `Weight -> Weight`, so it is assumed to map [0, 1] into [0, 1]. That holds
  for `x^1.8` on [0, 1], and the "between the two colours" conclusions rest on
  it through `lerp`'s bounds. The black-to-foreground conclusions also assume
  `gamma(0) == 0`, which is what `math.Pow(0, 1.8)` returns.
- `lerp` is `floor(a*(1-t) + b*t)` in exact reals. Go's `uint8(...)`
  truncates toward zero, which for these non-negative values is the floor.
- `draw.Over` for a translucent source pixel is library arithmetic that is not
  part of this model. It is a parameter `blend`. An opaque source pixel
  replaces the destination exactly, which is what Go computes.
- Go's `/` truncates toward zero and Dafny's `/` is Euclidean. So
  `Composite.GoDiv` implements the Go rule. With a foreground exactly one
  pixel wider (or taller) than the background, `(bgW - fgW) / 2` is `-1 / 2`,
  which is 0 in Go. The code therefore accepts that foreground, draws it at
  offset 0 and clips its last column (or row). The model does the same.
  The error text "foreground larger than background" suggests that every
  larger foreground is refused. The code refuses only a foreground at least
  two pixels larger (`xkcd/img.go`, lines 224-229), and the model follows the
  code.

## Model

| member | source | states |
|---|---|---|
| Strings.TrimPrefix | xkcd/img.go:19 | The result is either the input or the input with exactly one leading '#' removed, and a byte is removed exactly when the input starts with '#'. |
| Strings.Split | xkcd/img.go:123 | Splitting on 'x' gives one piece more than there are 'x' bytes, no piece contains 'x', and joining the pieces with 'x' restores the input. |
| Strings.SplitJoin | xkcd/img.go:123 | Split inverts Join for any non-empty list of pieces without the separator. |
| Strings.SplitTwo | xkcd/img.go:123-126 | A text holding exactly one 'x' splits into precisely the part before it and the part after it. |
| Strconv.ParseUint | xkcd/img.go:24-35 | ParseUint succeeds exactly on a non-empty string of digits of the base (no sign, prefix or underscore) whose value fits in bitSize bits, and then returns that value. |
| Strconv.DigitsValueBound | xkcd/img.go:24-35 | k digits of a base denote a number below base^k, so two hex digits never exceed 0xFF. |
| Strconv.ParseFormatUint | xkcd/img.go:24-35 | ParseUint reads back every value FormatUint prints in the same base that fits in bitSize bits. |
| Strconv.AtoiMeaning | xkcd/img.go:128-136 | Atoi succeeds exactly on an optional '+' or '-' followed by one or more decimal digits and nothing else, whose signed value fits in a 64-bit int, and it returns that signed value. |
| Strconv.AtoiItoa | xkcd/img.go:128-136 | Atoi reads back every 64-bit int that Itoa prints, negative ones included. |
| Strconv.AtoiPlusZeros | xkcd/img.go:128-136 | Atoi accepts a leading '+' and any number of leading zeros without changing the value. |
| HexColor.ParseHexColor | xkcd/img.go:18-37 | A parsed colour always has alpha 255, and every failure is InvalidColor. |
| HexColor.ParseHexPair | xkcd/img.go:24-35 | ParseUint(_, 16, 8) on two bytes succeeds exactly when both are hex digits of either case, and gives 16 * high + low, so its range check never fires. |
| HexColor.ParseHexColorMeaning | xkcd/img.go:18-37 | parseHexColor succeeds exactly when, after removing one optional '#', six hex digits of either case remain. It then returns the three two-digit groups as R, G, B with A = 255; any other length or a non-hex byte is an error. |
| HexColor.ParseFormatHexColor | xkcd/img.go:18-37 | Writing any (r, g, b) as six hex digits, upper or lower case, with or without '#', and parsing the text yields (r, g, b, 255). |
| HexColor.ParseHexColorRed | xkcd/img.go:18-37 | "#FF0000" parses to (255, 0, 0, 255). |
| HexColor.FormatParseHexColor | xkcd/img.go:18-37 | Parsing accepted text and writing the colour back in one letter case reproduces the text's six digits folded to that case. |
| Dimension.ParseDimension | xkcd/img.go:122-139 | A parsed width and height are both above zero and within the int range. |
| Dimension.ParseDimensionMeaning | xkcd/img.go:122-138 | parseDimension succeeds exactly when the text has exactly one 'x' and the texts before and after it are decimal numbers (optional sign, then digits) above zero and within the int range, and then returns them as (width, height). Otherwise the error names the first failed check: separator count, then width, then height. |
| Dimension.ParseFormatDimension | xkcd/img.go:122-138 | Printing any size with both sides positive as "<w>x<h>" and parsing it gives the size back. |
| Dimension.ParseDimensionExample | xkcd/img.go:122-138 | "100x50" parses to width 100 and height 50. |
| Dimension.ParseDimensionSignAndZeros | xkcd/img.go:128-136 | "+7x007" parses to 7 by 7, because Atoi takes a '+' sign and leading zeros. |
| Dimension.ParseDimensionSeparatorCount | xkcd/img.go:123-126 | "100X50" (upper-case X) and "1x2x3" are InvalidDimension. |
| Dimension.ParseDimensionBadWidth | xkcd/img.go:128-131 | "0x5" (zero width) and "x5" (empty width) are InvalidWidth. |
| Dimension.ParseDimensionBadHeight | xkcd/img.go:133-136 | "5x-5" is InvalidHeight: Atoi accepts the '-', but the value is not above zero. |
| Colorize.Lerp | xkcd/img.go:40-42 | lerp(a, b, t) lies between a and b, equals a at t = 0 and equals b at t = 1. |
| Colorize.Luminance | xkcd/img.go:89-90 | The luminance is a weight in [0, 1] and is zero exactly for black. |
| Colorize.HighByte | xkcd/img.go:85-87 | The 8-bit value read from a 16-bit channel is the one whose 256-wide block contains the channel value. |
| Colorize.RecolorPixel | xkcd/img.go:77-100 | The body of the pixel loop. What it promises is stated by the two lemmas that follow, Colorize.RecolorPixelMeaning and Colorize.RecolorPixelHighBytesOnly. |
| Colorize.RecolorPixelMeaning | xkcd/img.go:77-100 | A pixel with alpha 0 becomes exactly the background colour, whatever its colour channels hold. Any other pixel becomes opaque, with every channel between the foreground and background values. A visible pure-black pixel becomes exactly the foreground colour, because luminance 0, 0^1.8 = 0 and lerp(a, b, 0) = a. |
| Colorize.RecolorPixelHighBytesOnly | xkcd/img.go:84-98 | For visible pixels the result depends only on the high bytes of R, G and B: not on alpha and not on the low bytes. |
| Colorize.Recolor | xkcd/img.go:72-102 | The output has exactly the input's bounds, and each output pixel is the recolouring of the input pixel at the same position. Across the whole image, transparent pixels become the background colour, every other pixel is opaque and lies between the two colours, and visible black pixels become the foreground colour when the gamma curve keeps 0 at 0. |
| Colorize.ColorizeImage | xkcd/img.go:51-102 | Colorize fails with InvalidColor exactly when one of the two colours is malformed. Otherwise its output has the input's bounds, every pixel has alpha 255, and each pixel is the recolouring of the matching input pixel with the parsed colours. |
| Background.Fill | xkcd/img.go:157-164 | The fill yields a width-by-height image in which every pixel is the given colour. |
| Background.MakeBackground | xkcd/img.go:147-164 | MakeBackground reports a dimension error before any colour error. It succeeds exactly when both parse, and then yields a w-by-h image whose every pixel is the parsed colour with alpha 255. |
| Composite.GoDiv | xkcd/img.go:224-225 | Go's division truncates toward zero: the remainder has the sign of the dividend and is smaller than the divisor in magnitude. |
| Composite.CenterOffset | xkcd/img.go:224-225 | Twice the centring offset equals the slack (outer minus inner length) when the slack is even. When it is odd, twice the offset is the slack moved one step toward zero. |
| Composite.CenterOffsetSign | xkcd/img.go:224-229 | A centring offset is negative exactly when the foreground is at least two pixels longer on that axis. One pixel longer gives offset 0, which is not rejected. |
| Composite.CenterOffsetCentres | xkcd/img.go:224-225 | When the foreground fits, the margin after it equals the margin before it, or exceeds it by one when the slack is odd. |
| Composite.Over | xkcd/img.go:242 | Source-over with an opaque source pixel yields exactly the source pixel. |
| Composite.DrawOver | xkcd/img.go:236-242 | Drawing keeps the destination's bounds. Pixels outside the drawn rectangle keep their value. Pixels inside it, clipped to the destination, get the matching source pixel composited over them. |
| Composite.CompositeCenter | xkcd/img.go:214-242 | CompositeCenter fails with ForegroundTooLarge exactly when a centring offset is negative, that is, when the foreground is two or more pixels wider or taller. Otherwise the output has the background's bounds, pixels outside the clipped foreground rectangle keep the background's value, and pixels under an opaque foreground pixel equal the foreground pixel at the matching relative position. |
| Composite.CompositeOpaqueIgnoresBlend | xkcd/img.go:241-242 | With an opaque foreground, such as Colorize's output, the composite does not depend on the translucent-pixel blend arithmetic. |
| Composite.CompositeCenterExamples | xkcd/img.go:224-229 | A 100x100 foreground on a 200x200 background is accepted at offset 50. A foreground 250 wide on a 200-wide background is rejected. A foreground 201 wide on a 200-wide background is accepted at offset 0. |

## Left out

- File and codec work is not modelled: `os.Open`, `image.Decode`, `png.Encode`, `os.MkdirAll`, the fixed cache file names, the returned paths and `CopyFile`. The model starts from decoded images and ends with image values.
- `Colorize` and `CompositeCenter` can also fail when they decode their input files. Decode failures are not modelled, because decoding is not modelled.
- Colorize.Lerp: computed in exact real arithmetic, not in float64. The bounds it proves (between a and b) can be off by one in Go when rounding pushes the value just below an integer. Its equalities at t = 0 and t = 1 also hold in float64.
- Colorize.Luminance: the weighted sum is computed exactly. In float64, white need not reach exactly 1, so "white becomes the background" and "equal colours give a uniform image" are not claimed.
- The gamma curve `math.Pow(_, 1.8)` is a parameter. It is assumed to map [0, 1] into [0, 1], as `x^1.8` does there. Where the model concludes that black becomes the foreground, it also assumes that gamma maps 0 to 0. No other property of the curve is used.
- `draw.Over` for source pixels that are not fully opaque is a parameter (`Composite.Blend`). It is 16-bit premultiplied library arithmetic in `image/draw`. Colorize's output is opaque, so the pipeline never reaches it.
- The background copy `draw.Draw(out, bgBounds, bgImg, bgBounds.Min, draw.Src)` is modelled as an exact copy. For 8-bit images that is what it computes.
- Image bounds start at the origin, as they do for every decoded PNG or JPEG and for every image the pipeline creates. Bounds with a non-zero minimum point are not modelled.
- Strconv.Atoi: modelled for a 64-bit platform (`int` is 64 bits). The two code paths Go uses, a fast one for short strings and `ParseInt`, are merged into one definition with the same outcome.
- Strconv.ParseUint: base 0 (prefix sniffing and underscores) and bit size 0 are not modelled; the code never uses them. The syntax and range errors are merged into one failure, because the code only tests `err != nil`.
- Error message texts are not modelled. Errors are kinds only.
- Allocation of very large images, for example a "9223372036854775807x2" background, is not modelled.
- `xkcd/fetch.go` is not part of this model: HTTP, JSON and time-seeded randomness. Its only pure piece is the positive-integer check on the comic number, which is the same `Atoi`-and-positive check modelled for `parseDimension`.
- `cmd/xkcd-wall/main.go` is not part of this model: flags, the configuration file, random palette choice and error reporting.
