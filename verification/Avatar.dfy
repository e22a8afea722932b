/**
 Avatar resizing (tools/makhor/pkg/imaging/imaging.go): a centred square cut out of the image and sampled
 bilinearly. Floats are modelled as reals; decoding and encoding are not part of this model.
 */
module Avatar {

  /** A colour channel as an image delivers it, and as the result stores it. */
  type Wide = x: int | 0 <= x <= 0xFFFF
  type Byte = x: int | 0 <= x <= 0xFF

  datatype Color = Color(r: Wide, g: Wide, b: Wide, a: Wide)

  datatype RGBA = RGBA(r: Byte, g: Byte, b: Byte, a: Byte)

  /** An image by rows; its bounds need not start at the origin. */
  datatype Image = Image(minX: nat, minY: nat, pixels: seq<seq<Color>>) {
    ghost predicate Valid() {
      && |pixels| > 0 && |pixels[0]| > 0
      && forall y :: 0 <= y < |pixels| ==> |pixels[y]| == |pixels[0]|
    }

    function Dx(): nat
      requires Valid()
    {
      |pixels[0]|
    }

    function Dy(): nat {
      |pixels|
    }

    ghost predicate InBounds(x: int, y: int)
      requires Valid()
    {
      minX <= x < minX + Dx() && minY <= y < minY + Dy()
    }

    function At(x: int, y: int): Color
      requires Valid() && InBounds(x, y)
    {
      pixels[y - minY][x - minX]
    }
  }

  // ---------- the centred square ----------

  datatype Crop = Crop(x: nat, y: nat, size: nat)

  function CenterCrop(w: nat, h: nat): Crop {
    if w > h then Crop((w - h) / 2, 0, h) else Crop(0, (h - w) / 2, w)
  }

  /** The largest square that fits, with margins on opposite sides that differ by one pixel at most. */
  lemma CropCentred(w: nat, h: nat)
    ensures var c := CenterCrop(w, h);
      && c.size == (if w < h then w else h)
      && 0 <= (w - c.size - c.x) - c.x <= 1 && 0 <= (h - c.size - c.y) - c.y <= 1
  {
  }

  // ---------- positions ----------

  /** Where destination index `d` of `size` falls among the `n` source positions. */
  function Position(d: nat, n: int, size: int): real
    requires size >= 2
  {
    Ratio(d as real, (n - 1) as real, (size - 1) as real)
  }

  function Ratio(d: real, n: real, s: real): real
    requires s != 0.0
  {
    d * n / s
  }

  /** Positions run from the first source position to the last one, and meet both ends exactly. */
  lemma PositionRange(d: nat, n: int, size: int)
    requires d < size && size >= 2 && n >= 1
    ensures 0.0 <= Position(d, n, size) <= (n - 1) as real
    ensures d == 0 ==> Position(d, n, size) == 0.0
    ensures d == size - 1 ==> Position(d, n, size) == (n - 1) as real
    ensures n == size ==> Position(d, n, size) == d as real
  {
    var a, b, c := d as real, (n - 1) as real, (size - 1) as real;
    assert 0.0 <= a <= c && c > 0.0 && b >= 0.0;
    RatioRange(a, b, c);
  }

  lemma RatioRange(d: real, n: real, s: real)
    requires 0.0 <= d <= s && s > 0.0 && n >= 0.0
    ensures 0.0 <= Ratio(d, n, s) <= n
    ensures d == 0.0 ==> Ratio(d, n, s) == 0.0
    ensures d == s ==> Ratio(d, n, s) == n
    ensures n == s ==> Ratio(d, n, s) == d
  {
    var p := Ratio(d, n, s);
    Divided(d, n, s);
    Scale(0.0, d, n);
    Scale(0.0, d, s);
    Scale(d, s, n);
    Commute(s, n);
    Cancel(0.0, p, s);
    Cancel(p, n, s);
    if d == 0.0 {
      Cancel(p, 0.0, s);
    }
    if d == s {
      Cancel(n, p, s);
    }
    if n == s {
      Cancel(p, d, s);
      Cancel(d, p, s);
    }
  }

  lemma Divided(d: real, n: real, s: real)
    requires s != 0.0
    ensures Times(Ratio(d, n, s), s) == Times(d, n)
  {
  }

  lemma Commute(a: real, b: real)
    ensures Times(a, b) == Times(b, a)
  {
  }

  function Times(a: real, b: real): (r: real)
    ensures a >= 0.0 && b >= 0.0 ==> r >= 0.0
    ensures a > 0.0 && b > 0.0 ==> r > 0.0
  {
    a * b
  }

  lemma Cancel(a: real, b: real, s: real)
    requires s > 0.0 && Times(a, s) <= Times(b, s)
    ensures a <= b
  {
    assert Times(a - b, s) == Times(a, s) - Times(b, s);
  }

  lemma Scale(a: real, b: real, c: real)
    requires a <= b && c >= 0.0
    ensures Times(a, c) <= Times(b, c) && Times(0.0, c) == 0.0
  {
    assert Times(b, c) == Times(a, c) + Times(b - a, c);
  }

  // ---------- interpolation ----------

  function Lerp(a: real, b: real, f: real): real {
    a * (1.0 - f) + b * f
  }

  lemma LerpBetween(a: real, b: real, f: real, low: real, high: real)
    requires 0.0 <= f < 1.0 && low <= a <= high && (f > 0.0 ==> low <= b <= high)
    ensures low <= Lerp(a, b, f) <= high
    ensures f == 0.0 ==> Lerp(a, b, f) == a
  {
    if f > 0.0 {
      assert Lerp(a, b, f) == low + Times(a - low, 1.0 - f) + Times(b - low, f);
      assert Lerp(a, b, f) == high - Times(high - a, 1.0 - f) - Times(high - b, f);
    } else {
      assert Lerp(a, b, 0.0) == a;
    }
  }

  function Blend(c00: Wide, c10: Wide, c01: Wide, c11: Wide, xFrac: real, yFrac: real): real {
    Lerp(Lerp(c00 as real, c10 as real, xFrac), Lerp(c01 as real, c11 as real, xFrac), yFrac)
  }

  /** All channel values of the samples that have weight lie between `low` and `high`. */
  ghost predicate SamplesIn(c00: Wide, c10: Wide, c01: Wide, c11: Wide, xFrac: real, yFrac: real, low: int, high: int) {
    && low <= c00 <= high
    && (xFrac > 0.0 ==> low <= c10 <= high)
    && (yFrac > 0.0 ==> low <= c01 <= high)
    && (xFrac > 0.0 && yFrac > 0.0 ==> low <= c11 <= high)
  }

  lemma BlendBetween(c00: Wide, c10: Wide, c01: Wide, c11: Wide, xFrac: real, yFrac: real, low: int, high: int)
    requires 0.0 <= xFrac < 1.0 && 0.0 <= yFrac < 1.0
    requires SamplesIn(c00, c10, c01, c11, xFrac, yFrac, low, high)
    ensures low <= Blend(c00, c10, c01, c11, xFrac, yFrac).Floor <= high
    ensures xFrac == 0.0 && yFrac == 0.0 ==> Blend(c00, c10, c01, c11, xFrac, yFrac).Floor == c00
  {
    var lo, hi := low as real, high as real;
    LerpBetween(c00 as real, c10 as real, xFrac, lo, hi);
    if yFrac > 0.0 {
      LerpBetween(c01 as real, c11 as real, xFrac, lo, hi);
    }
    LerpBetween(Lerp(c00 as real, c10 as real, xFrac), Lerp(c01 as real, c11 as real, xFrac), yFrac, lo, hi);
  }

  /** bilinear: the conversion to an integer truncates, and cannot overflow. */
  function Bilinear(c00: Wide, c10: Wide, c01: Wide, c11: Wide, xFrac: real, yFrac: real): Wide
    requires 0.0 <= xFrac < 1.0 && 0.0 <= yFrac < 1.0
  {
    BlendBetween(c00, c10, c01, c11, xFrac, yFrac, 0, 0xFFFF);
    Blend(c00, c10, c01, c11, xFrac, yFrac).Floor
  }

  /** uint8(v >> 8). */
  function Narrow(v: Wide): Byte {
    v / 256
  }

  function NarrowAll(c: Color): RGBA {
    RGBA(Narrow(c.r), Narrow(c.g), Narrow(c.b), Narrow(c.a))
  }

  // ---------- sampling ----------

  /** One axis of a sample: the two source indices and the weight of the second one. */
  datatype Axis = Axis(i0: int, i1: int, frac: real)

  /** Along an axis whose bounds are [min, max), in a square of `n` pixels starting at `start`. */
  function AxisOf(d: nat, n: int, size: int, start: int, min: int, max: int): Axis
    requires size >= 2
  {
    var f := Position(d, n, size) + (start + min) as real;
    var i0 := f.Floor;
    Axis(i0, if i0 + 1 >= max then max - 1 else i0 + 1, f - i0 as real)
  }

  /** What is read is in bounds, what counts is in the square. */
  lemma AxisWithin(d: nat, n: int, size: int, start: nat, min: int, max: int)
    requires d < size && size >= 2 && n >= 1 && min + start + n <= max
    ensures var a := AxisOf(d, n, size, start, min, max);
      && min <= a.i0 < max && min <= a.i1 < max
      && 0.0 <= a.frac < 1.0
      && min + start <= a.i0 < min + start + n
      && (a.frac > 0.0 ==> a.i1 == a.i0 + 1 < min + start + n)
      && (d == 0 ==> a.i0 == min + start && a.frac == 0.0)
      && (d == size - 1 ==> a.i0 == min + start + n - 1 && a.frac == 0.0)
      && (n == size ==> a.i0 == min + start + d && a.frac == 0.0)
  {
    PositionRange(d, n, size);
    var p := Position(d, n, size);
    assert (p + (start + min) as real).Floor == p.Floor + start + min;
  }

  function CropOf(img: Image): Crop
    requires img.Valid()
  {
    CenterCrop(img.Dx(), img.Dy())
  }

  function AxisX(img: Image, size: int, dx: nat): Axis
    requires img.Valid() && size >= 2
  {
    AxisOf(dx, CropOf(img).size, size, CropOf(img).x, img.minX, img.minX + img.Dx())
  }

  function AxisY(img: Image, size: int, dy: nat): Axis
    requires img.Valid() && size >= 2
  {
    AxisOf(dy, CropOf(img).size, size, CropOf(img).y, img.minY, img.minY + img.Dy())
  }

  /** The four reads of every destination pixel are in bounds. */
  lemma ReadsInBounds(img: Image, size: int, dx: nat, dy: nat)
    requires img.Valid() && dx < size && dy < size && size >= 2
    ensures var x, y := AxisX(img, size, dx), AxisY(img, size, dy);
      && img.InBounds(x.i0, y.i0) && img.InBounds(x.i1, y.i0) && img.InBounds(x.i0, y.i1) && img.InBounds(x.i1, y.i1)
      && 0.0 <= x.frac < 1.0 && 0.0 <= y.frac < 1.0
  {
    var c := CropOf(img);
    AxisWithin(dx, c.size, size, c.x, img.minX, img.minX + img.Dx());
    AxisWithin(dy, c.size, size, c.y, img.minY, img.minY + img.Dy());
  }

  function Sample(img: Image, size: int, dx: nat, dy: nat): RGBA
    requires img.Valid() && dx < size && dy < size && size >= 2
  {
    ReadsInBounds(img, size, dx, dy);
    var x, y := AxisX(img, size, dx), AxisY(img, size, dy);
    var c00, c10 := img.At(x.i0, y.i0), img.At(x.i1, y.i0);
    var c01, c11 := img.At(x.i0, y.i1), img.At(x.i1, y.i1);
    RGBA(Narrow(Bilinear(c00.r, c10.r, c01.r, c11.r, x.frac, y.frac)),
         Narrow(Bilinear(c00.g, c10.g, c01.g, c11.g, x.frac, y.frac)),
         Narrow(Bilinear(c00.b, c10.b, c01.b, c11.b, x.frac, y.frac)),
         Narrow(Bilinear(c00.a, c10.a, c01.a, c11.a, x.frac, y.frac)))
  }

  method ResizeToSquare(img: Image, size: nat) returns (dst: array2<RGBA>)
    requires img.Valid() && size != 1
    ensures fresh(dst) && dst.Length0 == size && dst.Length1 == size
    ensures forall dx, dy :: 0 <= dx < size && 0 <= dy < size ==> dst[dx, dy] == Sample(img, size, dx, dy)
  {
    var srcW, srcH := img.Dx(), img.Dy();
    var cropX, cropY, cropSize;
    if srcW > srcH {
      cropSize := srcH;
      cropX := (srcW - srcH) / 2;
      cropY := 0;
    } else {
      cropSize := srcW;
      cropX := 0;
      cropY := (srcH - srcW) / 2;
    }
    assert CropOf(img) == Crop(cropX, cropY, cropSize);
    dst := new RGBA[size, size]((_, _) => RGBA(0, 0, 0, 0));
    for dy := 0 to size
      invariant forall x, y :: 0 <= x < size && 0 <= y < dy ==> dst[x, y] == Sample(img, size, x, y)
    {
      for dx := 0 to size
        invariant forall x, y :: 0 <= x < size && 0 <= y < dy ==> dst[x, y] == Sample(img, size, x, y)
        invariant forall x :: 0 <= x < dx ==> dst[x, dy] == Sample(img, size, x, dy)
      {
        var pixel := SampleAt(img, size, dx, dy, cropX, cropY, cropSize);
        dst[dx, dy] := pixel;
      }
    }
  }

  /** The body of the loops: one destination pixel. */
  method SampleAt(img: Image, size: int, dx: nat, dy: nat, cropX: nat, cropY: nat, cropSize: nat) returns (pixel: RGBA)
    requires img.Valid() && dx < size && dy < size && size >= 2 && CropOf(img) == Crop(cropX, cropY, cropSize)
    ensures pixel == Sample(img, size, dx, dy)
  {
    ReadsInBounds(img, size, dx, dy);
    var maxX, maxY := img.minX + img.Dx(), img.minY + img.Dy();
    var srcXf := Position(dx, cropSize, size) + (cropX + img.minX) as real;
    var srcYf := Position(dy, cropSize, size) + (cropY + img.minY) as real;
    var x0, y0 := srcXf.Floor, srcYf.Floor;
    var xFrac, yFrac := srcXf - x0 as real, srcYf - y0 as real;
    var x1, y1 := x0 + 1, y0 + 1;
    if x1 >= maxX {
      x1 := maxX - 1;
    }
    if y1 >= maxY {
      y1 := maxY - 1;
    }
    assert AxisX(img, size, dx) == Axis(x0, x1, xFrac) && AxisY(img, size, dy) == Axis(y0, y1, yFrac);
    var c00, c10, c01, c11 := img.At(x0, y0), img.At(x1, y0), img.At(x0, y1), img.At(x1, y1);
    var r := Bilinear(c00.r, c10.r, c01.r, c11.r, xFrac, yFrac);
    var g := Bilinear(c00.g, c10.g, c01.g, c11.g, xFrac, yFrac);
    var b := Bilinear(c00.b, c10.b, c01.b, c11.b, xFrac, yFrac);
    var a := Bilinear(c00.a, c10.a, c01.a, c11.a, xFrac, yFrac);
    pixel := RGBA(Narrow(r), Narrow(g), Narrow(b), Narrow(a));
  }

  // ---------- what comes out ----------

  /** The position of a pixel of the centred square. */
  function SquareX(img: Image, k: int): int
    requires img.Valid()
  {
    img.minX + CropOf(img).x + k
  }

  function SquareY(img: Image, k: int): int
    requires img.Valid()
  {
    img.minY + CropOf(img).y + k
  }

  ghost predicate ChannelsIn(c: Color, low: Color, high: Color) {
    low.r <= c.r <= high.r && low.g <= c.g <= high.g && low.b <= c.b <= high.b && low.a <= c.a <= high.a
  }

  ghost predicate SquareIn(img: Image, low: Color, high: Color)
    requires img.Valid()
  {
    forall i, j ::
      0 <= i < CropOf(img).size && 0 <= j < CropOf(img).size && img.InBounds(SquareX(img, i), SquareY(img, j))
      ==> ChannelsIn(img.At(SquareX(img, i), SquareY(img, j)), low, high)
  }

  /**
   Only the centred square counts: bounds on the channels of its pixels, whatever is outside it,
   bound every channel of the result.
   */
  lemma OnlySquareCounts(img: Image, size: int, dx: nat, dy: nat, low: Color, high: Color)
    requires img.Valid() && dx < size && dy < size && size >= 2 && SquareIn(img, low, high)
    ensures var p := Sample(img, size, dx, dy);
      && Narrow(low.r) <= p.r <= Narrow(high.r) && Narrow(low.g) <= p.g <= Narrow(high.g)
      && Narrow(low.b) <= p.b <= Narrow(high.b) && Narrow(low.a) <= p.a <= Narrow(high.a)
  {
    var c := CropOf(img);
    AxisWithin(dx, c.size, size, c.x, img.minX, img.minX + img.Dx());
    AxisWithin(dy, c.size, size, c.y, img.minY, img.minY + img.Dy());
    var x, y := AxisX(img, size, dx), AxisY(img, size, dy);
    InSquare(img, x.i0, y.i0, low, high);
    if x.frac > 0.0 {
      InSquare(img, x.i1, y.i0, low, high);
    }
    if y.frac > 0.0 {
      InSquare(img, x.i0, y.i1, low, high);
    }
    if x.frac > 0.0 && y.frac > 0.0 {
      InSquare(img, x.i1, y.i1, low, high);
    }
    var c00, c10, c01, c11 := img.At(x.i0, y.i0), img.At(x.i1, y.i0), img.At(x.i0, y.i1), img.At(x.i1, y.i1);
    BlendBetween(c00.r, c10.r, c01.r, c11.r, x.frac, y.frac, low.r, high.r);
    BlendBetween(c00.g, c10.g, c01.g, c11.g, x.frac, y.frac, low.g, high.g);
    BlendBetween(c00.b, c10.b, c01.b, c11.b, x.frac, y.frac, low.b, high.b);
    BlendBetween(c00.a, c10.a, c01.a, c11.a, x.frac, y.frac, low.a, high.a);
  }

  lemma InSquare(img: Image, x: int, y: int, low: Color, high: Color)
    requires img.Valid() && SquareIn(img, low, high) && img.InBounds(x, y)
    requires SquareX(img, 0) <= x < SquareX(img, CropOf(img).size)
    requires SquareY(img, 0) <= y < SquareY(img, CropOf(img).size)
    ensures ChannelsIn(img.At(x, y), low, high)
  {
    var i, j := x - SquareX(img, 0), y - SquareY(img, 0);
    assert SquareX(img, i) == x && SquareY(img, j) == y;
  }

  /** A sample that falls on a source pixel is that pixel. */
  lemma OnPixel(img: Image, size: int, dx: nat, dy: nat)
    requires img.Valid() && dx < size && dy < size && size >= 2
    requires AxisX(img, size, dx).frac == 0.0 && AxisY(img, size, dy).frac == 0.0
    requires img.InBounds(AxisX(img, size, dx).i0, AxisY(img, size, dy).i0)
    ensures Sample(img, size, dx, dy) == NarrowAll(img.At(AxisX(img, size, dx).i0, AxisY(img, size, dy).i0))
  {
    ReadsInBounds(img, size, dx, dy);
    var x, y := AxisX(img, size, dx), AxisY(img, size, dy);
    var c00, c10, c01, c11 := img.At(x.i0, y.i0), img.At(x.i1, y.i0), img.At(x.i0, y.i1), img.At(x.i1, y.i1);
    BlendBetween(c00.r, c10.r, c01.r, c11.r, 0.0, 0.0, 0, 0xFFFF);
    BlendBetween(c00.g, c10.g, c01.g, c11.g, 0.0, 0.0, 0, 0xFFFF);
    BlendBetween(c00.b, c10.b, c01.b, c11.b, 0.0, 0.0, 0, 0xFFFF);
    BlendBetween(c00.a, c10.a, c01.a, c11.a, 0.0, 0.0, 0, 0xFFFF);
  }

  /** The corners of the result are the corners of the centred square. */
  lemma CornersMeet(img: Image, size: int, right: bool, bottom: bool)
    requires img.Valid() && size >= 2
    ensures var n := CropOf(img).size;
      var x, y := SquareX(img, if right then n - 1 else 0), SquareY(img, if bottom then n - 1 else 0);
      img.InBounds(x, y)
      && Sample(img, size, if right then size - 1 else 0, if bottom then size - 1 else 0) == NarrowAll(img.At(x, y))
  {
    var c := CropOf(img);
    var dx, dy := if right then size - 1 else 0, if bottom then size - 1 else 0;
    AxisWithin(dx, c.size, size, c.x, img.minX, img.minX + img.Dx());
    AxisWithin(dy, c.size, size, c.y, img.minY, img.minY + img.Dy());
    OnPixel(img, size, dx, dy);
  }

  /** A square of the wanted size is copied pixel by pixel. */
  lemma SameSizeCopies(img: Image, dx: nat, dy: nat)
    requires img.Valid() && CropOf(img).size >= 2 && dx < CropOf(img).size && dy < CropOf(img).size
    ensures img.InBounds(SquareX(img, dx), SquareY(img, dy))
    ensures Sample(img, CropOf(img).size, dx, dy) == NarrowAll(img.At(SquareX(img, dx), SquareY(img, dy)))
  {
    var c := CropOf(img);
    AxisWithin(dx, c.size, c.size, c.x, img.minX, img.minX + img.Dx());
    AxisWithin(dy, c.size, c.size, c.y, img.minY, img.minY + img.Dy());
    OnPixel(img, c.size, dx, dy);
  }

  // ---------- what interpolation is exact on ----------

  /** A surface that is straight along both axes. */
  datatype Surface = Surface(base: real, perX: real, perY: real, perXY: real) {
    function At(x: real, y: real): real {
      base + perX * x + perY * y + perXY * x * y
    }
  }

  lemma LerpStraight(c: real, k: real, x: real, f: real)
    ensures Lerp(c + k * x, c + k * (x + 1.0), f) == c + k * (x + f)
  {
  }

  lemma LerpNone(a: real, b: real)
    ensures Lerp(a, b, 0.0) == a
  {
  }

  lemma AlongX(s: Surface, x: real, y: real, f: real)
    ensures Lerp(s.At(x, y), s.At(x + 1.0, y), f) == s.At(x + f, y)
  {
    var c, k := s.base + s.perY * y, s.perX + s.perXY * y;
    ByX(s, x, y);
    ByX(s, x + 1.0, y);
    ByX(s, x + f, y);
    LerpStraight(c, k, x, f);
  }

  lemma ByX(s: Surface, x: real, y: real)
    ensures s.At(x, y) == (s.base + s.perY * y) + (s.perX + s.perXY * y) * x
  {
  }

  lemma ByY(s: Surface, x: real, y: real)
    ensures s.At(x, y) == (s.base + s.perX * x) + (s.perY + s.perXY * x) * y
  {
  }

  lemma AlongY(s: Surface, x: real, y: real, f: real)
    ensures Lerp(s.At(x, y), s.At(x, y + 1.0), f) == s.At(x, y + f)
  {
    var c, k := s.base + s.perX * x, s.perY + s.perXY * x;
    ByY(s, x, y);
    ByY(s, x, y + 1.0);
    ByY(s, x, y + f);
    LerpStraight(c, k, y, f);
  }

  /** The samples that have weight lie on the surface. */
  ghost predicate SamplesOn(s: Surface, x: real, y: real, c00: Wide, c10: Wide, c01: Wide, c11: Wide,
                            xFrac: real, yFrac: real) {
    && c00 as real == s.At(x, y)
    && (xFrac != 0.0 ==> c10 as real == s.At(x + 1.0, y))
    && (yFrac != 0.0 ==> c01 as real == s.At(x, y + 1.0))
    && (xFrac != 0.0 && yFrac != 0.0 ==> c11 as real == s.At(x + 1.0, y + 1.0))
  }

  /** Then the blend is the height of the surface at the position between them. */
  lemma BlendExact(s: Surface, x: real, y: real, c00: Wide, c10: Wide, c01: Wide, c11: Wide, xFrac: real, yFrac: real)
    requires SamplesOn(s, x, y, c00, c10, c01, c11, xFrac, yFrac)
    ensures Blend(c00, c10, c01, c11, xFrac, yFrac) == s.At(x + xFrac, y + yFrac)
  {
    var top, bottom := Lerp(c00 as real, c10 as real, xFrac), Lerp(c01 as real, c11 as real, xFrac);
    RowExact(s, x, y, c00, c10, xFrac);
    if yFrac != 0.0 {
      RowExact(s, x, y + 1.0, c01, c11, xFrac);
      AlongY(s, x + xFrac, y, yFrac);
    } else {
      LerpNone(top, bottom);
    }
  }

  lemma RowExact(s: Surface, x: real, y: real, c0: Wide, c1: Wide, f: real)
    requires c0 as real == s.At(x, y) && (f != 0.0 ==> c1 as real == s.At(x + 1.0, y))
    ensures Lerp(c0 as real, c1 as real, f) == s.At(x + f, y)
  {
    if f != 0.0 {
      AlongX(s, x, y, f);
    } else {
      LerpNone(c0 as real, c1 as real);
    }
  }

  /** One surface for each channel. */
  datatype Surfaces = Surfaces(r: Surface, g: Surface, b: Surface, a: Surface)

  ghost predicate ColorOn(c: Color, s: Surfaces, x: real, y: real) {
    && c.r as real == s.r.At(x, y) && c.g as real == s.g.At(x, y)
    && c.b as real == s.b.At(x, y) && c.a as real == s.a.At(x, y)
  }

  /** The pixels of the square less than one away from (x, y), counted from its corner, lie on these surfaces. */
  ghost predicate AroundOn(img: Image, s: Surfaces, x: real, y: real)
    requires img.Valid()
  {
    forall i, j ::
      0 <= i < CropOf(img).size && 0 <= j < CropOf(img).size && img.InBounds(SquareX(img, i), SquareY(img, j))
      && x - 1.0 < i as real < x + 1.0 && y - 1.0 < j as real < y + 1.0
      ==> ColorOn(img.At(SquareX(img, i), SquareY(img, j)), s, i as real, j as real)
  }

  lemma OnAround(img: Image, px: int, py: int, s: Surfaces, x: real, y: real)
    requires img.Valid() && AroundOn(img, s, x, y) && img.InBounds(px, py)
    requires SquareX(img, 0) <= px < SquareX(img, CropOf(img).size)
    requires SquareY(img, 0) <= py < SquareY(img, CropOf(img).size)
    requires x - 1.0 < (px - SquareX(img, 0)) as real < x + 1.0 && y - 1.0 < (py - SquareY(img, 0)) as real < y + 1.0
    ensures ColorOn(img.At(px, py), s, (px - SquareX(img, 0)) as real, (py - SquareY(img, 0)) as real)
  {
    var i, j := px - SquareX(img, 0), py - SquareY(img, 0);
    assert SquareX(img, i) == px && SquareY(img, j) == py;
  }

  /** The index and the weight of an axis add up to the exact position. */
  lemma AxisExact(d: nat, n: int, size: int, start: nat, min: int, max: int)
    requires size >= 2
    ensures var a := AxisOf(d, n, size, start, min, max);
      (a.i0 - min - start) as real + a.frac == Position(d, n, size)
  {
  }

  /** The samples that have weight are less than one away. */
  lemma SampledOn(img: Image, size: int, dx: nat, dy: nat, s: Surfaces, px: real, py: real)
    requires img.Valid() && dx < size && dy < size && size >= 2 && AroundOn(img, s, px, py)
    requires px == Position(dx, CropOf(img).size, size) && py == Position(dy, CropOf(img).size, size)
    ensures var x, y := AxisX(img, size, dx), AxisY(img, size, dy);
      && img.InBounds(x.i0, y.i0) && img.InBounds(x.i1, y.i0) && img.InBounds(x.i0, y.i1) && img.InBounds(x.i1, y.i1)
      && (var i, j := (x.i0 - SquareX(img, 0)) as real, (y.i0 - SquareY(img, 0)) as real;
        && ColorOn(img.At(x.i0, y.i0), s, i, j)
        && (x.frac != 0.0 ==> ColorOn(img.At(x.i1, y.i0), s, i + 1.0, j))
        && (y.frac != 0.0 ==> ColorOn(img.At(x.i0, y.i1), s, i, j + 1.0))
        && (x.frac != 0.0 && y.frac != 0.0 ==> ColorOn(img.At(x.i1, y.i1), s, i + 1.0, j + 1.0)))
  {
    var c := CropOf(img);
    AxisWithin(dx, c.size, size, c.x, img.minX, img.minX + img.Dx());
    AxisWithin(dy, c.size, size, c.y, img.minY, img.minY + img.Dy());
    AxisExact(dx, c.size, size, c.x, img.minX, img.minX + img.Dx());
    AxisExact(dy, c.size, size, c.y, img.minY, img.minY + img.Dy());
    var x, y := AxisX(img, size, dx), AxisY(img, size, dy);
    OnAround(img, x.i0, y.i0, s, px, py);
    if x.frac != 0.0 {
      OnAround(img, x.i1, y.i0, s, px, py);
    }
    if y.frac != 0.0 {
      OnAround(img, x.i0, y.i1, s, px, py);
    }
    if x.frac != 0.0 && y.frac != 0.0 {
      OnAround(img, x.i1, y.i1, s, px, py);
    }
  }

  ghost predicate PixelAs(p: RGBA, s: Surfaces, x: real, y: real) {
    && p.r == s.r.At(x, y).Floor / 256 && p.g == s.g.At(x, y).Floor / 256
    && p.b == s.b.At(x, y).Floor / 256 && p.a == s.a.At(x, y).Floor / 256
  }

  lemma SampleExact(img: Image, size: int, dx: nat, dy: nat, s: Surfaces)
    requires img.Valid() && dx < size && dy < size && size >= 2
    requires var n := CropOf(img).size; AroundOn(img, s, Position(dx, n, size), Position(dy, n, size))
    ensures var n := CropOf(img).size;
            PixelAs(Sample(img, size, dx, dy), s, Position(dx, n, size), Position(dy, n, size))
  {
    var c := CropOf(img);
    ReadsInBounds(img, size, dx, dy);
    SampledOn(img, size, dx, dy, s, Position(dx, c.size, size), Position(dy, c.size, size));
    AxisExact(dx, c.size, size, c.x, img.minX, img.minX + img.Dx());
    AxisExact(dy, c.size, size, c.y, img.minY, img.minY + img.Dy());
    var x, y := AxisX(img, size, dx), AxisY(img, size, dy);
    var i, j := (x.i0 - SquareX(img, 0)) as real, (y.i0 - SquareY(img, 0)) as real;
    var c00, c10, c01, c11 := img.At(x.i0, y.i0), img.At(x.i1, y.i0), img.At(x.i0, y.i1), img.At(x.i1, y.i1);
    BlendExact(s.r, i, j, c00.r, c10.r, c01.r, c11.r, x.frac, y.frac);
    BlendExact(s.g, i, j, c00.g, c10.g, c01.g, c11.g, x.frac, y.frac);
    BlendExact(s.b, i, j, c00.b, c10.b, c01.b, c11.b, x.frac, y.frac);
    BlendExact(s.a, i, j, c00.a, c10.a, c01.a, c11.a, x.frac, y.frac);
  }

  lemma PositionIs(d: nat, n: int, size: int, x: real)
    requires size >= 2 && x * (size - 1) as real == d as real * (n - 1) as real
    ensures x == Position(d, n, size)
  {
    var p, s := Position(d, n, size), (size - 1) as real;
    Divided(d as real, (n - 1) as real, s);
    assert Times(x, s) == Times(p, s);
    Cancel(x, p, s);
    Cancel(p, x, s);
  }

  /**
   Every channel of the result is the height, at the exact position (x, y), of the surface through the pixels of the
   square that are less than one away, rounded down and cut to eight bits; on a plane, of the plane itself.
   */
  lemma SurfaceKept(img: Image, size: int, dx: nat, dy: nat, s: Surfaces, x: real, y: real)
    requires img.Valid() && dx < size && dy < size && size >= 2 && AroundOn(img, s, x, y)
    requires var n := if img.Dx() < img.Dy() then img.Dx() else img.Dy();
      x * (size - 1) as real == dx as real * (n - 1) as real && y * (size - 1) as real == dy as real * (n - 1) as real
    ensures PixelAs(Sample(img, size, dx, dy), s, x, y)
  {
    var n := CropOf(img).size;
    PositionIs(dx, n, size, x);
    PositionIs(dy, n, size, y);
    SampleExact(img, size, dx, dy, s);
  }
}
