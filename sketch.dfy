/** The sketch ("line drawing") pass of `drawImageWithGrid` in src/App.jsx. It runs
    in place on the RGBA bytes of the canvas: a grayscale field is computed first,
    then every interior pixel is overwritten with the ink value of its Sobel
    gradient over the blurred grayscale field. The border pixels and every alpha
    byte keep what the image drawing left there. */
module Sketch {
  import opened Raster

  /** The ink mapping (square root, power and float scaling by the darkness setting,
      then the store into the clamped byte array) as a function of the two
      gradients; the darkness setting is fixed inside it. */
  type Ink = (int, int) -> byte

  /** A pixel that is not on the one-pixel border of the image. */
  predicate Interior(width: int, height: int, x: int, y: int) {
    1 <= x < width - 1 && 1 <= y < height - 1
  }

  /** Horizontal Sobel response over the blurred field. */
  function Gx(gray: seq<byte>, width: int, height: int, x: int, y: int): int
    requires |gray| == width * height && Interior(width, height, x, y)
  {
    - Blur(gray, width, height, x - 1, y - 1) - 2 * Blur(gray, width, height, x - 1, y) - Blur(gray, width, height, x - 1, y + 1)
    + Blur(gray, width, height, x + 1, y - 1) + 2 * Blur(gray, width, height, x + 1, y) + Blur(gray, width, height, x + 1, y + 1)
  }

  /** Vertical Sobel response over the blurred field. */
  function Gy(gray: seq<byte>, width: int, height: int, x: int, y: int): int
    requires |gray| == width * height && Interior(width, height, x, y)
  {
    - Blur(gray, width, height, x - 1, y - 1) - 2 * Blur(gray, width, height, x, y - 1) - Blur(gray, width, height, x + 1, y - 1)
    + Blur(gray, width, height, x - 1, y + 1) + 2 * Blur(gray, width, height, x, y + 1) + Blur(gray, width, height, x + 1, y + 1)
  }

  /** Byte `k` of the image after the sketch pass, as a function of the image before it:
      the red, green and blue bytes of an interior pixel hold the ink of its gradient,
      every other byte is left as it was. */
  function SketchedAt(data: seq<byte>, width: nat, height: nat, ink: Ink, k: int): byte
    requires |data| == 4 * (width * height) && 0 <= k < |data|
  {
    var p := k / 4;
    var x, y := p % width, p / width;
    if Interior(width, height, x, y) && k % 4 < 3 then
      var gray := GrayField(data);
      ink(Gx(gray, width, height, x, y), Gy(gray, width, height, x, y))
    else data[k]
  }

  /** The whole image after the sketch pass. */
  function Sketched(data: seq<byte>, width: nat, height: nat, ink: Ink): (r: seq<byte>)
    requires |data| == 4 * (width * height)
    ensures |r| == |data|
  {
    seq(|data|, k requires 0 <= k < |data| => SketchedAt(data, width, height, ink, k))
  }

  /** The byte offset of channel `c` of pixel `(x, y)`: `(y * width + x) * 4 + c`. */
  function Offset(width: int, x: int, y: int, c: int): int {
    4 * (y * width + x) + c
  }

  /** Row-major numbering and the 4-byte pixel layout can be read back. */
  lemma Decompose(width: int, x: int, y: int, c: int)
    requires 0 <= x < width && 0 <= y && 0 <= c < 4
    ensures Offset(width, x, y, c) / 4 == y * width + x && Offset(width, x, y, c) % 4 == c
    ensures (y * width + x) / width == y && (y * width + x) % width == x
  {
    MulMonotone(0, y, width);
    DivUnique(y * width + x, width, y);
  }

  /** `SketchedAt` in pixel coordinates. */
  lemma SketchedAtPixel(data: seq<byte>, width: nat, height: nat, ink: Ink, x: int, y: int, c: int)
    requires |data| == 4 * (width * height) && InBounds(width, height, x, y) && 0 <= c < 4
    ensures 0 <= Offset(width, x, y, c) < |data|
    ensures SketchedAt(data, width, height, ink, Offset(width, x, y, c)) ==
      if Interior(width, height, x, y) && c < 3
      then ink(Gx(GrayField(data), width, height, x, y), Gy(GrayField(data), width, height, x, y))
      else data[Offset(width, x, y, c)]
  {
    PixelInRange(width, height, x, y);
    Decompose(width, x, y, c);
  }

  /** Every byte of row 0 and of the first pixel of row 1 is left as it was. */
  lemma SketchedBeforeFirstInterior(data: seq<byte>, width: nat, height: nat, ink: Ink, k: int)
    requires |data| == 4 * (width * height) && 0 <= k < |data| && k < Offset(width, 1, 1, 0)
    ensures SketchedAt(data, width, height, ink, k) == data[k]
  {
    var p, c := k / 4, k % 4;
    if p < width {
      SketchedAtPixel(data, width, height, ink, p, 0, c);
    } else {
      assert p == width;
      if height < 2 {
        MulMonotone(height, 1, width);
      }
      SketchedAtPixel(data, width, height, ink, 0, 1, c);
    }
  }

  /** Between the last interior pixel of row `y` and the first of row `y + 1` lie only
      border pixels. */
  lemma SketchedRowGap(data: seq<byte>, width: nat, height: nat, ink: Ink, y: int, x: int, k: int)
    requires |data| == 4 * (width * height) && 1 <= y < height - 1
    requires x == if width >= 2 then width - 1 else 1
    requires Offset(width, x, y, 0) <= k < Offset(width, 1, y + 1, 0)
    ensures 0 <= k < |data| && SketchedAt(data, width, height, ink, k) == data[k]
  {
    if width > 0 {
      MulMonotone(y + 2, height, width);
    }
    if width < 3 {
      assert !Interior(width, height, (k / 4) % width, (k / 4) / width);
    } else if k < Offset(width, 0, y + 1, 0) {
      SketchedAtPixel(data, width, height, ink, x, y, k - Offset(width, x, y, 0));
    } else {
      SketchedAtPixel(data, width, height, ink, 0, y + 1, k - Offset(width, 0, y + 1, 0));
    }
  }

  /** From the first pixel after the interior rows on, everything is left as it was. */
  lemma SketchedAfterLastRow(data: seq<byte>, width: nat, height: nat, ink: Ink, y: int, k: int)
    requires |data| == 4 * (width * height) && 0 <= k < |data|
    requires y >= 1 && y >= height - 1 && k >= Offset(width, 1, y, 0)
    ensures SketchedAt(data, width, height, ink, k) == data[k]
  {
    assert k / 4 >= y * width;
    RowAtLeast(k / 4, width, y);
  }

  /** An index at or past the start of row `y` lies in row `y` or a later one. */
  lemma RowAtLeast(p: int, width: int, y: int)
    requires width > 0 && p >= y * width
    ensures p / width >= y
  {
    DivMod(p, width);
    if p / width < y {
      MulMonotone(p / width + 1, y, width);
    }
  }

  /** `d` holds `target` below offset `f` and `orig` from `f` on: the state of an in-place
      pass that turns `orig` into `target` once it has visited every byte before `f`. */
  ghost predicate DoneUpTo(d: seq<byte>, orig: seq<byte>, target: seq<byte>, f: int) {
    |d| == |orig| == |target| &&
    forall k :: 0 <= k < |d| ==> d[k] == if k < f then target[k] else orig[k]
  }

  /** Before the first interior pixel nothing is to be written. */
  lemma DoneAtStart(orig: seq<byte>, width: nat, height: nat, ink: Ink)
    requires |orig| == 4 * (width * height)
    ensures DoneUpTo(orig, orig, Sketched(orig, width, height, ink), Offset(width, 1, 1, 0))
  {
    forall k | 0 <= k < |orig| && k < Offset(width, 1, 1, 0)
      ensures Sketched(orig, width, height, ink)[k] == orig[k]
    {
      SketchedBeforeFirstInterior(orig, width, height, ink, k);
    }
  }

  /** The sketched bytes of an interior pixel: its ink three times, then its own alpha. */
  lemma SketchedInterior(data: seq<byte>, width: nat, height: nat, ink: Ink, x: int, y: int, gx: int, gy: int)
    requires |data| == 4 * (width * height) && Interior(width, height, x, y)
    requires gx == Gx(GrayField(data), width, height, x, y) && gy == Gy(GrayField(data), width, height, x, y)
    ensures 0 <= Offset(width, x, y, 0) && Offset(width, x, y, 0) + 3 < |data|
    ensures Sketched(data, width, height, ink)[Offset(width, x, y, 0)] == ink(gx, gy)
    ensures Sketched(data, width, height, ink)[Offset(width, x, y, 0) + 1] == ink(gx, gy)
    ensures Sketched(data, width, height, ink)[Offset(width, x, y, 0) + 2] == ink(gx, gy)
    ensures Sketched(data, width, height, ink)[Offset(width, x, y, 0) + 3] == data[Offset(width, x, y, 0) + 3]
  {
    SketchedPixel(data, width, height, ink, x, y, 0);
    SketchedPixel(data, width, height, ink, x, y, 1);
    SketchedPixel(data, width, height, ink, x, y, 2);
    SketchedPixel(data, width, height, ink, x, y, 3);
  }

  /** Writing a pixel's three colour bytes, when the target holds that value there and
      keeps the alpha byte, moves the frontier past the pixel. */
  lemma DoneWritePixel(d: seq<byte>, orig: seq<byte>, target: seq<byte>, i: int, v: byte)
    requires DoneUpTo(d, orig, target, i) && 0 <= i && i + 3 < |d|
    requires target[i] == v && target[i + 1] == v && target[i + 2] == v && target[i + 3] == orig[i + 3]
    ensures DoneUpTo(d[i := v][i + 1 := v][i + 2 := v], orig, target, i + 4)
  {
    var e := d[i := v][i + 1 := v][i + 2 := v];
    forall k | 0 <= k < |e|
      ensures e[k] == if k < i + 4 then target[k] else orig[k]
    {
      if k < i || k >= i + 3 {
        assert e[k] == d[k];
      }
    }
  }

  /** Writing the ink of interior pixel `(x, y)` into its red, green and blue bytes moves
      the frontier of the pass past that pixel. */
  lemma DoneAdvancePixel(d: seq<byte>, orig: seq<byte>, target: seq<byte>, width: nat, height: nat, ink: Ink,
                         x: int, y: int, i: int, v: byte)
    requires |orig| == 4 * (width * height) && Interior(width, height, x, y)
    requires target == Sketched(orig, width, height, ink) && i == Offset(width, x, y, 0)
    requires v == ink(Gx(GrayField(orig), width, height, x, y), Gy(GrayField(orig), width, height, x, y))
    requires DoneUpTo(d, orig, target, i)
    ensures 0 <= i && i + 3 < |d|
    ensures DoneUpTo(d[i := v][i + 1 := v][i + 2 := v], orig, target, Offset(width, x + 1, y, 0))
  {
    SketchedInterior(orig, width, height, ink, x, y, Gx(GrayField(orig), width, height, x, y), Gy(GrayField(orig), width, height, x, y));
    DoneWritePixel(d, orig, target, i, v);
  }

  /** The pixels skipped between the end of row `y` and the start of row `y + 1` are border
      pixels, so the frontier moves past them without a write. */
  lemma DoneSkipRowEnd(d: seq<byte>, orig: seq<byte>, width: nat, height: nat, ink: Ink, x: int, y: int)
    requires |orig| == 4 * (width * height) && 1 <= y < height - 1
    requires x == if width >= 2 then width - 1 else 1
    requires DoneUpTo(d, orig, Sketched(orig, width, height, ink), Offset(width, x, y, 0))
    ensures DoneUpTo(d, orig, Sketched(orig, width, height, ink), Offset(width, 1, y + 1, 0))
  {
    forall k | Offset(width, x, y, 0) <= k < Offset(width, 1, y + 1, 0)
      ensures 0 <= k < |orig| && Sketched(orig, width, height, ink)[k] == orig[k]
    {
      SketchedRowGap(orig, width, height, ink, y, x, k);
    }
  }

  /** Once the rows are done, the bytes are the sketched image. */
  lemma DoneAtEnd(d: seq<byte>, orig: seq<byte>, width: nat, height: nat, ink: Ink, y: int)
    requires |orig| == 4 * (width * height) && y >= 1 && y >= height - 1
    requires DoneUpTo(d, orig, Sketched(orig, width, height, ink), Offset(width, 1, y, 0))
    ensures d == Sketched(orig, width, height, ink)
  {
    forall k | 0 <= k < |orig| && k >= Offset(width, 1, y, 0)
      ensures Sketched(orig, width, height, ink)[k] == orig[k]
    {
      SketchedAfterLastRow(orig, width, height, ink, y, k);
    }
    assert forall k :: 0 <= k < |d| ==> d[k] == Sketched(orig, width, height, ink)[k];
  }

  lemma DivMod(a: int, d: int)
    requires d > 0
    ensures a == (a / d) * d + a % d && 0 <= a % d < d
  {
  }

  /** What the pass leaves at channel `c` of pixel `(x, y)`: the border pixels and every
      alpha byte keep their value, and the red, green and blue bytes of an interior
      pixel all receive the same ink value, so the interior becomes gray. */
  lemma SketchedPixel(data: seq<byte>, width: nat, height: nat, ink: Ink, x: int, y: int, c: int)
    requires |data| == 4 * (width * height) && InBounds(width, height, x, y) && 0 <= c < 4
    ensures 0 <= Offset(width, x, y, c) < |data|
    ensures !Interior(width, height, x, y) || c == 3 ==>
      Sketched(data, width, height, ink)[Offset(width, x, y, c)] == data[Offset(width, x, y, c)]
    ensures Interior(width, height, x, y) && c < 3 ==>
      Sketched(data, width, height, ink)[Offset(width, x, y, c)] ==
      ink(Gx(GrayField(data), width, height, x, y), Gy(GrayField(data), width, height, x, y))
  {
    SketchedAtPixel(data, width, height, ink, x, y, c);
  }

  /** Each Sobel response lies in -1020..1020: four blurred bytes weigh in on each side. */
  lemma GradientBounds(gray: seq<byte>, width: int, height: int, x: int, y: int)
    requires |gray| == width * height && Interior(width, height, x, y)
    ensures -1020 <= Gx(gray, width, height, x, y) <= 1020
    ensures -1020 <= Gy(gray, width, height, x, y) <= 1020
  {
    GxBounds(gray, width, height, x, y);
    GyBounds(gray, width, height, x, y);
  }

  lemma GxBounds(gray: seq<byte>, width: int, height: int, x: int, y: int)
    requires |gray| == width * height && Interior(width, height, x, y)
    ensures -1020 <= Gx(gray, width, height, x, y) <= 1020
  {
    var nw, w, sw := Blur(gray, width, height, x - 1, y - 1), Blur(gray, width, height, x - 1, y), Blur(gray, width, height, x - 1, y + 1);
    var ne, e, se := Blur(gray, width, height, x + 1, y - 1), Blur(gray, width, height, x + 1, y), Blur(gray, width, height, x + 1, y + 1);
    BlurIsByte(gray, width, height, x - 1, y - 1);
    BlurIsByte(gray, width, height, x - 1, y);
    BlurIsByte(gray, width, height, x - 1, y + 1);
    BlurIsByte(gray, width, height, x + 1, y - 1);
    BlurIsByte(gray, width, height, x + 1, y);
    BlurIsByte(gray, width, height, x + 1, y + 1);
    assert Gx(gray, width, height, x, y) == - nw - 2 * w - sw + ne + 2 * e + se;
  }

  lemma GyBounds(gray: seq<byte>, width: int, height: int, x: int, y: int)
    requires |gray| == width * height && Interior(width, height, x, y)
    ensures -1020 <= Gy(gray, width, height, x, y) <= 1020
  {
    var nw, n, ne := Blur(gray, width, height, x - 1, y - 1), Blur(gray, width, height, x, y - 1), Blur(gray, width, height, x + 1, y - 1);
    var sw, s, se := Blur(gray, width, height, x - 1, y + 1), Blur(gray, width, height, x, y + 1), Blur(gray, width, height, x + 1, y + 1);
    BlurIsByte(gray, width, height, x - 1, y - 1);
    BlurIsByte(gray, width, height, x, y - 1);
    BlurIsByte(gray, width, height, x + 1, y - 1);
    BlurIsByte(gray, width, height, x - 1, y + 1);
    BlurIsByte(gray, width, height, x, y + 1);
    BlurIsByte(gray, width, height, x + 1, y + 1);
    assert Gy(gray, width, height, x, y) == - nw - 2 * n - ne + sw + 2 * s + se;
  }

  /** Over a flat grayscale field there is no edge: both responses are 0. */
  lemma GradientFlat(gray: seq<byte>, width: int, height: int, x: int, y: int, v: int)
    requires |gray| == width * height && Interior(width, height, x, y)
    requires forall p :: 0 <= p < |gray| ==> gray[p] == v
    ensures Gx(gray, width, height, x, y) == 0 && Gy(gray, width, height, x, y) == 0
  {
    GxFlat(gray, width, height, x, y, v);
    GyFlat(gray, width, height, x, y, v);
  }

  lemma GxFlat(gray: seq<byte>, width: int, height: int, x: int, y: int, v: int)
    requires |gray| == width * height && Interior(width, height, x, y)
    requires forall p :: 0 <= p < |gray| ==> gray[p] == v
    ensures Gx(gray, width, height, x, y) == 0
  {
    BlurUniform(gray, width, height, x - 1, y - 1, v);
    BlurUniform(gray, width, height, x - 1, y, v);
    BlurUniform(gray, width, height, x - 1, y + 1, v);
    BlurUniform(gray, width, height, x + 1, y - 1, v);
    BlurUniform(gray, width, height, x + 1, y, v);
    BlurUniform(gray, width, height, x + 1, y + 1, v);
  }

  lemma GyFlat(gray: seq<byte>, width: int, height: int, x: int, y: int, v: int)
    requires |gray| == width * height && Interior(width, height, x, y)
    requires forall p :: 0 <= p < |gray| ==> gray[p] == v
    ensures Gy(gray, width, height, x, y) == 0
  {
    BlurUniform(gray, width, height, x - 1, y - 1, v);
    BlurUniform(gray, width, height, x, y - 1, v);
    BlurUniform(gray, width, height, x + 1, y - 1, v);
    BlurUniform(gray, width, height, x - 1, y + 1, v);
    BlurUniform(gray, width, height, x, y + 1, v);
    BlurUniform(gray, width, height, x + 1, y + 1, v);
  }

  /** An image of one colour has a flat grayscale field. */
  lemma GrayFieldOfOneColour(data: seq<byte>, r: byte, g: byte, b: byte)
    requires |data| % 4 == 0
    requires forall p :: 0 <= p < |data| / 4 ==> data[4 * p] == r && data[4 * p + 1] == g && data[4 * p + 2] == b
    ensures forall p :: 0 <= p < |GrayField(data)| ==> GrayField(data)[p] == Gray(r, g, b)
  {
  }

  /** An image of one colour sketches to a uniform ink: every interior red, green and
      blue byte receives `ink(0, 0)`. */
  lemma SketchOneColour(data: seq<byte>, width: nat, height: nat, ink: Ink, r: byte, g: byte, b: byte, x: int, y: int, c: int)
    requires |data| == 4 * (width * height)
    requires forall p :: 0 <= p < |data| / 4 ==> data[4 * p] == r && data[4 * p + 1] == g && data[4 * p + 2] == b
    requires Interior(width, height, x, y) && 0 <= c < 3
    ensures 0 <= Offset(width, x, y, c) < |data|
    ensures Sketched(data, width, height, ink)[Offset(width, x, y, c)] == ink(0, 0)
  {
    GrayFieldOfOneColour(data, r, g, b);
    GradientFlat(GrayField(data), width, height, x, y, Gray(r, g, b));
    SketchedPixel(data, width, height, ink, x, y, c);
  }

  /** Grayscale loop of the sketch pass: one value per pixel, from its red, green and
      blue bytes. */
  method Grayscale(data: array<byte>, width: nat, height: nat) returns (gray: array<byte>)
    requires data.Length == 4 * (width * height)
    ensures fresh(gray) && gray[..] == GrayField(data[..])
  {
    var n := width * height;
    gray := new byte[n];
    var i := 0;
    ghost var p := 0;
    while i < data.Length
      invariant 0 <= p <= n && i == 4 * p
      invariant forall q :: 0 <= q < p ==> gray[q] == Gray(data[4 * q], data[4 * q + 1], data[4 * q + 2])
    {
      assert i / 4 == p;
      gray[i / 4] := Gray(data[i], data[i + 1], data[i + 2]);
      i := i + 4;
      p := p + 1;
    }
  }

  /** `gaussianBlur(x, y)`: sum and count the in-bounds cells of the 3×3 window, then
      round the mean. */
  method GaussianBlur(gray: array<byte>, width: nat, height: nat, x: int, y: int) returns (b: int)
    requires gray.Length == width * height && InBounds(width, height, x, y)
    ensures b == Blur(gray[..], width, height, x, y)
  {
    var sum: int, count: int := 0, 0;
    for i := -1 to 2
      invariant sum == WindowSum(gray[..], width, height, x, y, i + 1)
      invariant count == WindowCount(width, height, x, y, i + 1)
    {
      for j := -1 to 2
        invariant sum == WindowSum(gray[..], width, height, x, y, i + 1) + ColumnSum(gray[..], width, height, x + i, y, j + 1)
        invariant count == WindowCount(width, height, x, y, i + 1) + ColumnCount(width, height, x + i, y, j + 1)
      {
        var px, py := x + i, y + j;
        if px >= 0 && px < width && py >= 0 && py < height {
          PixelInRange(width, height, px, py);
          sum := sum + gray[py * width + px];
          count := count + 1;
        }
      }
    }
    WindowCountIsClippedWindow(width, height, x, y);
    b := (2 * sum + count) / (2 * count);
  }

  /** The two Sobel responses at an interior pixel, each from its own six blurred
      neighbours (the four corner cells are blurred once for each response). */
  method Gradient(gray: array<byte>, width: nat, height: nat, x: int, y: int) returns (gx: int, gy: int)
    requires gray.Length == width * height && Interior(width, height, x, y)
    ensures gx == Gx(gray[..], width, height, x, y) && gy == Gy(gray[..], width, height, x, y)
  {
    gx := SobelX(gray, width, height, x, y);
    gy := SobelY(gray, width, height, x, y);
  }

  /** The `gx` sum of the Sobel loop body. */
  method SobelX(gray: array<byte>, width: nat, height: nat, x: int, y: int) returns (gx: int)
    requires gray.Length == width * height && Interior(width, height, x, y)
    ensures gx == Gx(gray[..], width, height, x, y)
  {
    var b1 := GaussianBlur(gray, width, height, x - 1, y - 1);
    var b2 := GaussianBlur(gray, width, height, x - 1, y);
    var b3 := GaussianBlur(gray, width, height, x - 1, y + 1);
    var b4 := GaussianBlur(gray, width, height, x + 1, y - 1);
    var b5 := GaussianBlur(gray, width, height, x + 1, y);
    var b6 := GaussianBlur(gray, width, height, x + 1, y + 1);
    gx := -1 * b1 + -2 * b2 + -1 * b3 + 1 * b4 + 2 * b5 + 1 * b6;
  }

  /** The `gy` sum of the Sobel loop body. */
  method SobelY(gray: array<byte>, width: nat, height: nat, x: int, y: int) returns (gy: int)
    requires gray.Length == width * height && Interior(width, height, x, y)
    ensures gy == Gy(gray[..], width, height, x, y)
  {
    var c1 := GaussianBlur(gray, width, height, x - 1, y - 1);
    var c2 := GaussianBlur(gray, width, height, x, y - 1);
    var c3 := GaussianBlur(gray, width, height, x + 1, y - 1);
    var c4 := GaussianBlur(gray, width, height, x - 1, y + 1);
    var c5 := GaussianBlur(gray, width, height, x, y + 1);
    var c6 := GaussianBlur(gray, width, height, x + 1, y + 1);
    gy := -1 * c1 + -2 * c2 + -1 * c3 + 1 * c4 + 2 * c5 + 1 * c6;
  }

  /** The sketch pass over the canvas bytes, in place. */
  method SketchPass(data: array<byte>, width: nat, height: nat, ink: Ink)
    requires data.Length == 4 * (width * height)
    modifies data
    ensures data[..] == Sketched(old(data[..]), width, height, ink)
  {
    ghost var orig := data[..];
    var gray := Grayscale(data, width, height);
    DoneAtStart(orig, width, height, ink);
    var y := 1;
    while y < height - 1
      invariant 1 <= y <= if height >= 2 then height - 1 else 1
      invariant gray[..] == GrayField(orig)
      invariant DoneUpTo(data[..], orig, Sketched(orig, width, height, ink), Offset(width, 1, y, 0))
    {
      SketchRow(data, gray, width, height, ink, y, orig);
      y := y + 1;
    }
    DoneAtEnd(data[..], orig, width, height, ink, y);
  }

  /** One turn of the outer Sobel loop: every interior pixel of row `y` receives its ink,
      left to right. */
  method SketchRow(data: array<byte>, gray: array<byte>, width: nat, height: nat, ink: Ink, y: int, ghost orig: seq<byte>)
    requires data.Length == 4 * (width * height) && |orig| == data.Length && 1 <= y < height - 1
    requires gray.Length == width * height && gray[..] == GrayField(orig)
    requires DoneUpTo(data[..], orig, Sketched(orig, width, height, ink), Offset(width, 1, y, 0))
    modifies data
    ensures DoneUpTo(data[..], orig, Sketched(orig, width, height, ink), Offset(width, 1, y + 1, 0))
  {
    ghost var target := Sketched(orig, width, height, ink);
    var x := 1;
    while x < width - 1
      invariant 1 <= x <= if width >= 2 then width - 1 else 1
      invariant DoneUpTo(data[..], orig, target, Offset(width, x, y, 0))
    {
      var idx := (y * width + x) * 4;
      var gx, gy := Gradient(gray, width, height, x, y);
      var v: byte := ink(gx, gy);
      assert idx == Offset(width, x, y, 0) && idx + 4 == Offset(width, x + 1, y, 0);
      ghost var before := data[..];
      DoneAdvancePixel(before, orig, target, width, height, ink, x, y, idx, v);
      data[idx] := v;
      data[idx + 1] := v;
      data[idx + 2] := v;
      ghost var after: seq<byte> := before[idx := v];
      after := after[idx + 1 := v];
      after := after[idx + 2 := v];
      assert data[..] == after;
      x := x + 1;
    }
    DoneSkipRowEnd(data[..], orig, width, height, ink, x, y);
  }
}
