/** The integer part of the sketch filter of src/App.jsx: the RGBA byte layout of a
    canvas image, the grayscale reduction and the 3×3 mean ("gaussianBlur") over the
    grayscale field. Everything here is exact integer arithmetic. */
module Raster {

  /** One channel of a canvas pixel (an element of the image's Uint8ClampedArray). */
  type byte = x: int | 0 <= x < 256

  /** `(x, y)` lies on a `width × height` image. */
  predicate InBounds(width: int, height: int, x: int, y: int) {
    0 <= x < width && 0 <= y < height
  }

  /** Row-major pixel numbering stays inside the image. */
  lemma PixelInRange(width: int, height: int, x: int, y: int)
    requires InBounds(width, height, x, y)
    ensures 0 <= y * width + x < width * height
  {
    assert y * width <= (height - 1) * width by {
      MulMonotone(y, height - 1, width);
    }
  }

  lemma MulMonotone(a: int, b: int, c: int)
    requires a <= b && c >= 0
    ensures a * c <= b * c
  {
    assert b * c - a * c == (b - a) * c;
  }

  /** Math.round(0.299·r + 0.587·g + 0.114·b), computed in thousandths. The result is
      the integer nearest to the weighted sum, halves rounded up. */
  function Gray(r: byte, g: byte, b: byte): (v: byte)
    ensures 1000 * v - 500 <= 299 * r + 587 * g + 114 * b < 1000 * v + 500
  {
    (299 * r + 587 * g + 114 * b + 500) / 1000
  }

  /** The grayscale field of an RGBA buffer: one value per pixel, alpha ignored. */
  function GrayField(data: seq<byte>): seq<byte>
    requires |data| % 4 == 0
  {
    seq(|data| / 4, p requires 0 <= p < |data| / 4 => Gray(data[4 * p], data[4 * p + 1], data[4 * p + 2]))
  }

  /** The grayscale value of a cell, 0 for a cell off the image. (On the image the
      row-major index always lies in `0..|gray|`, by PixelInRange; the second test
      only spares the solver that multiplication.) */
  function CellValue(gray: seq<byte>, width: int, height: int, x: int, y: int): int
    requires |gray| == width * height
  {
    if InBounds(width, height, x, y) && 0 <= y * width + x < |gray| then gray[y * width + x] else 0
  }

  function CellCount(width: int, height: int, x: int, y: int): nat {
    if InBounds(width, height, x, y) then 1 else 0
  }

  /** The blur window is `Side × Side` cells, centred on the pixel. The size is a named
      constant rather than the literal 3 so that the solver unfolds the window sums only
      where a proof asks it to, not wherever a blurred value appears. */
  const Side: nat := 3

  /** Sum and number of the in-bounds cells among the first `m` cells of the column
      `x`, rows `y - 1, y, y + 1`: the inner loop of the blur (offset `j`). */
  function ColumnSum(gray: seq<byte>, width: int, height: int, x: int, y: int, m: nat): int
    requires |gray| == width * height
  {
    if m == 0 then 0 else ColumnSum(gray, width, height, x, y, m - 1) + CellValue(gray, width, height, x, y + m - 2)
  }

  function ColumnCount(width: int, height: int, x: int, y: int, m: nat): nat {
    if m == 0 then 0 else ColumnCount(width, height, x, y, m - 1) + CellCount(width, height, x, y + m - 2)
  }

  /** Sum and number of the in-bounds cells among the first `n` columns `x - 1, x, x + 1`
      of the 3×3 window: the outer loop of the blur (offset `i`). */
  function WindowSum(gray: seq<byte>, width: int, height: int, x: int, y: int, n: nat): int
    requires |gray| == width * height
  {
    if n == 0 then 0 else WindowSum(gray, width, height, x, y, n - 1) + ColumnSum(gray, width, height, x + n - 2, y, Side)
  }

  function WindowCount(width: int, height: int, x: int, y: int, n: nat): nat {
    if n == 0 then 0 else WindowCount(width, height, x, y, n - 1) + ColumnCount(width, height, x + n - 2, y, Side)
  }

  /** Math.round(sum / count) for a positive count: the integer nearest to the
      quotient, halves rounded up. */
  function RoundedMean(sum: int, count: int): (r: int)
    requires count > 0
    ensures count * (2 * r - 1) <= 2 * sum < count * (2 * r + 1)
  {
    (2 * sum + count) / (2 * count)
  }

  /** The number of indices among `i - 1, i, i + 1` that lie in `0..n`. */
  function Span(i: int, n: int): nat {
    Indicator(0 <= i - 1 < n) + Indicator(0 <= i < n) + Indicator(0 <= i + 1 < n)
  }

  function Indicator(b: bool): nat { if b then 1 else 0 }

  /** The blur counts exactly the cells of the 3×3 window that lie on the image: the
      window clipped to the image is a rectangle of `Span(x) × Span(y)` cells. For a
      pixel on the image that is 1 to 9 cells, all 9 away from the border. */
  lemma WindowCountIsClippedWindow(width: int, height: int, x: int, y: int)
    ensures WindowCount(width, height, x, y, Side) == Span(x, width) * Span(y, height)
    ensures InBounds(width, height, x, y) ==> 1 <= WindowCount(width, height, x, y, Side) <= 9
    ensures 1 <= x < width - 1 && 1 <= y < height - 1 ==> WindowCount(width, height, x, y, Side) == 9
  {
    var sy := Span(y, height);
    var a, b, c := Indicator(0 <= x - 1 < width), Indicator(0 <= x < width), Indicator(0 <= x + 1 < width);
    ColumnCountIsSpan(width, height, x - 1, y);
    ColumnCountIsSpan(width, height, x, y);
    ColumnCountIsSpan(width, height, x + 1, y);
    WindowCountByColumns(width, height, x, y);
    assert WindowCount(width, height, x, y, Side) == a * sy + b * sy + c * sy;
    assert Span(x, width) == a + b + c;
    Distribute(a, b, c, sy);
    assert Span(x, width) * sy == (a + b + c) * sy;
    if InBounds(width, height, x, y) {
      assert 1 <= a + b + c <= 3 && 1 <= sy <= 3;
      MulMonotone(1, a + b + c, sy);
      MulMonotone(a + b + c, 3, sy);
      MulMonotone(sy, 3, 3);
    }
  }

  /** The window count adds up the counts of the three columns. */
  lemma WindowCountByColumns(width: int, height: int, x: int, y: int)
    ensures WindowCount(width, height, x, y, Side) ==
      ColumnCount(width, height, x - 1, y, Side) + ColumnCount(width, height, x, y, Side) + ColumnCount(width, height, x + 1, y, Side)
  {
    assert WindowCount(width, height, x, y, 1) == ColumnCount(width, height, x - 1, y, Side);
    assert WindowCount(width, height, x, y, 2) == WindowCount(width, height, x, y, 1) + ColumnCount(width, height, x, y, Side);
  }

  lemma Distribute(a: int, b: int, c: int, s: int)
    ensures (a + b + c) * s == a * s + b * s + c * s
  {
  }

  /** A column of the window counts its in-bounds rows when the column is on the image. */
  lemma ColumnCountIsSpan(width: int, height: int, x: int, y: int)
    ensures ColumnCount(width, height, x, y, Side) == Indicator(0 <= x < width) * Span(y, height)
  {
    assert ColumnCount(width, height, x, y, 1) == CellCount(width, height, x, y - 1);
  }

  /** The blurred value of an in-bounds pixel: the rounded mean of the in-bounds cells
      of its 3×3 window. */
  function Blur(gray: seq<byte>, width: int, height: int, x: int, y: int): int
    requires |gray| == width * height && InBounds(width, height, x, y)
  {
    CentreIsCounted(width, height, x, y);
    RoundedMean(WindowSum(gray, width, height, x, y, Side), WindowCount(width, height, x, y, Side))
  }

  /** The pixel itself is among the cells the blur counts. */
  lemma CentreIsCounted(width: int, height: int, x: int, y: int)
    requires InBounds(width, height, x, y)
    ensures WindowCount(width, height, x, y, Side) >= 1
  {
    assert ColumnCount(width, height, x, y, 2) >= 1;
    assert WindowCount(width, height, x, y, 2) >= 1;
  }

  /** A column sum lies between 0 and 255 times the number of cells counted. */
  lemma {:induction false} ColumnSumBounds(gray: seq<byte>, width: int, height: int, x: int, y: int, m: nat)
    requires |gray| == width * height
    ensures 0 <= ColumnSum(gray, width, height, x, y, m) <= 255 * ColumnCount(width, height, x, y, m)
  {
    if m > 0 {
      ColumnSumBounds(gray, width, height, x, y, m - 1);
    }
  }

  /** The window sum lies between 0 and 255 times the number of cells counted. */
  lemma {:induction false} WindowSumBounds(gray: seq<byte>, width: int, height: int, x: int, y: int, n: nat)
    requires |gray| == width * height
    ensures 0 <= WindowSum(gray, width, height, x, y, n) <= 255 * WindowCount(width, height, x, y, n)
  {
    if n > 0 {
      WindowSumBounds(gray, width, height, x, y, n - 1);
      ColumnSumBounds(gray, width, height, x + n - 2, y, Side);
    }
  }

  /** The blurred value of a grayscale field is again a byte. */
  lemma BlurIsByte(gray: seq<byte>, width: int, height: int, x: int, y: int)
    requires |gray| == width * height && InBounds(width, height, x, y)
    ensures 0 <= Blur(gray, width, height, x, y) <= 255
  {
    var s, n := WindowSum(gray, width, height, x, y, Side), WindowCount(width, height, x, y, Side);
    CentreIsCounted(width, height, x, y);
    WindowSumBounds(gray, width, height, x, y, Side);
    var r := Blur(gray, width, height, x, y);
    assert n * (2 * r - 1) <= 2 * s < n * (2 * r + 1);
    if r < 0 {
      MulMonotone(2 * r + 1, -1, n);
    }
    if r > 255 {
      MulMonotone(511, 2 * r - 1, n);
    }
  }

  /** Over a field where every cell holds `v`, a column sum is `v` times its count. */
  lemma {:induction false} ColumnSumUniform(gray: seq<byte>, width: int, height: int, x: int, y: int, m: nat, v: int)
    requires |gray| == width * height
    requires forall p :: 0 <= p < |gray| ==> gray[p] == v
    ensures ColumnSum(gray, width, height, x, y, m) == v * ColumnCount(width, height, x, y, m)
  {
    if m > 0 {
      ColumnSumUniform(gray, width, height, x, y, m - 1, v);
      CellValueUniform(gray, width, height, x, y + m - 2, v);
      DistributeLeft(v, ColumnCount(width, height, x, y, m - 1), CellCount(width, height, x, y + m - 2));
    }
  }

  /** Over a field where every cell holds `v`, a cell's value is `v` times its count. */
  lemma CellValueUniform(gray: seq<byte>, width: int, height: int, x: int, y: int, v: int)
    requires |gray| == width * height
    requires forall p :: 0 <= p < |gray| ==> gray[p] == v
    ensures CellValue(gray, width, height, x, y) == v * CellCount(width, height, x, y)
  {
    if InBounds(width, height, x, y) {
      PixelInRange(width, height, x, y);
    }
  }

  /** Over a field where every cell holds `v`, the window sum is `v` times the count. */
  lemma {:induction false} WindowSumUniform(gray: seq<byte>, width: int, height: int, x: int, y: int, n: nat, v: int)
    requires |gray| == width * height
    requires forall p :: 0 <= p < |gray| ==> gray[p] == v
    ensures WindowSum(gray, width, height, x, y, n) == v * WindowCount(width, height, x, y, n)
  {
    if n > 0 {
      WindowSumUniform(gray, width, height, x, y, n - 1, v);
      ColumnSumUniform(gray, width, height, x + n - 2, y, 3, v);
      var a, b := WindowCount(width, height, x, y, n - 1), ColumnCount(width, height, x + n - 2, y, Side);
      DistributeLeft(v, a, b);
    }
  }

  lemma DistributeLeft(v: int, a: int, b: int)
    ensures v * (a + b) == v * a + v * b
  {
  }

  /** Blurring a uniform field changes nothing. */
  lemma BlurUniform(gray: seq<byte>, width: int, height: int, x: int, y: int, v: int)
    requires |gray| == width * height && InBounds(width, height, x, y)
    requires forall p :: 0 <= p < |gray| ==> gray[p] == v
    ensures Blur(gray, width, height, x, y) == v
  {
    var n := WindowCount(width, height, x, y, Side);
    WindowCountIsClippedWindow(width, height, x, y);
    WindowSumUniform(gray, width, height, x, y, 3, v);
    RoundedMeanOfMultiple(v, n);
  }

  /** The rounded mean of `n` copies of `v` is `v`. */
  lemma RoundedMeanOfMultiple(v: int, n: int)
    requires n > 0
    ensures RoundedMean(v * n, n) == v
  {
    assert 2 * (v * n) + n == v * (2 * n) + n;
    DivUnique(2 * (v * n) + n, 2 * n, v);
  }

  /** Integer division is determined by the bracketing multiples of the divisor. */
  lemma DivUnique(a: int, d: int, q: int)
    requires d > 0 && q * d <= a < q * d + d
    ensures a / d == q
  {
    var q0 := a / d;
    assert q0 * d <= a < q0 * d + d;
    if q0 < q {
      MulMonotone(q0 + 1, q, d);
    }
    if q0 > q {
      MulMonotone(q + 1, q0, d);
    }
  }

  /** Two fields that agree on the in-bounds cells of a column give the same column sum. */
  lemma {:induction false} ColumnSumLocal(g1: seq<byte>, g2: seq<byte>, width: int, height: int, x: int, y: int, m: nat)
    requires |g1| == |g2| == width * height
    requires forall j :: y - 1 <= j <= y + 1 && InBounds(width, height, x, j) ==> CellValue(g1, width, height, x, j) == CellValue(g2, width, height, x, j)
    requires m <= Side
    ensures ColumnSum(g1, width, height, x, y, m) == ColumnSum(g2, width, height, x, y, m)
  {
    if m > 0 {
      ColumnSumLocal(g1, g2, width, height, x, y, m - 1);
    }
  }

  /** The blurred value at a pixel is determined by the grayscale values of the cells
      of its 3×3 window alone. */
  lemma BlurLocal(g1: seq<byte>, g2: seq<byte>, width: int, height: int, x: int, y: int)
    requires |g1| == |g2| == width * height && InBounds(width, height, x, y)
    requires forall i, j :: x - 1 <= i <= x + 1 && y - 1 <= j <= y + 1 && InBounds(width, height, i, j) ==>
      CellValue(g1, width, height, i, j) == CellValue(g2, width, height, i, j)
    ensures Blur(g1, width, height, x, y) == Blur(g2, width, height, x, y)
  {
    ColumnSumLocal(g1, g2, width, height, x - 1, y, Side);
    ColumnSumLocal(g1, g2, width, height, x, y, Side);
    ColumnSumLocal(g1, g2, width, height, x + 1, y, Side);
    assert WindowSum(g1, width, height, x, y, 1) == WindowSum(g2, width, height, x, y, 1);
    assert WindowSum(g1, width, height, x, y, 2) == WindowSum(g2, width, height, x, y, 2);
  }
}
