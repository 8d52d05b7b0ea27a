/**
 * The coordinate mapper `pixel_to_point` (src/main.rs:45-59) and the
 * sequential rasterizer `render` (src/main.rs:65-82), which fills a
 * row-major grayscale buffer in place.
 */
module Render {
  import opened Wrappers
  import opened ComplexPlane
  import opened Escape
  import opened Raster

  /** The iteration limit `render` passes to `escape_time`. */
  const Limit: nat := 255

  /** (width, height) in pixels, as `bounds: (usize, usize)`. */
  type Bounds = (nat, nat)

  /**
   * `pixel_to_point`: the point of the plane rectangle spanned by
   * `upperLeft` and `lowerRight` at pixel (column, row). Columns move right
   * along the real axis, rows move down the imaginary axis.
   */
  function PixelToPoint(bounds: Bounds, pixel: (nat, nat), upperLeft: Complex, lowerRight: Complex): Complex
    requires bounds.0 > 0 && bounds.1 > 0
  {
    Complex(ColumnRe(bounds.0 as real, pixel.0 as real, upperLeft.re, lowerRight.re),
            RowIm(bounds.1 as real, pixel.1 as real, upperLeft.im, lowerRight.im))
  }

  /** The real part at column `col` of `width`: left + col * (right - left) / width. */
  function ColumnRe(width: real, col: real, left: real, right: real): real
    requires width != 0.0
  {
    left + col * (right - left) / width
  }

  /** The imaginary part at row `row` of `height`: upper - row * (upper - lower) / height. */
  function RowIm(height: real, row: real, upper: real, lower: real): real
    requires height != 0.0
  {
    upper - row * (upper - lower) / height
  }

  /** Pixel (0, 0) maps to the upper-left corner and pixel (width, height) to the lower-right one. */
  lemma PixelToPointCorners(bounds: Bounds, upperLeft: Complex, lowerRight: Complex)
    requires bounds.0 > 0 && bounds.1 > 0
    ensures PixelToPoint(bounds, (0, 0), upperLeft, lowerRight) == upperLeft
    ensures PixelToPoint(bounds, bounds, upperLeft, lowerRight) == lowerRight
  {
    ScaleCancel(lowerRight.re - upperLeft.re, bounds.0 as real);
    ScaleCancel(upperLeft.im - lowerRight.im, bounds.1 as real);
  }

  /** The case of the test at src/main.rs:155-168. */
  lemma TestPixelToPoint()
    ensures PixelToPoint((100, 200), (25, 175), Complex(-1.0, 1.0), Complex(1.0, -1.0)) == Complex(-0.5, -0.75)
  {
  }

  /** x * y / z = x * (y / z). */
  lemma MulDiv(x: real, y: real, z: real)
    requires z != 0.0
    ensures x * y / z == x * (y / z)
  {
  }

  /** Scaling by z and then dividing by z changes nothing. */
  lemma ScaleCancel(x: real, z: real)
    requires z != 0.0
    ensures z * x / z == x
  {
  }

  /**
   * A band spans the full width: its corners are at columns 0 and `width`,
   * so column `col` of the band has the image's real part.
   */
  lemma BandColumn(width: real, col: real, left: real, right: real)
    requires width != 0.0
    ensures ColumnRe(width, col, ColumnRe(width, 0.0, left, right), ColumnRe(width, width, left, right))
              == ColumnRe(width, col, left, right)
  {
    var bandLeft, bandRight := ColumnRe(width, 0.0, left, right), ColumnRe(width, width, left, right);
    assert bandLeft == left;
    assert bandRight == right by {
      ScaleCancel(right - left, width);
    }
  }

  /**
   * A band of `bandHeight` rows whose corners are at image rows `top` and
   * `top + bandHeight`: its row `row` has the imaginary part of image row `top + row`.
   */
  lemma BandRow(height: real, top: real, bandHeight: real, row: real, upper: real, lower: real)
    requires height != 0.0 && bandHeight != 0.0
    ensures RowIm(bandHeight, row, RowIm(height, top, upper, lower), RowIm(height, top + bandHeight, upper, lower))
              == RowIm(height, top + row, upper, lower)
  {
    var step := (upper - lower) / height;
    var bandUpper := RowIm(height, top, upper, lower);
    var bandLower := RowIm(height, top + bandHeight, upper, lower);
    RowImStep(height, top, upper, lower);
    RowImStep(height, top + bandHeight, upper, lower);
    RowImStep(height, top + row, upper, lower);
    RowImStep(bandHeight, row, bandUpper, bandLower);
    StepOf(bandUpper - bandLower, bandHeight, step);
  }

  /** RowIm with the per-row step (upper - lower) / height pulled out. */
  lemma RowImStep(height: real, row: real, upper: real, lower: real)
    requires height != 0.0
    ensures RowIm(height, row, upper, lower) == upper - row * ((upper - lower) / height)
  {
    MulDiv(row, upper - lower, height);
  }

  /** Dividing b * s by b gives back s. */
  lemma StepOf(d: real, b: real, s: real)
    requires b != 0.0 && d == b * s
    ensures d / b == s
  {
    ScaleCancel(s, b);
  }

  /**
   * One pixel of a band drawn with the band's own corners, which `main`
   * computes with pixel_to_point at (0, top) and (width, top + height), is
   * the point of the whole image at the same column, `top` rows lower.
   */
  lemma BandPoint(bounds: Bounds, top: nat, height: nat, upperLeft: Complex, lowerRight: Complex, col: nat, row: nat)
    requires bounds.0 > 0 && bounds.1 > 0 && height > 0
    ensures
      var bandUpperLeft := PixelToPoint(bounds, (0, top), upperLeft, lowerRight);
      var bandLowerRight := PixelToPoint(bounds, (bounds.0, top + height), upperLeft, lowerRight);
      PixelToPoint((bounds.0, height), (col, row), bandUpperLeft, bandLowerRight)
        == PixelToPoint(bounds, (col, top + row), upperLeft, lowerRight)
  {
    assert (top + height) as real == top as real + height as real;
    assert (top + row) as real == top as real + row as real;
    BandColumn(bounds.0 as real, col as real, upperLeft.re, lowerRight.re);
    BandRow(bounds.1 as real, top as real, height as real, row as real, upperLeft.im, lowerRight.im);
  }

  /** `n as u8`: the low eight bits of n, obtained by dropping multiples of 256. */
  function AsU8(n: nat): UInt8 {
    if n < 256 then n as UInt8 else AsU8(n - 256)
  }

  /** AsU8 is reduction modulo 256 and leaves a value that fits in a byte unchanged. */
  lemma {:induction false} AsU8IsMod(n: nat)
    ensures AsU8(n) as int == n % 256
    ensures n < 256 ==> AsU8(n) as int == n
  {
    if n >= 256 {
      AsU8IsMod(n - 256);
      var q, r := (n - 256) / 256, (n - 256) % 256;
      assert (q + 1) * 256 + r == n;
      RowMajorDivMod(256, q + 1, r);
    }
  }

  /**
   * The intensity rule of `render`: `255 - count as u8` for a point that
   * escaped after `count` iterations, 0 for one that did not.
   */
  function Intensity(count: Option<nat>): UInt8 {
    match count
    case Some(n) => 255 - AsU8(n)
    case None => 0
  }

  /**
   * With the limit 255, an escape count lies in 1..254, so neither the
   * cast nor the subtraction loses anything: an escaped pixel is in
   * 1..254 and encodes its count, and only an unescaped pixel is 0.
   */
  lemma IntensityOfEscape(c: Complex)
    ensures EscapeSpec(c, Limit).Some? ==>
              1 <= Intensity(EscapeSpec(c, Limit)) <= 254 &&
              Intensity(EscapeSpec(c, Limit)) as int == 255 - EscapeSpec(c, Limit).value
    ensures Intensity(EscapeSpec(c, Limit)) == 0 <==> EscapeSpec(c, Limit).None?
  {
    EscapeCountBounds(c, Limit);
  }

  /** What happens to each point of the plane: its escape count, if any. */
  type Outcome = Complex -> Option<nat>

  /** The outcome `render` asks `escape_time` for: the escape count with the limit 255. */
  ghost const Escapes: Outcome := (c: Complex) => EscapeSpec(c, Limit)

  /** The byte stored for pixel (row, col) of an image whose points have outcomes `escape`. */
  function PixelValue(escape: Outcome, bounds: Bounds, upperLeft: Complex, lowerRight: Complex, row: nat, col: nat): UInt8
    requires bounds.0 > 0 && bounds.1 > 0
  {
    Intensity(escape(PixelToPoint(bounds, (col, row), upperLeft, lowerRight)))
  }

  /** Pixel (row, col) of the image as a function of the pair; 0 for an empty image, which has no pixels. */
  function Pixels(escape: Outcome, bounds: Bounds, upperLeft: Complex, lowerRight: Complex): (nat, nat) -> UInt8 {
    (row: nat, col: nat) =>
      if bounds.0 > 0 && bounds.1 > 0 then PixelValue(escape, bounds, upperLeft, lowerRight, row, col) else 0
  }

  lemma PixelsAt(escape: Outcome, bounds: Bounds, upperLeft: Complex, lowerRight: Complex, row: nat, col: nat)
    requires bounds.0 > 0 && bounds.1 > 0
    ensures Pixels(escape, bounds, upperLeft, lowerRight)(row, col) == PixelValue(escape, bounds, upperLeft, lowerRight, row, col)
  {
  }

  /** The contents of the image buffer: cell k holds pixel (k / width, k % width). */
  function Image(escape: Outcome, bounds: Bounds, upperLeft: Complex, lowerRight: Complex): seq<UInt8> {
    Grid(bounds.0, bounds.1, Pixels(escape, bounds, upperLeft, lowerRight))
  }

  /** Cell row * width + col of the image holds the value of pixel (row, col). */
  lemma ImageAt(escape: Outcome, bounds: Bounds, upperLeft: Complex, lowerRight: Complex, row: nat, col: nat)
    requires row < bounds.1 && col < bounds.0
    ensures row * bounds.0 + col < |Image(escape, bounds, upperLeft, lowerRight)|
    ensures Image(escape, bounds, upperLeft, lowerRight)[row * bounds.0 + col]
              == PixelValue(escape, bounds, upperLeft, lowerRight, row, col)
  {
    GridAt(bounds.0, bounds.1, Pixels(escape, bounds, upperLeft, lowerRight), row, col);
  }

  /** The value `render` computes for one pixel is the image's. */
  lemma RenderedPixel(bounds: Bounds, upperLeft: Complex, lowerRight: Complex, row: nat, col: nat)
    requires row < bounds.1 && col < bounds.0
    ensures row * bounds.0 + col < |Image(Escapes, bounds, upperLeft, lowerRight)|
    ensures Image(Escapes, bounds, upperLeft, lowerRight)[row * bounds.0 + col]
              == Intensity(EscapeSpec(PixelToPoint(bounds, (col, row), upperLeft, lowerRight), Limit))
  {
    ImageAt(Escapes, bounds, upperLeft, lowerRight, row, col);
  }

  /**
   * `render(pixels, bounds, upper_left, lower_right)` where `pixels` is the
   * slice pixels[start .. start + len]. The assertion that the slice holds
   * exactly width * height bytes (src/main.rs:71) is the precondition.
   * The slice ends up holding the image and nothing outside it changes;
   * `writes` lists the indices assigned, in order: each cell of the slice
   * exactly once, in row-major order.
   */
  method Render(pixels: array<UInt8>, start: nat, len: nat, bounds: Bounds, upperLeft: Complex, lowerRight: Complex)
    returns (ghost writes: seq<nat>)
    requires start + len <= pixels.Length
    requires len == bounds.0 * bounds.1
    modifies pixels
    ensures pixels[start..start + len] == Image(Escapes, bounds, upperLeft, lowerRight)
    ensures pixels[..start] == old(pixels[..start])
    ensures pixels[start + len..] == old(pixels[start + len..])
    ensures writes == Span(start, len)
  {
    ghost var img := Image(Escapes, bounds, upperLeft, lowerRight);
    writes := [];
    for row := 0 to bounds.1
      invariant row * bounds.0 <= len
      invariant forall j :: 0 <= j < row * bounds.0 ==> pixels[start + j] == img[j]
      invariant forall j :: 0 <= j < pixels.Length && !(start <= j < start + len) ==> pixels[j] == old(pixels[j])
      invariant writes == Span(start, row * bounds.0)
    {
      MulLe(row + 1, bounds.1, bounds.0);
      ghost var rowWrites := RenderRow(pixels, start, bounds, upperLeft, lowerRight, row, row * bounds.0, img);
      SpanConcat(start, row * bounds.0, bounds.0);
      writes := writes + rowWrites;
    }
    CellsMatch(pixels[..], start, img);
    CellsOutside(pixels[..], old(pixels[..]), start, len);
  }

  /**
   * The inner `for column in 0..bounds.0` loop of `render` for one row:
   * it fills cells row * width .. (row + 1) * width of the slice, in order,
   * and leaves the rest of the buffer alone.
   */
  method RenderRow(pixels: array<UInt8>, start: nat, bounds: Bounds, upperLeft: Complex, lowerRight: Complex,
                   row: nat, ghost first: nat, ghost img: seq<UInt8>)
    returns (ghost writes: seq<nat>)
    requires img == Image(Escapes, bounds, upperLeft, lowerRight)
    requires row < bounds.1 && first == row * bounds.0
    requires first + bounds.0 <= |img| && start + |img| <= pixels.Length
    requires forall j :: 0 <= j < first ==> pixels[start + j] == img[j]
    modifies pixels
    ensures forall j :: 0 <= j < first + bounds.0 ==> pixels[start + j] == img[j]
    ensures forall j :: 0 <= j < pixels.Length && !(start + first <= j < start + first + bounds.0) ==> pixels[j] == old(pixels[j])
    ensures writes == Span(start + first, bounds.0)
  {
    writes := [];
    for col := 0 to bounds.0
      invariant forall j :: 0 <= j < first + col ==> pixels[start + j] == img[j]
      invariant forall j :: 0 <= j < pixels.Length && !(start + first <= j < start + first + col) ==> pixels[j] == old(pixels[j])
      invariant writes == Span(start + first, col)
    {
      var point := PixelToPoint(bounds, (col, row), upperLeft, lowerRight);
      var count := EscapeTime(point, Limit);
      var value := Intensity(count);
      assert value == img[first + col] by {
        RenderedPixel(bounds, upperLeft, lowerRight, row, col);
      }
      ghost var before := pixels[..];
      pixels[start + row * bounds.0 + col] := value;
      ExtendMatch(before, pixels[..], start, first + col, img);
      SpanExtend(start + first, col);
      writes := writes + [start + first + col];
    }
  }

  /** Writing img[k] at start + k extends a match of the first k cells to k + 1. */
  lemma ExtendMatch(before: seq<UInt8>, after: seq<UInt8>, start: nat, k: nat, img: seq<UInt8>)
    requires k < |img| && start + k < |before|
    requires after == before[start + k := img[k]]
    requires forall j :: 0 <= j < k ==> before[start + j] == img[j]
    ensures forall j :: 0 <= j < k + 1 ==> after[start + j] == img[j]
  {
  }

  lemma SpanExtend(start: nat, len: nat)
    ensures Span(start, len) + [start + len] == Span(start, len + 1)
  {
  }

  lemma SpanConcat(start: nat, len: nat, more: nat)
    ensures Span(start, len) + Span(start + len, more) == Span(start, len + more)
  {
  }

  /** A stretch of `cells` matching `img` cell by cell is `img`. */
  lemma CellsMatch(cells: seq<UInt8>, start: nat, img: seq<UInt8>)
    requires start + |img| <= |cells|
    requires forall j :: 0 <= j < |img| ==> cells[start + j] == img[j]
    ensures cells[start..start + |img|] == img
  {
  }

  /** Two buffers that agree outside [start, start + len) have the same prefix and suffix around it. */
  lemma CellsOutside(cells: seq<UInt8>, before: seq<UInt8>, start: nat, len: nat)
    requires |cells| == |before| && start + len <= |cells|
    requires forall j :: 0 <= j < |cells| && !(start <= j < start + len) ==> cells[j] == before[j]
    ensures cells[..start] == before[..start] && cells[start + len..] == before[start + len..]
  {
  }

  /**
   * Rendering a band of `height` rows starting at row `top`, with the band's
   * own bounds and corners as `main` computes them, yields exactly those
   * rows of the whole image, whatever the outcome of each point.
   */
  lemma BandImage(escape: Outcome, bounds: Bounds, top: nat, height: nat, upperLeft: Complex, lowerRight: Complex)
    requires bounds.0 > 0 && height > 0 && top + height <= bounds.1
    ensures (top + height) * bounds.0 <= |Image(escape, bounds, upperLeft, lowerRight)|
    ensures
      var bandUpperLeft := PixelToPoint(bounds, (0, top), upperLeft, lowerRight);
      var bandLowerRight := PixelToPoint(bounds, (bounds.0, top + height), upperLeft, lowerRight);
      Image(escape, (bounds.0, height), bandUpperLeft, bandLowerRight)
        == Image(escape, bounds, upperLeft, lowerRight)[top * bounds.0 .. (top + height) * bounds.0]
  {
    var bandUpperLeft := PixelToPoint(bounds, (0, top), upperLeft, lowerRight);
    var bandLowerRight := PixelToPoint(bounds, (bounds.0, top + height), upperLeft, lowerRight);
    BandRowsMatch(escape, bounds, top, height, upperLeft, lowerRight);
    GridRows(bounds.0, bounds.1, Pixels(escape, bounds, upperLeft, lowerRight), top, height,
             Pixels(escape, (bounds.0, height), bandUpperLeft, bandLowerRight));
  }

  /** Pixel (r, c) of the band is pixel (top + r, c) of the image. */
  lemma BandRowsMatch(escape: Outcome, bounds: Bounds, top: nat, height: nat, upperLeft: Complex, lowerRight: Complex)
    requires bounds.0 > 0 && height > 0 && top + height <= bounds.1
    ensures
      var bandUpperLeft := PixelToPoint(bounds, (0, top), upperLeft, lowerRight);
      var bandLowerRight := PixelToPoint(bounds, (bounds.0, top + height), upperLeft, lowerRight);
      RowsMatch(bounds.0, top, height, Pixels(escape, bounds, upperLeft, lowerRight),
                Pixels(escape, (bounds.0, height), bandUpperLeft, bandLowerRight))
  {
    var bandUpperLeft := PixelToPoint(bounds, (0, top), upperLeft, lowerRight);
    var bandLowerRight := PixelToPoint(bounds, (bounds.0, top + height), upperLeft, lowerRight);
    forall r: nat, c: nat | r < height && c < bounds.0
      ensures Pixels(escape, (bounds.0, height), bandUpperLeft, bandLowerRight)(r, c)
                == Pixels(escape, bounds, upperLeft, lowerRight)(top + r, c)
    {
      BandPoint(bounds, top, height, upperLeft, lowerRight, c, r);
      PixelsAt(escape, (bounds.0, height), bandUpperLeft, bandLowerRight, r, c);
      PixelsAt(escape, bounds, upperLeft, lowerRight, top + r, c);
    }
  }
}
