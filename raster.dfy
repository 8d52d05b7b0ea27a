/**
 * Row-major grids: the layout `render` (src/main.rs:65-82) gives its
 * buffer, where pixel (row, column) of a width x height image is cell
 * row * width + column.
 */
module Raster {
  /** A byte: Rust's `u8`, the element type of the pixel buffer. */
  newtype UInt8 = x: int | 0 <= x < 0x100

  lemma MulLe(a: nat, b: nat, w: nat)
    requires a <= b
    ensures a * w <= b * w
  {
  }

  /** (row, col) with row < height and col < width has an index below width * height, and division recovers the pair. */
  lemma RowMajorIndex(width: nat, height: nat, row: nat, col: nat)
    requires row < height && col < width
    ensures row * width + col < width * height
    ensures (row * width + col) / width == row && (row * width + col) % width == col
  {
    MulLe(row + 1, height, width);
    RowMajorDivMod(width, row, col);
  }

  lemma RowMajorDivMod(width: nat, row: nat, col: nat)
    requires col < width
    ensures (row * width + col) / width == row && (row * width + col) % width == col
  {
    var k := row * width + col;
    var q, m := k / width, k % width;
    assert k == q * width + m && 0 <= m < width;
    if q < row {
      MulLe(q + 1, row, width);
      assert false;
    } else if q > row {
      MulLe(row + 1, q, width);
      assert false;
    }
  }

  /** Every index below width * height is the index of a pixel: the layout is onto. */
  lemma RowMajorOnto(width: nat, height: nat, k: nat)
    requires k < width * height
    ensures width > 0 && k / width < height && k % width < width
    ensures (k / width) * width + k % width == k
  {
  }

  /** Moving a block of rows down by `top` rows moves its cells by top * width. */
  lemma ShiftRows(width: nat, top: nat, row: nat, col: nat)
    ensures top * width + (row * width + col) == (top + row) * width + col
  {
  }

  /** The cells of a width x height image in row-major order: cell k holds pixel(k / width, k % width). */
  function Grid(width: nat, height: nat, pixel: (nat, nat) -> UInt8): (cells: seq<UInt8>)
    ensures |cells| == width * height
  {
    if width == 0 then []
    else seq(width * height, k requires 0 <= k < width * height => pixel(k / width, k % width))
  }

  /** Cell row * width + col of a grid holds pixel (row, col). */
  lemma GridAt(width: nat, height: nat, pixel: (nat, nat) -> UInt8, row: nat, col: nat)
    requires row < height && col < width
    ensures row * width + col < |Grid(width, height, pixel)|
    ensures Grid(width, height, pixel)[row * width + col] == pixel(row, col)
  {
    RowMajorIndex(width, height, row, col);
  }

  /** Pixel (r, c) of `bandPixel` is pixel (top + r, c) of `pixel` for the first `rows` rows. */
  predicate RowsMatch(width: nat, top: nat, rows: nat, pixel: (nat, nat) -> UInt8, bandPixel: (nat, nat) -> UInt8) {
    forall r: nat, c: nat :: r < rows && c < width ==> bandPixel(r, c) == pixel(top + r, c)
  }

  /**
   * A grid of `rows` rows whose pixel (r, c) is pixel (top + r, c) of a
   * taller grid is the stretch of the taller grid's cells from row `top`.
   */
  lemma GridRows(width: nat, height: nat, pixel: (nat, nat) -> UInt8, top: nat, rows: nat, bandPixel: (nat, nat) -> UInt8)
    requires top + rows <= height
    requires RowsMatch(width, top, rows, pixel, bandPixel)
    ensures (top + rows) * width <= |Grid(width, height, pixel)|
    ensures Grid(width, rows, bandPixel) == Grid(width, height, pixel)[top * width .. (top + rows) * width]
  {
    MulLe(top + rows, height, width);
    var band := Grid(width, rows, bandPixel);
    var whole := Grid(width, height, pixel);
    assert (top + rows) * width == top * width + rows * width;
    forall k | 0 <= k < rows * width
      ensures band[k] == whole[top * width + k]
    {
      RowMajorOnto(width, rows, k);
      var r, c := k / width, k % width;
      GridAt(width, rows, bandPixel, r, c);
      GridAt(width, height, pixel, top + r, c);
      ShiftRows(width, top, r, c);
    }
  }

  /** The indices start, start + 1, ..., start + len - 1, in order. */
  function Span(start: nat, len: nat): (s: seq<nat>)
    ensures |s| == len && forall j :: 0 <= j < len ==> s[j] == start + j
  {
    seq(len, j requires 0 <= j < len => start + j)
  }
}
