/**
 * The band decomposition of `main` (src/main.rs:111-131): the buffer is
 * cut with `chunks_mut(rows_per_band * width)` into horizontal bands, each
 * band is located on the plane with `pixel_to_point`, and `render` draws
 * it. The program runs the bands on threads, concurrently, on disjoint
 * slices; here they run one after the other, which computes the same
 * buffer because no band reads or writes outside its own slice.
 */
module Bands {
  import opened Wrappers
  import opened ComplexPlane
  import opened Raster
  import opened Render

  /** The number of threads `main` plans for. */
  const Threads: nat := 8

  function Min(a: nat, b: nat): nat {
    if a <= b then a else b
  }

  // ---------------------------------------------------------------------
  // `slice::chunks_mut`
  // ---------------------------------------------------------------------

  /** A sub-slice: the cells start .. start + len of the buffer. */
  datatype Chunk = Chunk(start: nat, len: nat)

  /**
   * The chunks `chunks_mut(size)` yields for the cells start .. n: pieces
   * of `size` cells, in order, the last one holding what is left.
   */
  function ChunksFrom(start: nat, n: nat, size: nat): seq<Chunk>
    requires size > 0
    decreases n - start
  {
    if start >= n then [] else [Chunk(start, Min(size, n - start))] + ChunksFrom(start + size, n, size)
  }

  /** `chunks_mut(size)` on a slice of n cells. */
  function Chunks(n: nat, size: nat): seq<Chunk>
    requires size > 0
  {
    ChunksFrom(0, n, size)
  }

  lemma {:induction false} ChunksFromAt(start: nat, n: nat, size: nat, i: nat)
    requires size > 0 && i < |ChunksFrom(start, n, size)|
    decreases i
    ensures start + i * size < n
    ensures ChunksFrom(start, n, size)[i] == Chunk(start + i * size, Min(size, n - (start + i * size)))
  {
    if i > 0 {
      var rest := ChunksFrom(start + size, n, size);
      assert ChunksFrom(start, n, size)[i] == rest[i - 1];
      ChunksFromAt(start + size, n, size, i - 1);
      StepScale(i, size);
    }
  }

  lemma {:induction false} ChunksFromCount(start: nat, n: nat, size: nat)
    requires size > 0
    decreases n - start
    ensures start >= n ==> |ChunksFrom(start, n, size)| == 0
    ensures start < n ==> var c := |ChunksFrom(start, n, size)|; c > 0 && n - start <= c * size < n - start + size
  {
    if start < n {
      ChunksFromCount(start + size, n, size);
      StepScale(|ChunksFrom(start, n, size)|, size);
    }
  }

  /** Chunk i starts at i * size and holds size cells, or what remains before n. */
  lemma ChunkAt(n: nat, size: nat, i: nat)
    requires size > 0 && i < |Chunks(n, size)|
    ensures i * size < n
    ensures Chunks(n, size)[i] == Chunk(i * size, Min(size, n - i * size))
    ensures Chunks(n, size)[i].len > 0
  {
    ChunksFromAt(0, n, size, i);
  }

  /** There are ceil(n / size) chunks: the last one ends at n and is not empty. */
  lemma ChunksCount(n: nat, size: nat)
    requires size > 0
    ensures n == 0 ==> |Chunks(n, size)| == 0
    ensures n > 0 ==> var c := |Chunks(n, size)|; c > 0 && n <= c * size < n + size
    ensures |Chunks(n, size)| == (n + size - 1) / size
  {
    ChunksFromCount(0, n, size);
    var c := |Chunks(n, size)|;
    if n > 0 {
      CeilDiv(n, size, c);
    }
  }

  /** c = ceil(n / size) when n <= c * size < n + size. */
  lemma CeilDiv(n: nat, size: nat, c: nat)
    requires size > 0 && n > 0 && n <= c * size < n + size
    ensures (n + size - 1) / size == c
  {
    RowMajorDivMod(size, c, n + size - 1 - c * size);
  }

  /** Each chunk ends where the next one starts; the last one ends at n. */
  lemma ChunksContiguous(n: nat, size: nat, i: nat)
    requires size > 0 && i < |Chunks(n, size)|
    ensures Chunks(n, size)[i].start + Chunks(n, size)[i].len == if i + 1 < |Chunks(n, size)| then Chunks(n, size)[i + 1].start else n
  {
    var c := |Chunks(n, size)|;
    ChunkAt(n, size, i);
    ChunksCount(n, size);
    StepScale(i + 1, size);
    if i + 1 < c {
      ChunkAt(n, size, i + 1);
    }
  }

  // ---------------------------------------------------------------------
  // Bands of rows
  // ---------------------------------------------------------------------

  /** A horizontal band of the image: `height` rows from row `top`. */
  datatype Band = Band(top: nat, height: nat)

  /** Row r lies in band b. */
  predicate InBand(b: Band, r: nat) {
    b.top <= r < b.top + b.height
  }

  /**
   * The bands `main` hands to its threads for a width x height image:
   * band i is chunk i of `chunks_mut(rows_per_band * width)`, with
   * top = rows_per_band * i and height = len / width. None where the chunk
   * size is 0, on which `chunks_mut` panics.
   */
  function BandsOf(width: nat, height: nat): (r: Option<seq<Band>>)
    ensures r.None? <==> width == 0 || height < Threads
  {
    var rowsPerBand := height / Threads;
    if rowsPerBand == 0 || width == 0 then None
    else Some(BandList(width, height, rowsPerBand))
  }

  /** The bands of a split with a nonzero chunk size of rowsPerBand * width cells. */
  function BandList(width: nat, height: nat, rowsPerBand: nat): seq<Band>
    requires width > 0 && rowsPerBand > 0
  {
    MulLe(1, rowsPerBand, width);
    var chunks := Chunks(width * height, rowsPerBand * width);
    seq(|chunks|, i requires 0 <= i < |chunks| => Band(rowsPerBand * i, chunks[i].len / width))
  }

  /**
   * Chunk i of the band split, measured in rows: it starts at row
   * rows_per_band * i, holds a whole number of rows, at least one, at most
   * rows_per_band, and ends inside the image.
   */
  lemma ChunkRows(width: nat, height: nat, i: nat)
    requires width > 0 && height >= Threads
    requires i < |Chunks(width * height, (height / Threads) * width)|
    ensures
      var rowsPerBand := height / Threads;
      var ch := Chunks(width * height, rowsPerBand * width)[i];
      var rows := ch.len / width;
      && rowsPerBand * i < height
      && rows == Min(rowsPerBand, height - rowsPerBand * i)
      && rows > 0 && rowsPerBand * i + rows <= height
      && ch.start == (rowsPerBand * i) * width
      && ch.len == rows * width
      && ch.start + ch.len == (rowsPerBand * i + rows) * width
  {
    var rowsPerBand := height / Threads;
    var size := rowsPerBand * width;
    var top := rowsPerBand * i;
    var ch := Chunks(width * height, size)[i];
    assert ch.start == top * width && top * width < width * height by {
      ChunkAt(width * height, size, i);
      MulAssoc(i, rowsPerBand, width);
    }
    assert top < height by {
      if top >= height {
        MulLe(height, top, width);
        assert false;
      }
    }
    var rows := Min(rowsPerBand, height - top);
    assert ch.len == rows * width by {
      ChunkAt(width * height, size, i);
      MulAssoc(i, rowsPerBand, width);
      SubScale(height, top, width);
      MinScale(rowsPerBand, height - top, width);
    }
    assert ch.len / width == rows by {
      RowMajorDivMod(width, rows, 0);
    }
    AddScale(top, rows, width);
  }

  lemma StepScale(i: nat, w: nat)
    requires i > 0
    ensures (i - 1) * w + w == i * w
  {
  }

  /** Dividing both sides of a * w < b * w by w > 0. */
  lemma ScaleLtBack(a: nat, b: nat, w: nat)
    requires w > 0 && a * w < b * w
    ensures a < b
  {
    if a >= b {
      MulLe(b, a, w);
    }
  }

  /** Dividing both sides of a * w <= b * w by w > 0. */
  lemma ScaleLeBack(a: nat, b: nat, w: nat)
    requires w > 0 && a * w <= b * w
    ensures a <= b
  {
    if a > b {
      MulLe(b + 1, a, w);
    }
  }

  lemma SubScale(h: nat, t: nat, w: nat)
    requires t <= h
    ensures w * h - t * w == (h - t) * w
  {
  }

  lemma AddScale(t: nat, r: nat, w: nat)
    ensures t * w + r * w == (t + r) * w
  {
  }

  lemma MulAssoc(i: nat, r: nat, w: nat)
    ensures i * (r * w) == (r * i) * w
  {
  }

  lemma MinScale(a: nat, b: nat, w: nat)
    ensures Min(a * w, b * w) == Min(a, b) * w
  {
    if a <= b {
      MulLe(a, b, w);
    } else {
      MulLe(b, a, w);
    }
  }

  /** Band i of `main`: it starts at row rows_per_band * i and holds the rows of chunk i. */
  lemma BandAt(width: nat, height: nat, i: nat)
    requires width > 0 && height >= Threads
    requires i < |BandsOf(width, height).value|
    ensures
      var rowsPerBand := height / Threads;
      var b := BandsOf(width, height).value[i];
      && b.top == rowsPerBand * i && b.top < height
      && b.height == Min(rowsPerBand, height - b.top)
      && b.height > 0 && b.top + b.height <= height
      && Chunks(width * height, rowsPerBand * width)[i] == Chunk(b.top * width, b.height * width)
  {
    ChunkRows(width, height, i);
  }

  /**
   * The loop of `main` and `BandsOf` describe the same bands: there is one
   * band per chunk, and the top = rows_per_band * i and height = len / width
   * that the loop computes for chunk i are band i.
   */
  lemma LoopBands(width: nat, height: nat)
    requires width > 0 && height >= Threads
    ensures
      var rowsPerBand := height / Threads;
      var chunks := Chunks(width * height, rowsPerBand * width);
      var bands := BandsOf(width, height).value;
      && |bands| == |chunks|
      && forall i :: 0 <= i < |chunks| ==> bands[i] == Band(rowsPerBand * i, chunks[i].len / width)
  {
  }

  /** Every row of the image lies in band row / rows_per_band. */
  lemma BandOfRow(width: nat, height: nat, row: nat)
    requires width > 0 && height >= Threads && row < height
    ensures
      var rowsPerBand := height / Threads;
      var bands := BandsOf(width, height).value;
      row / rowsPerBand < |bands| && InBand(bands[row / rowsPerBand], row)
  {
    var rowsPerBand := height / Threads;
    var bands := BandsOf(width, height).value;
    var j := row / rowsPerBand;
    DivBounds(row, rowsPerBand);
    assert j < |bands| by {
      BandRowsBound(width, height);
      if j >= |bands| {
        MulLe(|bands|, j, rowsPerBand);
        assert false;
      }
    }
    BandAt(width, height, j);
  }

  /** A row lies in no band other than band row / rows_per_band: the bands do not overlap. */
  lemma BandOfRowUnique(width: nat, height: nat, row: nat, i: nat)
    requires width > 0 && height >= Threads
    requires i < |BandsOf(width, height).value| && InBand(BandsOf(width, height).value[i], row)
    ensures i == row / (height / Threads)
  {
    var rowsPerBand := height / Threads;
    BandAt(width, height, i);
    RowMajorDivMod(rowsPerBand, i, row - rowsPerBand * i);
  }

  /** (x / r) * r <= x < (x / r) * r + r. */
  lemma DivBounds(x: nat, r: nat)
    requires r > 0
    ensures (x / r) * r <= x < (x / r) * r + r
  {
  }

  /** The bands hold the rows: height <= c * rows_per_band < height + rows_per_band for c bands. */
  lemma BandRowsBound(width: nat, height: nat)
    requires width > 0 && height >= Threads
    ensures
      var rowsPerBand := height / Threads;
      var c := |BandsOf(width, height).value|;
      c > 0 && height <= c * rowsPerBand < height + rowsPerBand
  {
    var rowsPerBand := height / Threads;
    var size := rowsPerBand * width;
    var c := |BandsOf(width, height).value|;
    assert c > 0 && width * height <= c * size < width * height + size by {
      ChunksCount(width * height, size);
    }
    assert height * width <= (c * rowsPerBand) * width < (height + rowsPerBand) * width by {
      MulAssoc(c, rowsPerBand, width);
      AddScale(height, rowsPerBand, width);
    }
    ScaleLeBack(height, c * rowsPerBand, width);
    ScaleLtBack(c * rowsPerBand, height + rowsPerBand, width);
  }

  /**
   * There are ceil(height / rows_per_band) bands: never fewer than the
   * eight threads, exactly eight when eight divides the height, and more
   * (up to fifteen) otherwise.
   */
  lemma BandCount(width: nat, height: nat)
    requires width > 0 && height >= Threads
    ensures
      var rowsPerBand := height / Threads;
      var c := |BandsOf(width, height).value|;
      && c == (height + rowsPerBand - 1) / rowsPerBand
      && Threads <= c < 2 * Threads
      && (c == Threads <==> height % Threads == 0)
  {
    var rowsPerBand := height / Threads;
    var c := |BandsOf(width, height).value|;
    BandRowsBound(width, height);
    CeilDiv(height, rowsPerBand, c);
    assert height == Threads * rowsPerBand + height % Threads;
    ScaleLeBack(Threads, c, rowsPerBand);
    if height % Threads == 0 {
      ScaleLtBack(c, Threads + 1, rowsPerBand);
    }
    if c >= 2 * Threads {
      MulLe(2 * Threads, c, rowsPerBand);
    }
  }

  /** A nine-row image is cut into nine one-row bands: more bands than threads. */
  lemma NineRows()
    ensures |BandsOf(1, 9).value| == 9
  {
    BandCount(1, 9);
  }

  // ---------------------------------------------------------------------
  // Drawing the bands
  // ---------------------------------------------------------------------

  /**
   * The band loop of `main`, run sequentially: for band i, top =
   * rows_per_band * i, height = len / width, its corners are located with
   * pixel_to_point and `render` draws it into its own chunk. The whole
   * buffer ends up holding the image, and every cell is written exactly
   * once, in increasing order.
   */
  method RenderBands(pixels: array<UInt8>, bounds: Bounds, upperLeft: Complex, lowerRight: Complex)
    returns (ghost writes: seq<nat>)
    requires bounds.0 > 0 && bounds.1 >= Threads
    requires pixels.Length == bounds.0 * bounds.1
    modifies pixels
    ensures pixels[..] == Image(Escapes, bounds, upperLeft, lowerRight)
    ensures writes == Span(0, pixels.Length)
  {
    ghost var img := Image(Escapes, bounds, upperLeft, lowerRight);
    var rowsPerBand := bounds.1 / Threads;
    var bands := Chunks(pixels.Length, rowsPerBand * bounds.0);
    ghost var n := pixels.Length;
    assert |img| == n;
    BandsStart(bounds.0, bounds.1);
    ghost var done: nat := 0;
    writes := [];
    for i := 0 to |bands|
      invariant done == if i < |bands| then bands[i].start else n
      invariant done <= n
      invariant pixels[..done] == img[..done]
      invariant writes == Span(0, done)
    {
      ghost var bandWrites := RenderBand(pixels, bounds, upperLeft, lowerRight, i, bands[i], img);
      ChunksContiguous(n, rowsPerBand * bounds.0, i);
      SpanConcat(0, done, bands[i].len);
      writes := writes + bandWrites;
      done := bands[i].start + bands[i].len;
    }
  }

  /**
   * One iteration of the band loop: band i gets top = rows_per_band * i and
   * height = len / width (band i of `BandsOf`, by `LoopBands`), and is drawn
   * into its chunk, which then holds its
   * stretch of the whole image; a prefix of the buffer that matched the
   * image up to the chunk now matches it to the chunk's end.
   */
  method RenderBand(pixels: array<UInt8>, bounds: Bounds, upperLeft: Complex, lowerRight: Complex,
                    i: nat, band: Chunk, ghost img: seq<UInt8>)
    returns (ghost writes: seq<nat>)
    requires bounds.0 > 0 && bounds.1 >= Threads
    requires pixels.Length == bounds.0 * bounds.1
    requires img == Image(Escapes, bounds, upperLeft, lowerRight) && |img| == pixels.Length
    requires i < |Chunks(pixels.Length, (bounds.1 / Threads) * bounds.0)|
    requires band == Chunks(pixels.Length, (bounds.1 / Threads) * bounds.0)[i]
    requires band.start <= pixels.Length && pixels[..band.start] == img[..band.start]
    modifies pixels
    ensures band.start + band.len <= pixels.Length
    ensures pixels[..band.start + band.len] == img[..band.start + band.len]
    ensures pixels[band.start + band.len..] == old(pixels[band.start + band.len..])
    ensures writes == Span(band.start, band.len)
  {
    var rowsPerBand := bounds.1 / Threads;
    var top := rowsPerBand * i;
    var height := band.len / bounds.0;
    assert Band(top, height) == BandsOf(bounds.0, bounds.1).value[i] by {
      LoopBands(bounds.0, bounds.1);
    }
    BandShape(bounds.0, bounds.1, i, band);
    writes := DrawBand(pixels, bounds, upperLeft, lowerRight, i, band, top, height);
    BandInImage(bounds, upperLeft, lowerRight, i, band, top, height, img);
    ExtendPrefix(pixels[..], img, band.start, band.len);
  }

  /**
   * `render(band, band_bounds, band_upper_left, band_lower_right)` for band
   * i, given its top row and height: the corners are located with
   * pixel_to_point at (0, top) and (width, top + height), and the chunk is
   * drawn with them.
   */
  method DrawBand(pixels: array<UInt8>, bounds: Bounds, upperLeft: Complex, lowerRight: Complex,
                  i: nat, band: Chunk, top: nat, height: nat)
    returns (ghost writes: seq<nat>)
    requires bounds.0 > 0 && bounds.1 >= Threads
    requires pixels.Length == bounds.0 * bounds.1
    requires i < |Chunks(pixels.Length, (bounds.1 / Threads) * bounds.0)|
    requires band == Chunks(pixels.Length, (bounds.1 / Threads) * bounds.0)[i]
    requires top == (bounds.1 / Threads) * i && height == band.len / bounds.0
    modifies pixels
    ensures band.start + band.len <= pixels.Length
    ensures pixels[band.start..band.start + band.len]
         == Image(Escapes, (bounds.0, height), PixelToPoint(bounds, (0, top), upperLeft, lowerRight),
                  PixelToPoint(bounds, (bounds.0, top + height), upperLeft, lowerRight))
    ensures pixels[..band.start] == old(pixels[..band.start])
    ensures pixels[band.start + band.len..] == old(pixels[band.start + band.len..])
    ensures writes == Span(band.start, band.len)
  {
    var bandBounds := (bounds.0, height);
    var bandUpperLeft := PixelToPoint(bounds, (0, top), upperLeft, lowerRight);
    var bandLowerRight := PixelToPoint(bounds, (bounds.0, top + height), upperLeft, lowerRight);
    BandShape(bounds.0, bounds.1, i, band);
    writes := Render.Render(pixels, band.start, band.len, bandBounds, bandUpperLeft, bandLowerRight);
  }

  /** Band i's chunk holds a whole number of rows, width * (len / width) cells, inside the buffer. */
  lemma BandShape(width: nat, height: nat, i: nat, band: Chunk)
    requires width > 0 && height >= Threads
    requires i < |Chunks(width * height, (height / Threads) * width)|
    requires band == Chunks(width * height, (height / Threads) * width)[i]
    ensures band.len == width * (band.len / width)
    ensures band.start + band.len <= width * height
  {
    var top, rows := (height / Threads) * i, band.len / width;
    assert band.start == top * width && band.len == rows * width && top + rows <= height by {
      ChunkRows(width, height, i);
    }
    RowsFit(width, height, top, rows, band.start, band.len);
  }

  /** Rows top .. top + rows of a `height`-row image, `width` cells per row, end inside the buffer. */
  lemma RowsFit(width: nat, height: nat, top: nat, rows: nat, start: nat, len: nat)
    requires start == top * width && len == rows * width && top + rows <= height
    ensures len == width * rows && start + len <= width * height
  {
    MulLe(top + rows, height, width);
  }

  /**
   * The picture `render` draws for band i, with top = rows_per_band * i,
   * height = len / width and its corners at (0, top) and (width, top +
   * height), is the stretch of the whole image that its chunk covers.
   */
  lemma BandInImage(bounds: Bounds, upperLeft: Complex, lowerRight: Complex, i: nat, band: Chunk,
                    top: nat, height: nat, img: seq<UInt8>)
    requires bounds.0 > 0 && bounds.1 >= Threads
    requires img == Image(Escapes, bounds, upperLeft, lowerRight)
    requires i < |Chunks(bounds.0 * bounds.1, (bounds.1 / Threads) * bounds.0)|
    requires band == Chunks(bounds.0 * bounds.1, (bounds.1 / Threads) * bounds.0)[i]
    requires top == (bounds.1 / Threads) * i && height == band.len / bounds.0
    ensures band.start + band.len <= |img|
    ensures Image(Escapes, (bounds.0, height), PixelToPoint(bounds, (0, top), upperLeft, lowerRight),
                  PixelToPoint(bounds, (bounds.0, top + height), upperLeft, lowerRight))
         == img[band.start .. band.start + band.len]
  {
    BandSlice(bounds, upperLeft, lowerRight, i, band, top, (bounds.0, height),
              PixelToPoint(bounds, (0, top), upperLeft, lowerRight),
              PixelToPoint(bounds, (bounds.0, top + height), upperLeft, lowerRight), img);
  }

  /** There is at least one band, and the first one starts at cell 0. */
  lemma BandsStart(width: nat, height: nat)
    requires width > 0 && height >= Threads
    ensures
      var chunks := Chunks(width * height, (height / Threads) * width);
      |chunks| > 0 && chunks[0].start == 0
  {
    MulLe(1, height, width);
    MulLe(1, height / Threads, width);
    ChunksCount(width * height, (height / Threads) * width);
    ChunkAt(width * height, (height / Threads) * width, 0);
  }

  /**
   * Band i as `main` hands it to `render`: its chunk holds width * height
   * cells, and the image of the band, between the corners located with
   * pixel_to_point, is the stretch of the whole image that the chunk covers.
   */
  lemma BandSlice(bounds: Bounds, upperLeft: Complex, lowerRight: Complex, i: nat, band: Chunk,
                   top: nat, bandBounds: Bounds, bandUpperLeft: Complex, bandLowerRight: Complex, img: seq<UInt8>)
    requires bounds.0 > 0 && bounds.1 >= Threads
    requires img == Image(Escapes, bounds, upperLeft, lowerRight)
    requires i < |Chunks(bounds.0 * bounds.1, (bounds.1 / Threads) * bounds.0)|
    requires band == Chunks(bounds.0 * bounds.1, (bounds.1 / Threads) * bounds.0)[i]
    requires top == (bounds.1 / Threads) * i && bandBounds == (bounds.0, band.len / bounds.0)
    requires bandUpperLeft == PixelToPoint(bounds, (0, top), upperLeft, lowerRight)
    requires bandLowerRight == PixelToPoint(bounds, (bounds.0, top + bandBounds.1), upperLeft, lowerRight)
    ensures band.len == bandBounds.0 * bandBounds.1
    ensures band.start + band.len <= |img|
    ensures Image(Escapes, bandBounds, bandUpperLeft, bandLowerRight) == img[band.start .. band.start + band.len]
  {
    var height := bandBounds.1;
    ChunkRows(bounds.0, bounds.1, i);
    MulLe(top + height, bounds.1, bounds.0);
    BandImage(Escapes, bounds, top, height, upperLeft, lowerRight);
  }

  /** A prefix that matches, followed by a stretch that matches, is a longer prefix that matches. */
  lemma ExtendPrefix(a: seq<UInt8>, b: seq<UInt8>, start: nat, len: nat)
    requires start + len <= |a| && start + len <= |b|
    requires a[..start] == b[..start] && a[start..start + len] == b[start..start + len]
    ensures a[..start + len] == b[..start + len]
  {
    assert a[..start + len] == a[..start] + a[start..start + len];
    assert b[..start + len] == b[..start] + b[start..start + len];
  }

  /**
   * `main` after argument parsing: `vec![0; width * height]`, then the
   * bands drawn into it. The new buffer holds the image.
   */
  method DrawImage(bounds: Bounds, upperLeft: Complex, lowerRight: Complex) returns (pixels: array<UInt8>)
    requires bounds.0 > 0 && bounds.1 >= Threads
    ensures fresh(pixels)
    ensures pixels[..] == Image(Escapes, bounds, upperLeft, lowerRight)
  {
    pixels := new UInt8[bounds.0 * bounds.1](_ => 0);
    ghost var writes := RenderBands(pixels, bounds, upperLeft, lowerRight);
  }
}
