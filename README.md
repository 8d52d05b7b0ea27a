# Mandelbrot renderer, modelled in Dafny

The program draws a grayscale picture of the Mandelbrot set. `main`
allocates a `width * height` byte buffer. It cuts the buffer into
horizontal bands of rows with `chunks_mut`, one piece per thread. Each
band gets its own corners on the complex plane, located with
`pixel_to_point`, and is drawn with `render`. `render` runs `escape_time`
for every pixel and stores `255 - count` for a point that escaped after
`count` iterations, and 0 for one that did not escape within 255
iterations. The size argument (`1000x750`) is read with `parse_pair`.

The model has seven modules:

- `Wrappers` (wrappers.dfy) holds `Option`.
- `ComplexPlane` (complex.dfy) defines complex numbers over Dafny's exact
  `real`s.
- `Escape` (escape.dfy) has
  - the `escape_time` loop as the method `EscapeTime`;
  - its specification `EscapeSpec`: the first iteration below the limit
    whose bailout test passes.
- `Parse` (parse.dfy) has
  - `parse_pair` over an arbitrary `from_str`;
  - the decimal `from_str` of `i32` and `usize`;
  - a printer that inverts it.
- `Raster` (raster.dfy) covers the row-major layout of the buffer.
- `Render` (render.dfy) has
  - `pixel_to_point`;
  - the intensity rule;
  - the specification image `Image`;
  - `render` as a method that writes an `array` slice in place.
- `Bands` (bands.dfy) has
  - `chunks_mut`;
  - the band split of `main`;
  - the band loop run sequentially;
  - the allocation of the buffer.

The main results:

- `EscapeTime` returns `EscapeSpec`. A count is always in `1 .. limit-1`.
- `Render` leaves its slice equal to `Image`, changes nothing outside it,
  and writes each cell exactly once, in row-major order.
- Drawing a band with the corners `main` computes gives exactly the rows of
  the whole image it covers (`BandImage`). The real-number algebra of
  `pixel_to_point` makes this exact.
- The bands cover every row exactly once (`BandOfRow`, `BandOfRowUnique`).
  The top and height the loop computes for chunk i are band i of
  `BandsOf` (`LoopBands`).
- Each band step extends the finished prefix of the buffer to the end of
  its chunk, and the chunks follow one another without gaps
  (`ChunksContiguous`). So the band loop leaves the whole buffer equal to
  the image (`RenderBands`, `DrawImage`).

The band split is modelled as the code has it. Let `rows_per_band` be
`height / 8`.

- When `width == 0` or `height < 8` the chunk size is 0, and `chunks_mut`
  panics. `BandsOf` is `None` exactly then.
- Otherwise there are `ceil(height / rows_per_band)` bands. That is eight
  when 8 divides the height, and between nine and fifteen otherwise. So
  `main` may start more than eight threads.

## Model

| member | source | states |
|---|---|---|
| `ComplexPlane.Add` | src/main.rs:13 | the component-wise sum, the `+ c` of the update |
| `ComplexPlane.Mul` | src/main.rs:13 | the complex product (a.re b.re - a.im b.im, a.re b.im + a.im b.re), the `z * z` of the update |
| `ComplexPlane.NormSqr` | src/main.rs:10 | `norm_sqr` is re^2 + im^2, and it is never negative |
| `ComplexPlane.RealAxis` | src/main.rs:10-13 | on the real axis the update z * z + c and `norm_sqr` are the real ones: x * x + x and x * x |
| `Escape.Orbit` | src/main.rs:8-13 | the value of `z` at the top of iteration n: z_0 = 0 and z_{n+1} = z_n * z_n + c (`OrbitOne` and `OrbitStep` state its steps) |
| `Escape.OrbitStep` | src/main.rs:13 | one update takes z_n to z_n * z_n + c |
| `Escape.EscapeSpec` | src/main.rs:7-16 | the specification of `escape_time`: the first iteration below the limit whose test passes on the orbit of c, or None (`EscapeTime` returns it; `FirstEscape` states what it means) |
| `Escape.EscapeTime` | src/main.rs:7-16 | the loop returns the first iteration i below `limit` whose test `norm_sqr(z_i) > 4` passes, with z_0 = 0 and z_{i+1} = z_i^2 + c; it returns None when none passes; a returned count lies in 1 .. limit-1 |
| `Escape.FirstEscape` | src/main.rs:9-15 | the early-return result: Some(n) has n below the limit, a passing test at n and none before n; None means no test below the limit passes |
| `Escape.FirstEscapeIs` | src/main.rs:9-12 | the first iteration whose test passes is the value returned |
| `Escape.FirstEscapeNone` | src/main.rs:9-15 | when no test below the limit passes, the loop runs out and returns None |
| `Escape.FirstEscapePositive` | src/main.rs:8-11 | when the test at iteration 0 fails, no result is 0 |
| `Escape.FirstEscapeMonotone` | src/main.rs:9-15 | raising the limit keeps an escape already found, and a None at the higher limit means None at the lower one |
| `Escape.NoEscapeAtZero` | src/main.rs:8-10 | the first test is made on z = 0 and fails |
| `Escape.EscapeCountBounds` | src/main.rs:9-11 | an escape count is never 0 and always below the limit |
| `Escape.SmallLimitNeverEscapes` | src/main.rs:9-15 | limits 0 and 1 always give None |
| `Escape.OrbitOfOrigin` | src/main.rs:8-13 | for c = 0 the iterate z stays 0 |
| `Escape.OriginNotEscaped` | src/main.rs:10-13 | the test never passes on the orbit of c = 0 |
| `Escape.OriginNeverEscapes` | src/main.rs:7-16 | `escape_time(0, limit)` is None for every limit |
| `Escape.OrbitOne` | src/main.rs:8-13 | the first update turns z = 0 into c |
| `Escape.OutsideDiscEscapedAtOne` | src/main.rs:10-13 | outside the radius-2 disc the test at iteration 1 passes |
| `Escape.OutsideDiscEscapesAtOne` | src/main.rs:7-16 | a point with norm_sqr(c) > 4 escapes with count 1 once the limit is at least 2 |
| `Escape.TwoOnBoundary` | src/main.rs:10-13 | c = 2 lies on the bailout circle: the strict test fails at iteration 1 (norm 4) and passes at iteration 2 (norm 36) |
| `Escape.RealOrbit` | src/main.rs:8-13 | for a real c = x the first two iterates are x and x * x + x, both real |
| `Escape.OrbitOfTwo` | src/main.rs:8-13 | the orbit of c = 2 starts 2, 6 |
| `Escape.NormOnAxis` | src/main.rs:10 | `norm_sqr` of a real z = y is y * y |
| `Escape.TwoEscapesAtTwo` | src/main.rs:7-16 | `escape_time(2, limit)` is Some(2) for every limit of at least 3 |
| `Escape.EscapesAtTwo` | src/main.rs:7-16 | a point whose test first passes at iteration 2 has count 2 for limits of at least 3, and None for lower limits |
| `Parse.Find` | src/main.rs:22 | `find` gives the index of the first delimiter, and None exactly when the delimiter is absent |
| `Parse.ParsePair` | src/main.rs:21-31 | no delimiter gives None; a result comes from parsing the text before some delimiter |
| `Parse.FindFirst` | src/main.rs:22 | the split happens at the first delimiter |
| `Parse.ParsePairSplit` | src/main.rs:21-31 | for `a + delim + b` with no delimiter in `a`, the result is Some of both parses when both halves parse, and otherwise None |
| `Parse.SplitAtFirst` | src/main.rs:22-23 | every string that contains the delimiter has that decomposition |
| `Parse.ParsePairEmptyHalf` | src/main.rs:23-28 | an empty half makes the pair fail when the parser rejects "" |
| `Parse.ParseI32` | src/main.rs:23 | `from_str` with T = i32, as the tests at lines 138-142 use it: a parsed value lies in -2^31 .. 2^31-1 |
| `Parse.ParseUsize` | src/main.rs:108 | `from_str` with T = usize, as `main` parses the size: a parsed value lies in 0 .. 2^64-1 and its text does not start with '-' |
| `Parse.ParseInteger` | src/main.rs:23 | a parsed integer lies in the type's range and is an optional sign followed by decimal digits only |
| `Parse.ParseShowInt` | src/main.rs:23 | parsing the decimal numeral of an in-range integer gives it back |
| `Parse.ParseShowNat` | src/main.rs:23 | parsing the numeral of an in-range natural gives it back, for signed and unsigned types |
| `Parse.ParsePairRoundTrip` | src/main.rs:21-31 | two printed i32 values around a delimiter that is neither a digit nor '-' parse back to the pair |
| `Parse.ParsePixelsRoundTrip` | src/main.rs:108 | a printed `WIDTHxHEIGHT` with values in `usize` range parses back to (width, height) |
| `Parse.TestEmptyInput` | src/main.rs:138 | `parse_pair::<i32>("", ",")` is None |
| `Parse.TestEmptyRight` | src/main.rs:139 | `parse_pair::<i32>("10,", ",")` is None |
| `Parse.TestBothHalves` | src/main.rs:140 | `parse_pair::<i32>("10,100", ",")` is Some((10, 100)) |
| `Parse.TestEmptyLeft` | src/main.rs:141 | `parse_pair::<i32>(",100", ",")` is None |
| `Parse.TestTrailingGarbage` | src/main.rs:142 | `parse_pair("10,20xy", ",")` is None, with i32 as the element type |
| `Raster.RowMajorIndex` | src/main.rs:76 | `row * width + col` is inside the buffer, and division by the width recovers (row, col), so distinct pixels get distinct cells |
| `Raster.RowMajorOnto` | src/main.rs:73-76 | every cell of the buffer is the cell of some pixel |
| `Raster.GridAt` | src/main.rs:76 | cell `row * width + col` of a row-major grid holds pixel (row, col) |
| `Raster.GridRows` | src/main.rs:116-126 | a grid whose pixel (r, c) is pixel (top + r, c) of a taller grid is the slice of the taller grid from row `top` |
| `Render.PixelToPoint` | src/main.rs:45-59 | the point at fraction col / width of the way from upper_left.re to lower_right.re, and fraction row / height of the way down from upper_left.im to lower_right.im (`PixelToPointCorners`, `BandColumn` and `BandRow` state its properties) |
| `Render.PixelToPointCorners` | src/main.rs:45-59 | pixel (0, 0) maps to `upper_left` and pixel (width, height) maps to `lower_right` |
| `Render.TestPixelToPoint` | src/main.rs:155-168 | pixel (25, 175) of 100x200 over [-1, 1] x [-1, 1] is -0.5 - 0.75i |
| `Render.BandColumn` | src/main.rs:56 | a band that spans the full width maps each column to the same real part as the whole image |
| `Render.BandRow` | src/main.rs:57 | row r of a band whose corners sit at rows top and top + height has the imaginary part of row top + r of the whole image |
| `Render.BandPoint` | src/main.rs:119-124 | pixel (col, row) of a band with the corners `main` computes is pixel (col, top + row) of the image |
| `Render.AsU8` | src/main.rs:77 | the truncating cast `count as u8`, as repeated subtraction of 256 (`AsU8IsMod` states that it is reduction mod 256) |
| `Render.Intensity` | src/main.rs:76-79 | the byte for an `escape_time` result: 255 - count as u8 for Some(count), 0 for None (`IntensityOfEscape` states its range) |
| `Render.AsU8IsMod` | src/main.rs:77 | `count as u8` is count mod 256, and a count below 256 is unchanged |
| `Render.IntensityOfEscape` | src/main.rs:76-79 | with limit 255, an escaped pixel stores 255 - count, which lies in 1..254; a pixel is 0 exactly when the point did not escape |
| `Render.Image` | src/main.rs:73-79 | the picture `render` is to store: cell row * width + col holds the `Intensity` of the `escape_time` result, limit 255, at the point `pixel_to_point` gives for (col, row) (`ImageAt` states it) |
| `Render.ImageAt` | src/main.rs:76 | cell `row * width + col` of the image holds the value of pixel (row, col) |
| `Render.RenderedPixel` | src/main.rs:75-79 | the value `render` stores for a pixel is the image's cell for it |
| `Render.Render` | src/main.rs:65-82 | with the slice length equal to width * height (the assert at line 71), the slice ends up equal to the image and the cells outside it are unchanged; the writes are each index of the slice once, in row-major order |
| `Render.RenderRow` | src/main.rs:74-80 | one pass of the inner loop extends the finished prefix of the slice by one image row, touches only that row, and writes its cells in order |
| `Render.BandImage` | src/main.rs:119-126 | the image of a band of `height` rows from row `top`, drawn with that band's corners, is the stretch of the whole image from row `top` to row `top + height` |
| `Render.BandRowsMatch` | src/main.rs:119-126 | pixel (r, c) of the band is pixel (top + r, c) of the image |
| `Bands.ChunksFrom` | src/main.rs:116 | the chunks of `chunks_mut(size)` from cell `start` on: pieces of `size` cells, the last one shorter (`ChunkAt`, `ChunksCount` and `ChunksContiguous` state their shape) |
| `Bands.Chunks` | src/main.rs:116 | `chunks_mut(size)` over an n-cell buffer: the chunks from cell 0 |
| `Bands.ChunkAt` | src/main.rs:116 | chunk i of `chunks_mut(size)` starts at i * size, is not empty, and holds size cells or what is left |
| `Bands.ChunksCount` | src/main.rs:116 | there are ceil(n / size) chunks and no chunk for an empty buffer |
| `Bands.ChunksContiguous` | src/main.rs:116 | each chunk ends where the next begins, and the last one ends at the end of the buffer |
| `Bands.BandsOf` | src/main.rs:113-120 | the band list is missing, because the chunk size is 0 and `chunks_mut` panics, exactly when width is 0 or height is below 8 |
| `Bands.BandList` | src/main.rs:118-120 | band i of a nonzero chunk size has top `rows_per_band * i` and height `len / width` of chunk i (`BandAt` states its rows) |
| `Bands.LoopBands` | src/main.rs:114-120 | there is one band per chunk, and the top and height the loop computes for chunk i are band i of `BandsOf` |
| `Bands.ChunkRows` | src/main.rs:116-120 | chunk i starts at row `rows_per_band * i` and holds a whole number of rows, at least one and at most rows_per_band, ending inside the image |
| `Bands.BandAt` | src/main.rs:118-120 | band i has top `rows_per_band * i` and height `min(rows_per_band, height - top)`, and its chunk holds exactly those rows |
| `Bands.BandOfRow` | src/main.rs:114-120 | every row lies in band `row / rows_per_band` (no gaps) |
| `Bands.BandOfRowUnique` | src/main.rs:114-120 | a row lies in no other band (no overlaps) |
| `Bands.BandRowsBound` | src/main.rs:114-116 | the bands hold at least `height` rows and less than one band more |
| `Bands.BandCount` | src/main.rs:113-118 | there are ceil(height / rows_per_band) bands; that is always at least 8 and below 16, and exactly 8 if and only if 8 divides the height |
| `Bands.NineRows` | src/main.rs:113-118 | a 1x9 image is cut into nine bands, one more than the thread count |
| `Bands.BandSlice` | src/main.rs:119-126 | the chunk of band i holds width * height cells, and the band's image is the stretch of the whole image that the chunk covers |
| `Bands.BandShape` | src/main.rs:116-120 | the chunk of band i holds `width * (len / width)` cells, a whole number of rows, and ends inside the buffer |
| `Bands.BandInImage` | src/main.rs:118-126 | the image `render` draws for band i, with top `rows_per_band * i`, height `len / width` and the corners located at (0, top) and (width, top + height), is the stretch of the whole image that chunk i covers |
| `Bands.DrawBand` | src/main.rs:119-126 | with top and height as `main` computes them, drawing band i leaves the chunk holding the band's image and the cells before and after the chunk unchanged, writing each cell of the chunk once, in order |
| `Bands.RenderBand` | src/main.rs:118-127 | one band step draws chunk i so that the finished prefix of the buffer grows to the end of that chunk, leaves the cells after the chunk unchanged, and writes each of its cells once |
| `Bands.RenderBands` | src/main.rs:113-131 | after all bands are drawn, the buffer equals the image of the whole picture, and every cell has been written exactly once, in increasing order |
| `Bands.DrawImage` | src/main.rs:111-131 | a fresh `width * height` buffer, once drawn band by band, holds the image |

## Left out

- `f64` arithmetic: complex numbers and `pixel_to_point` use exact reals.
  - The band corners are computed separately and then interpolated again.
  - These results are therefore exact over the reals only: `BandPoint`,
    `BandImage`, `RenderBands`, `DrawImage`.
  - In `f64`, rounding can move the point of a band's pixel by a few
    units in the last place. Its escape count, and so its byte, may then
    differ from `Image`.
- The `f64` cases of the parse test are not modelled: `"0.5x1.5"` at line
  143, and `parse_complex` with its test at lines 34-39 and 146-152. They
  depend on float parsing.
- Parse.TestTrailingGarbage: the source checks `"10,20xy"` with `f64` as the
  element type. The model checks it with `i32`. The right half is rejected
  either way.
- Parse.ParsePair: the delimiter is a single character, not a `&str`. The
  source slices `s[index + 1..]`, which skips exactly one byte, so it is
  only meaningful for a one-byte delimiter. Strings are sequences of
  characters rather than UTF-8 bytes.
- The `dbg!` trace on a failed parse (line 26) is output only.
- `write_image` (lines 85-94) is file I/O and is not modelled.
- Argument handling in `main` (lines 97-110) is not modelled: reading
  `env::args`, the usage message, `exit(1)` and the `expect` panics.
  `ParsePixelsRoundTrip` covers the parse of the size argument.
- Threads: `crossbeam::scope` and `spawn` (lines 117-130) run the bands
  concurrently. The model runs them one after another. That is the same
  computation, because each band writes only its own chunk and reads
  nothing shared.
- The panics are preconditions of the model:
  - the `assert!` at line 71 is a precondition of `Render`;
  - `chunks_mut(0)` is excluded by the preconditions of `RenderBands` and
    `DrawImage` (`width > 0`, `height >= 8`);
  - `BandsOf` states when that panic happens.
- Escape.EscapeTime: `EscapeSpec` and `FirstEscape` are ghost, because
  "the first passing iteration" is chosen with a non-constructive
  such-that. The method's result is proved equal to it.
- Render.Render, Render.RenderRow, Bands.RenderBands, Bands.RenderBand and
  Bands.DrawBand report the order of their writes in a ghost out-parameter,
  a sequence of indices. That sequence is a record of the stores, not a
  value the source returns.
- Integer widths:
  - `u8` is the `UInt8` newtype;
  - `count as u8` is written out as reduction mod 256;
  - `usize` products in `main` and `render` are unbounded naturals, so an
    overflowing `width * height` is not modelled.
