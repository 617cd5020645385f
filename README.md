# hls_video_block in Dafny

A model of the image-processing chain of the 2D filter video block
(`modules/2d_filter_xfopencv/hls_video_block.cpp`). One video frame of
`width × height` 24-bit RGB words passes through five stages:

1. `strm2mat` copies the AXI stream into a mat.
2. `rgb2gry` converts each word to gray (`red/8 + green/8 + blue/8`).
3. `hls_2DFilter` is a raster-order line-buffer / sliding-window engine. It feeds a 5×5 window
   to `sobel_operator` and emits a binary edge map.
4. `gry2rgb` replicates each gray value into the three byte fields of the output word.
5. `mat2strm` copies the result to the output stream.

The model has five modules:

- `Types`: the scalar types (`uint8`, `uint24`, a signed 8-bit `int8` for `char`), the
  constants `FILTER_OFFS = 2` and `FILTER_SIZE = 5`, and the `ap_uint::range` bit fields
  (`Field`, `SetField`, `Pack`). `ToChar` is the conversion of an `int` to a `char`.
- `Color`:
  - `rgb2gry` and `gry2rgb` per pixel (functions) and per frame (functions that specify them);
  - the two nested raster loops as methods over a local array, proved equal to the frame
    functions.
- `Sobel`: `sobel_operator`. It is a function that folds the nine products of the 3×3 corner
  into wrapping char accumulators. `SobelLoops` keeps the source's two offset loops and is
  proved equal to that function.
- `LineBufferFilter`: `hls_2DFilter` as a method.
  - It allocates the `(width + 4) × 5` line buffer and the 5×5 window as `array2`s, and runs
    the row and column loops.
  - Each scan position goes through the three phases of the loop body (`Ingest`, `Emit`,
    `Shuffle`). Each phase is built from array-update methods for the source's inner loops.
  - The loop invariants say exactly what every window cell holds before each scan position
    (`WindowCell`). They also say what every buffer column the scan reads holds (`BufferCell`,
    buffer columns `2 .. width + 1`). The margin columns 0, 1, `width + 2` and `width + 3` are
    not tracked, because the scan never reads them. Around them, lemmas explain what
    the emitted results mean.
- `VideoBlock`: `strm2mat`, `mat2strm` and `hls_video_block`. `hls_video_block` composes the
  stages; `Pipeline` is the function it is proved equal to.

The line buffer and the window are never initialised in the source. The same holds for the
output word of `gry2rgb`. Their starting contents are parameters (`Uninitialised`,
`previous`). The source fixes the geometry at 1280 × 720. The model takes `width >= 4` and
`height >= 1` as parameters.

## Behaviour as written

The model follows the code. In several places the code does not behave like an idealised
centred 5×5 Sobel filter with exact arithmetic and symmetric border replication, or like its
own comments:

- `sobel_operator` reads only the window cells `[0..2][0..2]` (lines 223-229). It does not
  read the whole 5×5 window, and it uses only the top-left 3×3 of each kernel. The comment at
  line 62 calls it a 3x3 filter.
- `x_mag` and `y_mag` are `char` (line 217), taken here as signed 8-bit two's complement. The
  sums wrap after every addition, which exact arithmetic would not do.
  - `Sobel.AccumulatorWraps` exhibits a window holding one cell of gray 90, a value `rgb2gry`
    can produce. Its exact gradient magnitudes sum to 360, yet it is reported as no edge.
- Because only the 3×3 corner is weighted, the weights do not cancel. A flat window of gray 10
  is an edge (`Sobel.FlatWindowIsEdge`), where a centred Sobel filter would see no edge in a
  flat field.
- The right-border writes of image column `width - 1` go to buffer columns `width` and
  `width - 1` (line 75), not to the margin columns `width + 2` and `width + 3`.
  - Buffer columns `2` and `width + 1` (image columns 0 and `width - 1`) never receive an
    ingest, so they emit their starting value forever.
  - Image columns `width - 3` and `width - 2` see the last pixel of the frame once the scan
    has passed the bottom row.
- The window's newest column is the one being visited. Result `k` is therefore centred three
  columns to the left of pixel `k`, vertically centred on its row (`InteriorOutput`).
- Results are written at raw index `row * width + col` for rows `3 .. height + 2`
  (line 96). That is `(FILTER_OFFS + 1) * width + k` for result `k`, past the end of a
  `width × height` mat.
  - `Filter2D` returns these raw indices.
  - The composition treats the mats between the stages as the FIFOs that the `DATAFLOW` and
    `STREAM` pragmas (lines 176-186) make of them: result `k` is the `k`-th word of the next
    stage.
- A stream with fewer than `width × height` words makes `strm2mat` block on its read
  (line 159). The model returns `None` for such a stream.
- `hls::abs` of a `char` is taken as the mathematical absolute value.

## Model

| member | source | states |
|---|---|---|
| Types.FieldsOfPack | modules/2d_filter_xfopencv/hls_video_block.cpp:132-134 | the three byte fields of a packed word read back the bytes packed into it |
| Types.PackOfFields | modules/2d_filter_xfopencv/hls_video_block.cpp:132-134 | a 24-bit word is determined by its three byte fields |
| Types.Field | modules/2d_filter_xfopencv/hls_video_block.cpp:132-134 | reading byte k of a 24-bit word: the top byte needs no mask, and a word below 0x100 has only its lowest byte set (FieldsOfPack and PackOfFields say the three reads take the word apart exactly) |
| Types.SetField | modules/2d_filter_xfopencv/hls_video_block.cpp:149-151 | assigning `range(8k+7, 8k)` sets field k to the byte and leaves the other two fields unchanged |
| Types.ToChar | modules/2d_filter_xfopencv/hls_video_block.cpp:217-229 | assigning an int to a char keeps it congruent modulo 256 and within the signed 8-bit range |
| Types.ToCharCongruent | modules/2d_filter_xfopencv/hls_video_block.cpp:228-229 | the char an int becomes depends on the int only modulo 256 |
| Types.ToCharAdd | modules/2d_filter_xfopencv/hls_video_block.cpp:228-229 | wrapping after an addition and wrapping once at the end give the same char |
| Color.Rgb2Gry | modules/2d_filter_xfopencv/hls_video_block.cpp:131-136 | the gray value is at most 93, so it always fits in 8 bits without saturation |
| Color.Rgb2GryBlack | modules/2d_filter_xfopencv/hls_video_block.cpp:132-136 | a pixel turns black exactly when all three channels are below 8 |
| Color.Gry2Rgb | modules/2d_filter_xfopencv/hls_video_block.cpp:148-151 | every byte field of the output word is the gray value |
| Color.Gry2RgbOverwrites | modules/2d_filter_xfopencv/hls_video_block.cpp:142-151 | whatever the output word held before, it becomes the gray value replicated three times |
| Color.GrayRoundTrip | modules/2d_filter_xfopencv/hls_video_block.cpp:136-151 | gray g expanded to RGB and converted back gives 3 * (g / 8) |
| Color.Rgb2GryFrame | modules/2d_filter_xfopencv/hls_video_block.cpp:128-138 | the gray frame has the input's length, and each pixel is the conversion of the input word at the same raster index (at most 93) |
| Color.Gry2RgbFrame | modules/2d_filter_xfopencv/hls_video_block.cpp:145-154 | the RGB frame has the gray frame's length, and every field of each word is the gray pixel at the same index |
| Color.Gry2RgbFramePixel | modules/2d_filter_xfopencv/hls_video_block.cpp:148-152 | each output word is its gray pixel packed three times, whatever the first output word held |
| Color.Gry2RgbFrameSnoc | modules/2d_filter_xfopencv/hls_video_block.cpp:145-154 | converting one more gray pixel appends exactly its RGB word |
| Color.BinaryFrame | modules/2d_filter_xfopencv/hls_video_block.cpp:148-152 | a gray frame of 0s and 255s expands to black and white words only |
| Color.RasterBound | modules/2d_filter_xfopencv/hls_video_block.cpp:131 | the raster index row * width + col lies inside the width × height mat |
| Color.Rgb2GryImage | modules/2d_filter_xfopencv/hls_video_block.cpp:122-139 | the nested raster loops fill the output mat with Rgb2GryFrame of the input mat |
| Color.GrayPixelStep | modules/2d_filter_xfopencv/hls_video_block.cpp:148-152 | a word whose three fields equal the next gray pixel extends the converted prefix by one |
| Color.Gry2RgbImage | modules/2d_filter_xfopencv/hls_video_block.cpp:141-155 | the nested raster loops, which carry the output word from pixel to pixel, fill the output mat with Gry2RgbFrame of the gray mat |
| Sobel.Accumulate | modules/2d_filter_xfopencv/hls_video_block.cpp:228-229 | the char accumulator, wrapped after every addition, ends at the 8-bit wrap of the exact sum of its start and the products (proved by induction through the recursive calls' contracts) |
| Sobel.CornerSumX | modules/2d_filter_xfopencv/hls_video_block.cpp:205-209 | kernelx weighted over the 3×3 corner sums to the exact horizontal gradient GradientX |
| Sobel.CornerSumY | modules/2d_filter_xfopencv/hls_video_block.cpp:211-215 | kernely weighted over the 3×3 corner sums to the exact vertical gradient GradientY |
| Sobel.MagnitudeX | modules/2d_filter_xfopencv/hls_video_block.cpp:219-229 | x_mag ends as the 8-bit wrap of the exact horizontal gradient |
| Sobel.MagnitudeY | modules/2d_filter_xfopencv/hls_video_block.cpp:220-229 | y_mag ends as the 8-bit wrap of the exact vertical gradient |
| Sobel.ProductAt | modules/2d_filter_xfopencv/hls_video_block.cpp:227-229 | the product for offsets (rowOffset, colOffset) is the (3 * (rowOffset + 1) + colOffset + 1)-th one accumulated |
| Sobel.AccumulateStep | modules/2d_filter_xfopencv/hls_video_block.cpp:228-229 | adding the next product keeps the accumulator on course to the same final value |
| Sobel.Tap | modules/2d_filter_xfopencv/hls_video_block.cpp:227-229 | one inner iteration adds the cell's kernelx and kernely products to the two char accumulators |
| Sobel.SobelLoops | modules/2d_filter_xfopencv/hls_video_block.cpp:202-242 | the two unrolled offset loops and the threshold compute exactly SobelOperator of the window |
| Sobel.SobelOperator | modules/2d_filter_xfopencv/hls_video_block.cpp:233-240 | the result is 0 or 255 |
| Sobel.EdgeDecision | modules/2d_filter_xfopencv/hls_video_block.cpp:217-238 | the result is 255 exactly when the absolute values of the 8-bit wraps of the two exact gradients sum to more than 200 |
| Sobel.CornerOnly | modules/2d_filter_xfopencv/hls_video_block.cpp:223-229 | windows agreeing on cells [0..2][0..2] give the same result; rows 3-4 and columns 3-4 never matter |
| Sobel.BlackWindow | modules/2d_filter_xfopencv/hls_video_block.cpp:219-238 | a window whose 3×3 corner is black gives 0 |
| Sobel.FlatWindowIsEdge | modules/2d_filter_xfopencv/hls_video_block.cpp:205-238 | a flat window of gray 10 gives 255 |
| Sobel.Abs | modules/2d_filter_xfopencv/hls_video_block.cpp:234 | hls::abs is the absolute value: the result is x or -x and at least both (weaker than the hardware for -128; see Left out) |
| Sobel.AccumulatorWraps | modules/2d_filter_xfopencv/hls_video_block.cpp:217-238 | a window with one cell of gray 90 has exact gradients 180 and 180 but gives 0, because each accumulator wraps to -76 |
| LineBufferFilter.RasterIndex | modules/2d_filter_xfopencv/hls_video_block.cpp:58 | the index (row * width) + col read from the input mat is in range |
| LineBufferFilter.Pixel | modules/2d_filter_xfopencv/hls_video_block.cpp:58 | the input read at (row * width) + col stays inside the width × height mat and returns the pixel stored there |
| LineBufferFilter.IngestTargets | modules/2d_filter_xfopencv/hls_video_block.cpp:67-79 | no ingest writes buffer column 2; every ingest writes inside columns [0, width]; an image column writes its own buffer column exactly when it is neither the first nor the last |
| LineBufferFilter.IngestPixel | modules/2d_filter_xfopencv/hls_video_block.cpp:67-79 | the pixel lands at depth 4 of exactly the target columns, and every other cell is unchanged |
| LineBufferFilter.ShiftPixelsLeft | modules/2d_filter_xfopencv/hls_video_block.cpp:88 | every window column but the last takes its right neighbour's value, and the last is unchanged |
| LineBufferFilter.LoadColumn | modules/2d_filter_xfopencv/hls_video_block.cpp:89-93 | the window's last column becomes buffer column c, and the rest is unchanged |
| LineBufferFilter.SeedColumn | modules/2d_filter_xfopencv/hls_video_block.cpp:106-110 | depths 0-3 of column c copy depth 4, and the rest of the buffer is unchanged |
| LineBufferFilter.AgeColumn | modules/2d_filter_xfopencv/hls_video_block.cpp:111-116 | depths 0-3 of column c move up by one slot, and the rest of the buffer is unchanged |
| LineBufferFilter.IngestedColumn | modules/2d_filter_xfopencv/hls_video_block.cpp:53-79 | after the ingest of a later row, the visited column holds exactly the column the window is about to receive |
| LineBufferFilter.SeededColumn | modules/2d_filter_xfopencv/hls_video_block.cpp:106-110 | row 0 leaves the visited column filled with its first pixel, or its starting value for image columns 0 and width - 1 |
| LineBufferFilter.AgedColumn | modules/2d_filter_xfopencv/hls_video_block.cpp:111-116 | a later row leaves the visited column aged by one depth slot |
| LineBufferFilter.RightBorderWrite | modules/2d_filter_xfopencv/hls_video_block.cpp:72-76 | the last pixel of each input row lands at depth 4 of buffer columns width - 1 and width |
| LineBufferFilter.OtherColumn | modules/2d_filter_xfopencv/hls_video_block.cpp:65-116 | one scan position changes no other tracked buffer cell |
| LineBufferFilter.EmitIndex | modules/2d_filter_xfopencv/hls_video_block.cpp:96 | the e-th emitted position is (3 + e / width, e % width), written at raw index 3 * width + e |
| LineBufferFilter.NextRow | modules/2d_filter_xfopencv/hls_video_block.cpp:43-45 | the read and emit counters carry over from the end of one row to the start of the next |
| LineBufferFilter.CountStep | modules/2d_filter_xfopencv/hls_video_block.cpp:53-96 | one position reads one pixel while row < height and emits one result once row > 2, at the next consecutive indices |
| LineBufferFilter.Ingest | modules/2d_filter_xfopencv/hls_video_block.cpp:53-82 | reads index row * width + col exactly when row < height, and leaves the visited column holding the column the window receives |
| LineBufferFilter.Emit | modules/2d_filter_xfopencv/hls_video_block.cpp:87-98 | the window moves on by one emitted position, and the result is sobel_operator of it |
| LineBufferFilter.Shuffle | modules/2d_filter_xfopencv/hls_video_block.cpp:106-116 | after seeding or ageing, the buffer holds what it must before the next position |
| LineBufferFilter.Visit | modules/2d_filter_xfopencv/hls_video_block.cpp:53-116 | one scan position keeps the buffer and window invariants, reads the next pixel while row < height and emits while row > 2 |
| LineBufferFilter.ReadStep | modules/2d_filter_xfopencv/hls_video_block.cpp:53-79 | the reads stay the consecutive run 0, 1, ..., and the ingested buffer columns grow by the position's targets |
| LineBufferFilter.EmitStep | modules/2d_filter_xfopencv/hls_video_block.cpp:87-96 | the results, the raw write indices and the loaded buffer columns grow by one position's worth |
| LineBufferFilter.IngestedStep | modules/2d_filter_xfopencv/hls_video_block.cpp:67-79 | the buffer columns ingested so far after one more column of row 0 |
| LineBufferFilter.NextRowSoFar | modules/2d_filter_xfopencv/hls_video_block.cpp:43-45 | the read and emit bookkeeping carries over from one row to the next |
| LineBufferFilter.AllScanned | modules/2d_filter_xfopencv/hls_video_block.cpp:43-45 | after all height + 3 rows, every pixel was read once in order and one result was emitted per pixel |
| LineBufferFilter.Step | modules/2d_filter_xfopencv/hls_video_block.cpp:45-117 | one iteration of the inner loop keeps every loop invariant |
| LineBufferFilter.ScanRow | modules/2d_filter_xfopencv/hls_video_block.cpp:45-118 | the inner loop over a row keeps the buffer, window, read and emit invariants |
| LineBufferFilter.Filter2D | modules/2d_filter_xfopencv/hls_video_block.cpp:26-120 | reads indices 0 .. width * height - 1 once each, in order; emits width * height results, result k being sobel_operator of the window after k + 1 shifts, written at raw index 3 * width + k; buffer columns [0, width] except 2 receive an ingest; exactly columns [2, width + 1] are loaded into the window, so margin columns 0, 1, width + 2 and width + 3 are never read |
| LineBufferFilter.RowOfIndex | modules/2d_filter_xfopencv/hls_video_block.cpp:58 | a raster index lies in a row of the frame |
| LineBufferFilter.RollingColumn | modules/2d_filter_xfopencv/hls_video_block.cpp:53-116 | for image columns 1 .. width - 4, depth d of the column loaded at row r is the pixel of row r - 4 + d (clamped to the frame) in that column |
| LineBufferFilter.InteriorCell | modules/2d_filter_xfopencv/hls_video_block.cpp:87-93 | one cell of the 3×3 corner of an interior window is the corresponding cell of the clamped neighbourhood |
| LineBufferFilter.InteriorWindow | modules/2d_filter_xfopencv/hls_video_block.cpp:87-93 | the 3×3 corner of the window behind interior result k is the clamped neighbourhood with top-left cell (k / width - 1, k % width - 4) |
| LineBufferFilter.InteriorOutput | modules/2d_filter_xfopencv/hls_video_block.cpp:87-96 | interior result k (5 <= k % width <= width - 2) is sobel_operator of the clamped neighbourhood centred on (k / width, k % width - 3), whatever the buffer and window held at the start |
| LineBufferFilter.FlatFrame | modules/2d_filter_xfopencv/hls_video_block.cpp:87-96 | on a one-valued frame, every interior result is that of the flat window |
| LineBufferFilter.FlatNeighbourhood | modules/2d_filter_xfopencv/hls_video_block.cpp:58 | every neighbourhood cell of a one-valued frame holds that value |
| VideoBlock.Strm2Mat | modules/2d_filter_xfopencv/hls_video_block.cpp:157-161 | succeeds exactly when the stream holds size words; the mat is then the first size words and the stream keeps the rest |
| VideoBlock.Mat2Strm | modules/2d_filter_xfopencv/hls_video_block.cpp:163-169 | the mat's words are appended to the stream in order |
| VideoBlock.HlsVideoBlock | modules/2d_filter_xfopencv/hls_video_block.cpp:172-199 | produces output exactly when the input holds a whole frame, and the output is then Pipeline: the stages composed in order |
| VideoBlock.PipelineBinary | modules/2d_filter_xfopencv/hls_video_block.cpp:189-197 | the block outputs width * height words, each all-black or all-white |
| VideoBlock.PipelineInterior | modules/2d_filter_xfopencv/hls_video_block.cpp:189-197 | output word i (5 <= i % width <= width - 2) is the edge decision, replicated into all three channels, on the clamped gray neighbourhood centred on row i / width, column i % width - 3 |

## Left out

- The `#pragma HLS` directives (pipelining, unrolling, array partitioning, dataflow, stream
  depth, interfaces) are synthesis hints with no functional meaning. The FIFO reading of
  `DATAFLOW`/`STREAM` is the only one used, in the composition.
- The AXI side-channel fields of `ap_axiu<24,1,1,1>` (`keep`, `strb`, `user`, `last`, `id`,
  `dest`) are left out. `mat2strm` leaves them unset and the model carries only `data`.
- The internals of `xf::Mat`, `xf::Window` and `hls::stream` are left out. A mat is a
  sequence in raster order. A window is a 5×5 array, and `shift_pixels_left` moves column
  j + 1 into column j.
- `modules/2d_filter_xfopencv/types_cv.h` declares only an enum of memory kinds and is not
  part of this model.
- `github_interaction.py` is repository tooling (cloning, file moves, JSON reading) and is not
  part of this model.
- Geometries with `width < 4` are left out. There the border writes of line 75 alias other
  columns, and the source never uses such a width.
- Frames with `height = 0` are left out. They have no row to clamp to, so the border
  replication has nothing to copy, and the source never uses such a height.
- Sobel.Abs: `hls::abs` of a `char` is taken as the mathematical absolute value. An
  implementation that returns -128 for -128 is not modelled.
- Types.ToChar: `char` is taken to be signed. A platform where `char` is unsigned is not
  modelled.
- LineBufferFilter.Filter2D: the out-of-range writes at raw indices `height * width` and
  above are returned as indices and not applied to an array. What they would overwrite in
  memory is not modelled.
- VideoBlock.HlsVideoBlock: a stream that runs dry blocks forever in the source. The model
  reports it as `None`, does not model the block as waiting for more input, and models one
  frame.
- Timing and throughput (one pixel per clock) are not modelled.
