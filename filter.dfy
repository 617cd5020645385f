/** hls_2DFilter: the raster-order line-buffer / sliding-window engine.

    The scan visits (row, col) for row in [0, height + FILTER_OFFS + 1) and col in [0, width).
    At each position it ingests one gray pixel while row < height, writing it at depth
    FILTER_SIZE - 1 of a (width + 4) × 5 line buffer; once row > FILTER_OFFS it shifts the 5×5
    window left, loads buffer column col + FILTER_OFFS into the window's last column and emits
    sobel_operator of the window; finally it seeds that buffer column upwards (row 0) or ages
    it by one depth slot. Neither array is initialised by the source, so their starting contents
    are a parameter of the model. */
module LineBufferFilter {
  import opened Types
  import Sobel

  /** A gray frame in raster order, as the input mat holds it. */
  datatype Frame = Frame(width: nat, height: nat, pixels: seq<uint8>)
  {
    /** The geometry the model covers: width 1280 and height 720 in the source. */
    predicate Valid()
    {
      width >= 4 && height >= 1 && |pixels| == width * height
    }
  }

  /** Whatever line_buffer and IN_WINDOW hold when the filter starts. */
  datatype Uninitialised = Uninitialised(lineBuffer: seq<seq<uint8>>, window: seq<seq<uint8>>)
  {
    predicate Fits(width: nat)
    {
      && |lineBuffer| == width + 2 * FILTER_OFFS
      && (forall c :: 0 <= c < |lineBuffer| ==> |lineBuffer[c]| == FILTER_SIZE)
      && Sobel.IsWindow(window)
    }
  }

  function Clamp(k: int, n: nat): (r: nat)
    requires n >= 1
    ensures r < n
  {
    if k < 0 then 0 else if k >= n then n - 1 else k
  }

  function Min(a: int, b: int): int
  {
    if a < b then a else b
  }

  lemma RasterIndex(f: Frame, r: nat, o: nat)
    requires f.Valid() && r < f.height && o < f.width
    ensures r * f.width + o < |f.pixels|
  {
    MulMonotone(r + 1, f.height, f.width);
    assert (r + 1) * f.width == r * f.width + f.width;
  }

  /** input_mat.data[(r * width) + o]: the read stays inside the width × height mat. */
  function Pixel(f: Frame, r: nat, o: nat): (p: uint8)
    requires f.Valid() && r < f.height && o < f.width
    ensures r * f.width + o < |f.pixels| && p == f.pixels[r * f.width + o]
  {
    RasterIndex(f, r, o);
    f.pixels[r * f.width + o]
  }

  /** Image columns whose buffer columns (width - 1 and width) also receive the right-border
      writes of image column width - 1. */
  predicate HitByRightBorder(f: Frame, o: nat)
  {
    o == f.width - 3 || o == f.width - 2
  }

  /** Buffer columns that the ingest of image column col writes at depth FILTER_SIZE - 1: the
      two left margin columns for col 0, columns width - 1 and width for the last column (line
      75), and col + FILTER_OFFS otherwise. Buffer column FILTER_OFFS is never written, and only
      the middle image columns write their own buffer column. */
  function IngestTargets(width: nat, col: nat): (targets: set<int>)
    requires width >= 4 && col < width
    ensures FILTER_OFFS !in targets
    ensures forall c :: c in targets ==> 0 <= c <= width
    ensures col + FILTER_OFFS in targets <==> 0 < col < width - 1
  {
    if col == 0 then {0, 1}
    else if col == width - 1 then {width - 1, width}
    else {col + FILTER_OFFS}
  }

  /** The pixel a middle image column o holds for source row k: rows above the frame repeat
      row 0, rows below it repeat row height - 1, except that for the two columns hit by the
      right-border writes they repeat the last pixel of the frame instead. */
  function Source(f: Frame, o: nat, k: int): uint8
    requires f.Valid() && o < f.width
  {
    if k >= f.height && HitByRightBorder(f, o) then Pixel(f, f.height - 1, f.width - 1)
    else Pixel(f, Clamp(k, f.height), o)
  }

  /** Depth d of buffer column o + FILTER_OFFS at the moment row r loads it into the window.
      The first and last image columns never ingest into their own buffer column, which keeps
      the value it started with at depth FILTER_SIZE - 1. */
  function ColumnAt(f: Frame, init: Uninitialised, r: int, o: nat, d: nat): uint8
    requires f.Valid() && init.Fits(f.width) && o < f.width && d < FILTER_SIZE
  {
    if o == 0 || o == f.width - 1 then init.lineBuffer[o + FILTER_OFFS][FILTER_SIZE - 1]
    else Source(f, o, r - (FILTER_SIZE - 1) + d)
  }

  /** Depth d of buffer column o + FILTER_OFFS just before the scan visits (row, col)
      (col == width: after the whole row). */
  function BufferCell(f: Frame, init: Uninitialised, row: nat, col: nat, o: nat, d: nat): uint8
    requires f.Valid() && init.Fits(f.width) && col <= f.width && o < f.width && d < FILTER_SIZE
  {
    // rows the scan has already visited at column o
    var n := if o < col then row + 1 else row;
    if n == 0 then init.lineBuffer[o + FILTER_OFFS][d]
    else if o == 0 || o == f.width - 1 then init.lineBuffer[o + FILTER_OFFS][FILTER_SIZE - 1]
    else if d == FILTER_SIZE - 1 && HitByRightBorder(f, o) && n - 1 < f.height && (col <= o || col == f.width)
    then Pixel(f, n - 1, f.width - 1)
    else Source(f, o, n - FILTER_SIZE + Min(d + 1, FILTER_SIZE - 1))
  }

  /** Depth d of the column loaded into the window by the m-th emitted position, which is
      (FILTER_OFFS + 1 + m / width, m % width). */
  function Emitted(f: Frame, init: Uninitialised, m: nat, d: nat): uint8
    requires f.Valid() && init.Fits(f.width) && d < FILTER_SIZE
  {
    ColumnAt(f, init, FILTER_OFFS + 1 + m / f.width, m % f.width, d)
  }

  /** Cell [d][j] of IN_WINDOW after e shifts: column j holds the column emitted
      FILTER_SIZE - 1 - j positions ago, or what the window started with. */
  function WindowCell(f: Frame, init: Uninitialised, e: nat, d: nat, j: nat): uint8
    requires f.Valid() && init.Fits(f.width) && d < FILTER_SIZE && j < FILTER_SIZE
  {
    if j + e >= FILTER_SIZE then Emitted(f, init, j + e - FILTER_SIZE, d)
    else init.window[d][j + e]
  }

  function WindowAfter(f: Frame, init: Uninitialised, e: nat): (w: seq<seq<uint8>>)
    requires f.Valid() && init.Fits(f.width)
    ensures Sobel.IsWindow(w)
    ensures forall d, j :: 0 <= d < FILTER_SIZE && 0 <= j < FILTER_SIZE ==> w[d][j] == WindowCell(f, init, e, d, j)
  {
    seq(FILTER_SIZE, d requires 0 <= d < FILTER_SIZE =>
      seq(FILTER_SIZE, j requires 0 <= j < FILTER_SIZE => WindowCell(f, init, e, d, j)))
  }

  /** Number of pixels read before (row, col). */
  function ReadCount(width: nat, height: nat, row: nat, col: nat): nat
  {
    if row < height then row * width + col else height * width
  }

  /** Number of results emitted before (row, col). */
  function EmitCount(width: nat, row: nat, col: nat): nat
  {
    if row <= FILTER_OFFS then 0 else (row - FILTER_OFFS - 1) * width + col
  }

  /** Buffer columns written by an ingest once image columns [0, n) of row 0 were visited. */
  predicate IngestedBy(width: nat, n: nat, c: int)
  {
    (0 <= c < FILTER_OFFS && n >= 1) || (FILTER_OFFS < c <= n + 1 && c <= width)
  }

  ghost predicate BufferHolds(f: Frame, init: Uninitialised, lineBuffer: array2<uint8>, row: nat, col: nat)
    reads lineBuffer
    requires f.Valid() && init.Fits(f.width) && col <= f.width
  {
    && lineBuffer.Length0 == f.width + 2 * FILTER_OFFS && lineBuffer.Length1 == FILTER_SIZE
    && forall c, d :: FILTER_OFFS <= c < f.width + FILTER_OFFS && 0 <= d < FILTER_SIZE ==>
         lineBuffer[c, d] == BufferCell(f, init, row, col, c - FILTER_OFFS, d)
  }

  ghost predicate WindowHolds(f: Frame, init: Uninitialised, window: array2<uint8>, e: nat)
    reads window
    requires f.Valid() && init.Fits(f.width)
  {
    && window.Length0 == FILTER_SIZE && window.Length1 == FILTER_SIZE
    && forall d, j :: 0 <= d < FILTER_SIZE && 0 <= j < FILTER_SIZE ==> window[d, j] == WindowCell(f, init, e, d, j)
  }

  function Snapshot(window: array2<uint8>): (w: seq<seq<uint8>>)
    reads window
    ensures |w| == window.Length0
    ensures forall i :: 0 <= i < |w| ==> |w[i]| == window.Length1
    ensures forall i, j :: 0 <= i < window.Length0 && 0 <= j < window.Length1 ==> w[i][j] == window[i, j]
  {
    seq(window.Length0, i requires 0 <= i < window.Length0 reads window =>
      seq(window.Length1, j requires 0 <= j < window.Length1 reads window => window[i, j]))
  }

  lemma WindowsEqual(a: seq<seq<uint8>>, b: seq<seq<uint8>>)
    requires Sobel.IsWindow(a) && Sobel.IsWindow(b)
    requires forall i, j :: 0 <= i < FILTER_SIZE && 0 <= j < FILTER_SIZE ==> a[i][j] == b[i][j]
    ensures a == b
  {
    forall i | 0 <= i < FILTER_SIZE
      ensures a[i] == b[i]
    {
    }
  }

  // ---------------------------------------------------------------------------------------
  // The four kinds of array update of one scan position.

  /** The ingest branch (lines 67-79): one pixel into depth FILTER_SIZE - 1 of its target columns. */
  method IngestPixel(lineBuffer: array2<uint8>, width: nat, col: nat, p: uint8)
    requires width >= 4 && col < width
    requires lineBuffer.Length0 == width + 2 * FILTER_OFFS && lineBuffer.Length1 == FILTER_SIZE
    modifies lineBuffer
    ensures forall c, d :: 0 <= c < lineBuffer.Length0 && 0 <= d < FILTER_SIZE ==>
      lineBuffer[c, d] == if d == FILTER_SIZE - 1 && c in IngestTargets(width, col) then p else old(lineBuffer[c, d])
  {
    if col == 0 {
      for borderCol := 0 to FILTER_OFFS
        invariant forall c, d :: 0 <= c < lineBuffer.Length0 && 0 <= d < FILTER_SIZE ==>
          lineBuffer[c, d] == if d == FILTER_SIZE - 1 && 0 <= c < borderCol then p else old(lineBuffer[c, d])
      {
        lineBuffer[borderCol, FILTER_SIZE - 1] := p;
      }
    } else if col == width - 1 {
      for borderCol := 0 to FILTER_OFFS
        invariant forall c, d :: 0 <= c < lineBuffer.Length0 && 0 <= d < FILTER_SIZE ==>
          lineBuffer[c, d] == if d == FILTER_SIZE - 1 && width - borderCol < c <= width then p else old(lineBuffer[c, d])
      {
        lineBuffer[width - borderCol, FILTER_SIZE - 1] := p;
      }
    } else {
      lineBuffer[col + FILTER_OFFS, FILTER_SIZE - 1] := p;
    }
  }

  /** IN_WINDOW.shift_pixels_left(): every column takes the value of its right neighbour; the
      last column keeps its value until it is overwritten. */
  method ShiftPixelsLeft(window: array2<uint8>)
    requires window.Length0 == FILTER_SIZE && window.Length1 == FILTER_SIZE
    modifies window
    ensures forall i, j :: 0 <= i < FILTER_SIZE && 0 <= j < FILTER_SIZE ==>
      window[i, j] == if j < FILTER_SIZE - 1 then old(window[i, j + 1]) else old(window[i, j])
  {
    forall i, j | 0 <= i < FILTER_SIZE && 0 <= j < FILTER_SIZE - 1 {
      window[i, j] := window[i, j + 1];
    }
  }

  /** The insert_pixel loop (lines 89-93): buffer column c becomes the window's last column. */
  method LoadColumn(window: array2<uint8>, lineBuffer: array2<uint8>, c: nat)
    requires window != lineBuffer
    requires window.Length0 == FILTER_SIZE && window.Length1 == FILTER_SIZE
    requires c < lineBuffer.Length0 && lineBuffer.Length1 == FILTER_SIZE
    modifies window
    ensures forall i, j :: 0 <= i < FILTER_SIZE && 0 <= j < FILTER_SIZE ==>
      window[i, j] == if j == FILTER_SIZE - 1 then lineBuffer[c, i] else old(window[i, j])
  {
    for windowRow := 0 to FILTER_SIZE
      invariant forall i, j :: 0 <= i < FILTER_SIZE && 0 <= j < FILTER_SIZE ==>
        window[i, j] == if j == FILTER_SIZE - 1 && i < windowRow then lineBuffer[c, i] else old(window[i, j])
    {
      window[windowRow, FILTER_SIZE - 1] := lineBuffer[c, windowRow];
    }
  }

  /** Top-border fixup of row 0 (lines 106-110): every depth of column c copies the bottom one. */
  method SeedColumn(lineBuffer: array2<uint8>, c: nat)
    requires c < lineBuffer.Length0 && lineBuffer.Length1 == FILTER_SIZE
    modifies lineBuffer
    ensures forall c', d :: 0 <= c' < lineBuffer.Length0 && 0 <= d < FILTER_SIZE ==>
      lineBuffer[c', d] == if c' == c && d < FILTER_SIZE - 1 then old(lineBuffer[c, FILTER_SIZE - 1]) else old(lineBuffer[c', d])
  {
    for fil := 0 to FILTER_SIZE - 1
      invariant forall c', d :: 0 <= c' < lineBuffer.Length0 && 0 <= d < FILTER_SIZE ==>
        lineBuffer[c', d] == if c' == c && d < fil then old(lineBuffer[c, FILTER_SIZE - 1]) else old(lineBuffer[c', d])
    {
      lineBuffer[c, fil] := lineBuffer[c, FILTER_SIZE - 1];
    }
  }

  /** Ageing of later rows (lines 112-115): every depth of column c but the last copies the next one. */
  method AgeColumn(lineBuffer: array2<uint8>, c: nat)
    requires c < lineBuffer.Length0 && lineBuffer.Length1 == FILTER_SIZE
    modifies lineBuffer
    ensures forall c', d :: 0 <= c' < lineBuffer.Length0 && 0 <= d < FILTER_SIZE ==>
      lineBuffer[c', d] == if c' == c && d < FILTER_SIZE - 1 then old(lineBuffer[c, d + 1]) else old(lineBuffer[c', d])
  {
    for fil := 0 to FILTER_SIZE - 1
      invariant forall c', d :: 0 <= c' < lineBuffer.Length0 && 0 <= d < FILTER_SIZE ==>
        lineBuffer[c', d] == if c' == c && d < fil then old(lineBuffer[c, d + 1]) else old(lineBuffer[c', d])
    {
      lineBuffer[c, fil] := lineBuffer[c, fil + 1];
    }
  }

  // ---------------------------------------------------------------------------------------
  // How one scan position moves the buffer from BufferCell(row, col, ..) to BufferCell(row, col + 1, ..).

  /** After the ingest of a row >= 1, the visited column holds exactly what the window receives. */
  lemma IngestedColumn(f: Frame, init: Uninitialised, row: nat, col: nat, d: nat)
    requires f.Valid() && init.Fits(f.width) && col < f.width && d < FILTER_SIZE && row >= 1
    ensures ColumnAt(f, init, row, col, d) ==
      if d == FILTER_SIZE - 1 && row < f.height && col + FILTER_OFFS in IngestTargets(f.width, col)
      then Pixel(f, row, col)
      else BufferCell(f, init, row, col, col, d)
  {
  }

  /** Row 0 leaves the visited column filled with its first pixel (or its starting value). */
  lemma SeededColumn(f: Frame, init: Uninitialised, col: nat, d: nat)
    requires f.Valid() && init.Fits(f.width) && col < f.width && d < FILTER_SIZE
    ensures BufferCell(f, init, 0, col + 1, col, d) ==
      if col + FILTER_OFFS in IngestTargets(f.width, col) then Pixel(f, 0, col)
      else init.lineBuffer[col + FILTER_OFFS][FILTER_SIZE - 1]
  {
  }

  /** A later row leaves the visited column aged by one depth slot. */
  lemma AgedColumn(f: Frame, init: Uninitialised, row: nat, col: nat, d: nat)
    requires f.Valid() && init.Fits(f.width) && col < f.width && d < FILTER_SIZE && row >= 1
    ensures BufferCell(f, init, row, col + 1, col, d) == ColumnAt(f, init, row, col, Min(d + 1, FILTER_SIZE - 1))
  {
  }

  /** The right-border writes of the last image column land in buffer columns width - 1 and width. */
  lemma RightBorderWrite(f: Frame, init: Uninitialised, row: nat, o: nat)
    requires f.Valid() && init.Fits(f.width) && row < f.height && HitByRightBorder(f, o)
    ensures BufferCell(f, init, row, f.width, o, FILTER_SIZE - 1) == Pixel(f, row, f.width - 1)
  {
  }

  /** Every other tracked cell is left alone. */
  lemma OtherColumn(f: Frame, init: Uninitialised, row: nat, col: nat, o: nat, d: nat)
    requires f.Valid() && init.Fits(f.width) && col < f.width && o < f.width && d < FILTER_SIZE
    requires o != col
    requires !(col == f.width - 1 && d == FILTER_SIZE - 1 && HitByRightBorder(f, o) && row < f.height)
    ensures BufferCell(f, init, row, col + 1, o, d) == BufferCell(f, init, row, col, o, d)
  {
  }

  lemma EmitIndex(width: nat, row: nat, col: nat)
    requires width > 0 && row > FILTER_OFFS && col < width
    ensures var e := (row - FILTER_OFFS - 1) * width + col;
      e / width == row - FILTER_OFFS - 1 && e % width == col &&
      row * width + col == (FILTER_OFFS + 1) * width + e
  {
    DivModOf(row - FILTER_OFFS - 1, col, width);
    assert (row - FILTER_OFFS - 1) * width == row * width - (FILTER_OFFS + 1) * width;
  }

  lemma NextRow(width: nat, height: nat, row: nat)
    ensures ReadCount(width, height, row, width) == ReadCount(width, height, row + 1, 0)
    ensures EmitCount(width, row, width) == EmitCount(width, row + 1, 0)
  {
    assert (row + 1) * width == row * width + width;
    if row > FILTER_OFFS {
      assert (row - FILTER_OFFS) * width == (row - FILTER_OFFS - 1) * width + width;
    }
  }

  // ---------------------------------------------------------------------------------------
  // One scan position, in the three phases of the loop body.

  /** The buffer right after the ingest at (row, col): the ingested pixel sits at depth
      FILTER_SIZE - 1 of the columns it targets, everything else is still as before the visit. */
  ghost predicate IngestedHolds(f: Frame, init: Uninitialised, lineBuffer: array2<uint8>, row: nat, col: nat)
    reads lineBuffer
    requires f.Valid() && init.Fits(f.width) && col < f.width
  {
    && lineBuffer.Length0 == f.width + 2 * FILTER_OFFS && lineBuffer.Length1 == FILTER_SIZE
    && forall c, d :: FILTER_OFFS <= c < f.width + FILTER_OFFS && 0 <= d < FILTER_SIZE ==>
         lineBuffer[c, d] ==
           if d == FILTER_SIZE - 1 && row < f.height && c in IngestTargets(f.width, col) then Pixel(f, row, col)
           else BufferCell(f, init, row, col, c - FILTER_OFFS, d)
  }

  /** Lines 64-80: read the next input pixel while rows remain and write it into the buffer. */
  method Ingest(f: Frame, init: Uninitialised, lineBuffer: array2<uint8>, row: nat, col: nat) returns (index: Option<nat>)
    requires f.Valid() && init.Fits(f.width) && col < f.width
    requires BufferHolds(f, init, lineBuffer, row, col)
    modifies lineBuffer
    ensures IngestedHolds(f, init, lineBuffer, row, col)
    ensures index == if row < f.height then Some(row * f.width + col) else None
    ensures row >= 1 ==> forall d :: 0 <= d < FILTER_SIZE ==> lineBuffer[col + FILTER_OFFS, d] == ColumnAt(f, init, row, col, d)
  {
    index := None;
    if row < f.height {
      RasterIndex(f, row, col);
      index := Some(row * f.width + col);
      IngestPixel(lineBuffer, f.width, col, f.pixels[row * f.width + col]);
    }
    if row >= 1 {
      forall d | 0 <= d < FILTER_SIZE
        ensures lineBuffer[col + FILTER_OFFS, d] == ColumnAt(f, init, row, col, d)
      {
        IngestedColumn(f, init, row, col, d);
      }
    }
  }

  /** Lines 83-101: shift the window, load the visited column and apply sobel_operator. The
      window has then moved on by one emitted position. */
  method Emit(f: Frame, init: Uninitialised, lineBuffer: array2<uint8>, window: array2<uint8>, row: nat, col: nat, e: nat)
    returns (edge: uint8)
    requires f.Valid() && init.Fits(f.width) && col < f.width && row > FILTER_OFFS
    requires e == (row - FILTER_OFFS - 1) * f.width + col
    requires window != lineBuffer
    requires WindowHolds(f, init, window, e)
    requires lineBuffer.Length0 == f.width + 2 * FILTER_OFFS && lineBuffer.Length1 == FILTER_SIZE
    requires forall d :: 0 <= d < FILTER_SIZE ==> lineBuffer[col + FILTER_OFFS, d] == ColumnAt(f, init, row, col, d)
    modifies window
    ensures WindowHolds(f, init, window, e + 1)
    ensures edge == Sobel.SobelOperator(WindowAfter(f, init, e + 1))
  {
    ShiftPixelsLeft(window);
    LoadColumn(window, lineBuffer, col + FILTER_OFFS);
    EmitIndex(f.width, row, col);
    assert WindowHolds(f, init, window, e + 1);
    var current := Snapshot(window);
    WindowsEqual(current, WindowAfter(f, init, e + 1));
    edge := Sobel.SobelLoops(current);
  }

  /** Lines 104-116: seed the visited column (row 0) or age it by one depth slot. */
  method Shuffle(f: Frame, init: Uninitialised, lineBuffer: array2<uint8>, row: nat, col: nat)
    requires f.Valid() && init.Fits(f.width) && col < f.width
    requires IngestedHolds(f, init, lineBuffer, row, col)
    requires row >= 1 ==> forall d :: 0 <= d < FILTER_SIZE ==> lineBuffer[col + FILTER_OFFS, d] == ColumnAt(f, init, row, col, d)
    modifies lineBuffer
    ensures BufferHolds(f, init, lineBuffer, row, col + 1)
  {
    if row == 0 {
      SeedColumn(lineBuffer, col + FILTER_OFFS);
    } else {
      AgeColumn(lineBuffer, col + FILTER_OFFS);
    }
    forall c, d | FILTER_OFFS <= c < f.width + FILTER_OFFS && 0 <= d < FILTER_SIZE
      ensures lineBuffer[c, d] == BufferCell(f, init, row, col + 1, c - FILTER_OFFS, d)
    {
      var o := c - FILTER_OFFS;
      if o == col {
        if row == 0 {
          SeededColumn(f, init, col, d);
        } else {
          AgedColumn(f, init, row, col, d);
        }
      } else if col == f.width - 1 && d == FILTER_SIZE - 1 && HitByRightBorder(f, o) && row < f.height {
        RightBorderWrite(f, init, row, o);
      } else {
        OtherColumn(f, init, row, col, o, d);
      }
    }
  }

  /** Lines 61-116, one scan position: ingest, emit once the window is primed, then seed or age. */
  method Visit(f: Frame, init: Uninitialised, lineBuffer: array2<uint8>, window: array2<uint8>, row: nat, col: nat, e: nat)
    returns (index: Option<nat>, edge: Option<uint8>)
    requires f.Valid() && init.Fits(f.width) && col < f.width && window != lineBuffer
    requires e == EmitCount(f.width, row, col)
    requires BufferHolds(f, init, lineBuffer, row, col) && WindowHolds(f, init, window, e)
    modifies lineBuffer, window
    ensures BufferHolds(f, init, lineBuffer, row, col + 1)
    ensures WindowHolds(f, init, window, if row > FILTER_OFFS then e + 1 else e)
    ensures index == if row < f.height then Some(row * f.width + col) else None
    ensures edge == if row > FILTER_OFFS then Some(Sobel.SobelOperator(WindowAfter(f, init, e + 1))) else None
  {
    index := Ingest(f, init, lineBuffer, row, col);
    edge := None;
    if row > FILTER_OFFS {
      var result := Emit(f, init, lineBuffer, window, row, col, e);
      edge := Some(result);
    }
    Shuffle(f, init, lineBuffer, row, col);
  }

  /** How the counters of reads and results move at one scan position. */
  lemma CountStep(width: nat, height: nat, row: nat, col: nat)
    requires col < width
    ensures ReadCount(width, height, row, col + 1) == ReadCount(width, height, row, col) + if row < height then 1 else 0
    ensures row < height ==> row * width + col == ReadCount(width, height, row, col)
    ensures EmitCount(width, row, col + 1) == EmitCount(width, row, col) + if row > FILTER_OFFS then 1 else 0
    ensures row > FILTER_OFFS ==> row * width + col == (FILTER_OFFS + 1) * width + EmitCount(width, row, col)
  {
    if row > FILTER_OFFS {
      EmitIndex(width, row, col);
    }
  }

  /** Result k is sobel_operator of the window after k + 1 shifts. */
  ghost predicate EdgesSoFar(f: Frame, init: Uninitialised, output: seq<uint8>)
    requires f.Valid() && init.Fits(f.width)
  {
    forall k :: 0 <= k < |output| ==> output[k] == Sobel.SobelOperator(WindowAfter(f, init, k + 1))
  }

  /** readIndices and writeIndices are the consecutive runs the raster scan produces. */
  predicate Consecutive(indices: seq<nat>, start: nat)
  {
    forall k :: 0 <= k < |indices| ==> indices[k] == start + k
  }

  /** The input side of the scan before visiting (row, col): indices read and buffer columns ingested. */
  ghost predicate ReadSoFar(width: nat, height: nat, row: nat, col: nat, readIndices: seq<nat>, ingestColumns: set<int>)
  {
    && |readIndices| == ReadCount(width, height, row, col) && Consecutive(readIndices, 0)
    && (forall c :: c in ingestColumns <==> IngestedBy(width, if row == 0 then col else width, c))
  }

  /** The output side of the scan before visiting (row, col): results, raw write indices and
      buffer columns loaded into the window. */
  ghost predicate EmittedSoFar(f: Frame, init: Uninitialised, row: nat, col: nat,
                               output: seq<uint8>, writeIndices: seq<nat>, loadedColumns: set<int>)
    requires f.Valid() && init.Fits(f.width)
  {
    && |output| == EmitCount(f.width, row, col) && |writeIndices| == |output|
    && Consecutive(writeIndices, (FILTER_OFFS + 1) * f.width)
    && EdgesSoFar(f, init, output)
    && IsRange(loadedColumns, FILTER_OFFS, LoadCount(f.width, row, col))
  }

  /** Number of buffer columns loaded into the window before (row, col). */
  function LoadCount(width: nat, row: nat, col: nat): nat
  {
    if row <= FILTER_OFFS then 0 else if row == FILTER_OFFS + 1 then col else width
  }

  /** s is the integer range [lo, lo + n). */
  ghost predicate IsRange(s: set<int>, lo: int, n: nat)
  {
    forall c :: c in s <==> lo <= c < lo + n
  }

  lemma RangeExtend(s: set<int>, lo: int, n: nat)
    requires IsRange(s, lo, n)
    ensures IsRange(s + {lo + n}, lo, n + 1)
  {
  }

  lemma ReadStep(width: nat, height: nat, row: nat, col: nat, readIndices: seq<nat>, ingestColumns: set<int>)
    requires width >= 4 && height >= 1 && col < width
    requires ReadSoFar(width, height, row, col, readIndices, ingestColumns)
    ensures row < height ==>
      ReadSoFar(width, height, row, col + 1, readIndices + [row * width + col], ingestColumns + IngestTargets(width, col))
    ensures row >= height ==> ReadSoFar(width, height, row, col + 1, readIndices, ingestColumns)
  {
    CountStep(width, height, row, col);
    if row < height {
      ConsecutiveAppend(readIndices, 0, row * width + col);
      IngestedStep(width, if row == 0 then col else width, col, row, ingestColumns);
    }
  }

  lemma EmitStep(f: Frame, init: Uninitialised, row: nat, col: nat,
                 output: seq<uint8>, writeIndices: seq<nat>, loadedColumns: set<int>)
    requires f.Valid() && init.Fits(f.width) && col < f.width
    requires EmittedSoFar(f, init, row, col, output, writeIndices, loadedColumns)
    ensures row > FILTER_OFFS ==>
      EmittedSoFar(f, init, row, col + 1,
        output + [Sobel.SobelOperator(WindowAfter(f, init, |output| + 1))],
        writeIndices + [row * f.width + col], loadedColumns + {col + FILTER_OFFS})
    ensures row <= FILTER_OFFS ==> EmittedSoFar(f, init, row, col + 1, output, writeIndices, loadedColumns)
  {
    CountStep(f.width, f.height, row, col);
    if row > FILTER_OFFS {
      var edge := Sobel.SobelOperator(WindowAfter(f, init, |output| + 1));
      var loaded := loadedColumns + {col + FILTER_OFFS};
      ConsecutiveAppend(writeIndices, (FILTER_OFFS + 1) * f.width, row * f.width + col);
      EdgesExtend(f, init, output, edge);
      if row == FILTER_OFFS + 1 {
        RangeExtend(loadedColumns, FILTER_OFFS, col);
      }
    }
  }

  lemma ConsecutiveAppend(indices: seq<nat>, start: nat, next: nat)
    requires Consecutive(indices, start) && next == start + |indices|
    ensures Consecutive(indices + [next], start)
  {
  }

  lemma EdgesExtend(f: Frame, init: Uninitialised, output: seq<uint8>, edge: uint8)
    requires f.Valid() && init.Fits(f.width)
    requires EdgesSoFar(f, init, output)
    requires edge == Sobel.SobelOperator(WindowAfter(f, init, |output| + 1))
    ensures EdgesSoFar(f, init, output + [edge])
  {
  }

  lemma IngestedStep(width: nat, n: nat, col: nat, row: nat, ingestColumns: set<int>)
    requires width >= 4 && col < width
    requires n == if row == 0 then col else width
    requires forall c :: c in ingestColumns <==> IngestedBy(width, n, c)
    ensures forall c :: c in ingestColumns + IngestTargets(width, col) <==>
      IngestedBy(width, if row == 0 then col + 1 else width, c)
  {
  }

  lemma NextRowSoFar(f: Frame, init: Uninitialised, row: nat,
                     output: seq<uint8>, readIndices: seq<nat>, writeIndices: seq<nat>,
                     ingestColumns: set<int>, loadedColumns: set<int>)
    requires f.Valid() && init.Fits(f.width)
    requires ReadSoFar(f.width, f.height, row, f.width, readIndices, ingestColumns)
    requires EmittedSoFar(f, init, row, f.width, output, writeIndices, loadedColumns)
    ensures ReadSoFar(f.width, f.height, row + 1, 0, readIndices, ingestColumns)
    ensures EmittedSoFar(f, init, row + 1, 0, output, writeIndices, loadedColumns)
  {
    NextRow(f.width, f.height, row);
  }

  /** After the last row every input pixel was read once and one result emitted per pixel. */
  lemma AllScanned(f: Frame, init: Uninitialised,
                   output: seq<uint8>, readIndices: seq<nat>, writeIndices: seq<nat>,
                   ingestColumns: set<int>, loadedColumns: set<int>)
    requires f.Valid() && init.Fits(f.width)
    requires ReadSoFar(f.width, f.height, f.height + FILTER_OFFS + 1, 0, readIndices, ingestColumns)
    requires EmittedSoFar(f, init, f.height + FILTER_OFFS + 1, 0, output, writeIndices, loadedColumns)
    ensures |readIndices| == |f.pixels| && forall k :: 0 <= k < |readIndices| ==> readIndices[k] == k
    ensures |output| == |f.pixels| && |writeIndices| == |f.pixels|
    ensures forall k :: 0 <= k < |writeIndices| ==> writeIndices[k] == (FILTER_OFFS + 1) * f.width + k
    ensures forall k :: 0 <= k < |output| ==> output[k] == Sobel.SobelOperator(WindowAfter(f, init, k + 1))
    ensures forall c :: c in ingestColumns <==> 0 <= c <= f.width && c != FILTER_OFFS
    ensures forall c :: c in loadedColumns <==> FILTER_OFFS <= c <= f.width + 1
  {
    assert |output| == f.height * f.width;
  }

  /** The scan of one row (the inner loop of lines 61-117). */
  method ScanRow(f: Frame, init: Uninitialised, lineBuffer: array2<uint8>, window: array2<uint8>, row: nat,
                 output0: seq<uint8>, readIndices0: seq<nat>, writeIndices0: seq<nat>,
                 ghost ingestColumns0: set<int>, ghost loadedColumns0: set<int>)
    returns (output: seq<uint8>, readIndices: seq<nat>, writeIndices: seq<nat>,
             ghost ingestColumns: set<int>, ghost loadedColumns: set<int>)
    requires f.Valid() && init.Fits(f.width) && window != lineBuffer
    requires BufferHolds(f, init, lineBuffer, row, 0) && WindowHolds(f, init, window, |output0|)
    requires ReadSoFar(f.width, f.height, row, 0, readIndices0, ingestColumns0)
    requires EmittedSoFar(f, init, row, 0, output0, writeIndices0, loadedColumns0)
    modifies lineBuffer, window
    ensures BufferHolds(f, init, lineBuffer, row, f.width) && WindowHolds(f, init, window, |output|)
    ensures ReadSoFar(f.width, f.height, row, f.width, readIndices, ingestColumns)
    ensures EmittedSoFar(f, init, row, f.width, output, writeIndices, loadedColumns)
  {
    output, readIndices, writeIndices := output0, readIndices0, writeIndices0;
    ingestColumns, loadedColumns := ingestColumns0, loadedColumns0;
    var col := 0;
    while col < f.width
      invariant col <= f.width
      invariant BufferHolds(f, init, lineBuffer, row, col)
      invariant WindowHolds(f, init, window, |output|)
      invariant ReadSoFar(f.width, f.height, row, col, readIndices, ingestColumns)
      invariant EmittedSoFar(f, init, row, col, output, writeIndices, loadedColumns)
    {
      output, readIndices, writeIndices, ingestColumns, loadedColumns :=
        Step(f, init, lineBuffer, window, row, col, output, readIndices, writeIndices, ingestColumns, loadedColumns);
      col := col + 1;
    }
  }

  /** The body of the inner loop at (row, col), with what it adds to the results and indices. */
  method Step(f: Frame, init: Uninitialised, lineBuffer: array2<uint8>, window: array2<uint8>, row: nat, col: nat,
              output0: seq<uint8>, readIndices0: seq<nat>, writeIndices0: seq<nat>,
              ghost ingestColumns0: set<int>, ghost loadedColumns0: set<int>)
    returns (output: seq<uint8>, readIndices: seq<nat>, writeIndices: seq<nat>,
             ghost ingestColumns: set<int>, ghost loadedColumns: set<int>)
    requires f.Valid() && init.Fits(f.width) && window != lineBuffer && col < f.width
    requires BufferHolds(f, init, lineBuffer, row, col) && WindowHolds(f, init, window, |output0|)
    requires ReadSoFar(f.width, f.height, row, col, readIndices0, ingestColumns0)
    requires EmittedSoFar(f, init, row, col, output0, writeIndices0, loadedColumns0)
    modifies lineBuffer, window
    ensures BufferHolds(f, init, lineBuffer, row, col + 1) && WindowHolds(f, init, window, |output|)
    ensures ReadSoFar(f.width, f.height, row, col + 1, readIndices, ingestColumns)
    ensures EmittedSoFar(f, init, row, col + 1, output, writeIndices, loadedColumns)
  {
    output, readIndices, writeIndices := output0, readIndices0, writeIndices0;
    ingestColumns, loadedColumns := ingestColumns0, loadedColumns0;
    ReadStep(f.width, f.height, row, col, readIndices, ingestColumns);
    EmitStep(f, init, row, col, output, writeIndices, loadedColumns);
    var index, edge := Visit(f, init, lineBuffer, window, row, col, |output|);
    if index.Some? {
      readIndices := readIndices + [index.value];
      ingestColumns := ingestColumns + IngestTargets(f.width, col);
    }
    if edge.Some? {
      output := output + [edge.value];
      writeIndices := writeIndices + [row * f.width + col];
      loadedColumns := loadedColumns + {col + FILTER_OFFS};
    }
  }

  // ---------------------------------------------------------------------------------------

  /** hls_2DFilter. Returns the emitted results in order, the input indices it reads and the
      raw output indices (row * width) + col it writes; ghost results collect the buffer
      columns that receive an ingest and those loaded into the window. */
  method Filter2D(f: Frame, init: Uninitialised)
    returns (output: seq<uint8>, readIndices: seq<nat>, writeIndices: seq<nat>,
             ghost ingestColumns: set<int>, ghost loadedColumns: set<int>)
    requires f.Valid() && init.Fits(f.width)
    ensures |readIndices| == |f.pixels| && forall k :: 0 <= k < |readIndices| ==> readIndices[k] == k
    ensures |output| == |f.pixels| && |writeIndices| == |f.pixels|
    ensures forall k :: 0 <= k < |writeIndices| ==> writeIndices[k] == (FILTER_OFFS + 1) * f.width + k
    ensures forall k :: 0 <= k < |output| ==> output[k] == Sobel.SobelOperator(WindowAfter(f, init, k + 1))
    ensures forall c :: c in ingestColumns <==> 0 <= c <= f.width && c != FILTER_OFFS
    ensures forall c :: c in loadedColumns <==> FILTER_OFFS <= c <= f.width + 1
  {
    var lineBuffer := new uint8[f.width + 2 * FILTER_OFFS, FILTER_SIZE](
      (c, d) requires 0 <= c < f.width + 2 * FILTER_OFFS && 0 <= d < FILTER_SIZE => init.lineBuffer[c][d]);
    var window := new uint8[FILTER_SIZE, FILTER_SIZE](
      (i, j) requires 0 <= i < FILTER_SIZE && 0 <= j < FILTER_SIZE => init.window[i][j]);
    output, readIndices, writeIndices := [], [], [];
    ingestColumns, loadedColumns := {}, {};

    var row := 0;
    while row < f.height + FILTER_OFFS + 1
      invariant row <= f.height + FILTER_OFFS + 1 && window != lineBuffer
      invariant BufferHolds(f, init, lineBuffer, row, 0) && WindowHolds(f, init, window, |output|)
      invariant ReadSoFar(f.width, f.height, row, 0, readIndices, ingestColumns)
      invariant EmittedSoFar(f, init, row, 0, output, writeIndices, loadedColumns)
    {
      output, readIndices, writeIndices, ingestColumns, loadedColumns :=
        ScanRow(f, init, lineBuffer, window, row, output, readIndices, writeIndices, ingestColumns, loadedColumns);
      NextRowSoFar(f, init, row, output, readIndices, writeIndices, ingestColumns, loadedColumns);
      row := row + 1;
    }
    AllScanned(f, init, output, readIndices, writeIndices, ingestColumns, loadedColumns);
  }

  // ---------------------------------------------------------------------------------------
  // What the emitted results mean.

  /** The 5×5 neighbourhood of the frame whose top-left cell is (t - 1, x - 1), rows and
      columns clamped to the frame. */
  function Neighbourhood(f: Frame, t: int, x: int): (w: seq<seq<uint8>>)
    requires f.Valid()
    ensures Sobel.IsWindow(w)
    ensures forall i, j :: 0 <= i < FILTER_SIZE && 0 <= j < FILTER_SIZE ==> w[i][j] == NeighbourCell(f, t, x, i, j)
  {
    seq(FILTER_SIZE, i requires 0 <= i < FILTER_SIZE =>
      seq(FILTER_SIZE, j requires 0 <= j < FILTER_SIZE => NeighbourCell(f, t, x, i, j)))
  }

  function NeighbourCell(f: Frame, t: int, x: int, i: nat, j: nat): uint8
    requires f.Valid()
  {
    Pixel(f, Clamp(t - 1 + i, f.height), Clamp(x - 1 + j, f.width))
  }

  /** A raster position lies inside the frame. */
  lemma RowOfIndex(f: Frame, k: nat)
    requires f.Valid() && k < |f.pixels|
    ensures k / f.width < f.height && k == k / f.width * f.width + k % f.width
  {
    if k / f.width >= f.height {
      MulMonotone(f.height, k / f.width, f.width);
    }
  }

  /** A middle image column away from the right border rolls the frame down: depth d, read at
      row r, holds image row r - 4 + d clamped to the frame. */
  lemma RollingColumn(f: Frame, init: Uninitialised, r: int, o: nat, d: nat)
    requires f.Valid() && init.Fits(f.width) && d < FILTER_SIZE
    requires 1 <= o < f.width - 3
    ensures ColumnAt(f, init, r, o, d) == Pixel(f, Clamp(r - 4 + d, f.height), o)
  {
  }

  /** The window behind an interior result agrees, on the 3×3 corner sobel_operator reads,
      with the clamped neighbourhood whose top-left cell is (k / width - 1, k % width - 4). */
  lemma InteriorWindow(f: Frame, init: Uninitialised, k: nat, e: nat, t: int, x: int)
    requires f.Valid() && init.Fits(f.width) && k < |f.pixels|
    requires 5 <= k % f.width <= f.width - 2
    requires e == k + 1 && t == k / f.width && x == k % f.width - 3
    ensures forall i, j :: 0 <= i < 3 && 0 <= j < 3 ==> WindowCell(f, init, e, i, j) == NeighbourCell(f, t, x, i, j)
  {
    RowOfIndex(f, k);
    forall i, j | 0 <= i < 3 && 0 <= j < 3
      ensures WindowCell(f, init, e, i, j) == NeighbourCell(f, t, x, i, j)
    {
      InteriorCell(f, init, k, k / f.width, k % f.width, i, j);
    }
  }

  lemma InteriorCell(f: Frame, init: Uninitialised, k: nat, t: nat, c: nat, i: nat, j: nat)
    requires f.Valid() && init.Fits(f.width) && t < f.height && i < 3 && j < 3
    requires k == t * f.width + c && 5 <= c <= f.width - 2
    ensures WindowCell(f, init, k + 1, i, j) == NeighbourCell(f, t, c - 3, i, j)
  {
    DivModOf(t, c - 4 + j, f.width);
    assert k + 1 + j - FILTER_SIZE == t * f.width + (c - 4 + j);
    RollingColumn(f, init, FILTER_OFFS + 1 + t, c - 4 + j, i);
  }

  /** The interior result of the filter. Result k, written at raster index
      (FILTER_OFFS + 1) * width + k, is sobel_operator of the clamped neighbourhood centred on
      image row k / width and image column k % width - 3: vertically the window is centred on
      the pixel, horizontally it lags three columns behind it, and the starting contents of
      the line buffer and window play no part. Interior means 5 <= k % width <= width - 2. */
  lemma InteriorOutput(f: Frame, init: Uninitialised, k: nat)
    requires f.Valid() && init.Fits(f.width) && k < |f.pixels|
    requires 5 <= k % f.width <= f.width - 2
    ensures Sobel.SobelOperator(WindowAfter(f, init, k + 1)) ==
            Sobel.SobelOperator(Neighbourhood(f, k / f.width, k % f.width - 3))
  {
    InteriorWindow(f, init, k, k + 1, k / f.width, k % f.width - 3);
    Sobel.CornerOnly(WindowAfter(f, init, k + 1), Neighbourhood(f, k / f.width, k % f.width - 3));
  }

  /** On a frame of one gray value v every interior result is that of the flat window; for
      v = 10 this is an edge (Sobel.FlatWindowIsEdge). */
  lemma FlatFrame(f: Frame, init: Uninitialised, k: nat, v: uint8)
    requires f.Valid() && init.Fits(f.width) && k < |f.pixels|
    requires forall i :: 0 <= i < |f.pixels| ==> f.pixels[i] == v
    requires 5 <= k % f.width <= f.width - 2
    ensures Sobel.SobelOperator(WindowAfter(f, init, k + 1)) == Sobel.SobelOperator(Sobel.Flat(v))
  {
    InteriorWindow(f, init, k, k + 1, k / f.width, k % f.width - 3);
    FlatNeighbourhood(f, k / f.width, k % f.width - 3, v);
    Sobel.CornerOnly(WindowAfter(f, init, k + 1), Sobel.Flat(v));
  }

  /** Every cell of a neighbourhood of a one-valued frame holds that value. */
  lemma FlatNeighbourhood(f: Frame, t: int, x: int, v: uint8)
    requires f.Valid()
    requires forall i :: 0 <= i < |f.pixels| ==> f.pixels[i] == v
    ensures forall i, j :: 0 <= i < 3 && 0 <= j < 3 ==> Neighbourhood(f, t, x)[i][j] == Sobel.Flat(v)[i][j]
  {
    var n := Neighbourhood(f, t, x);
    forall i, j | 0 <= i < 3 && 0 <= j < 3
      ensures n[i][j] == Sobel.Flat(v)[i][j]
    {
      var r, o := Clamp(t - 1 + i, f.height), Clamp(x - 1 + j, f.width);
      RasterIndex(f, r, o);
      assert n[i][j] == f.pixels[r * f.width + o];
    }
  }
}
