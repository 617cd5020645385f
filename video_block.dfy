/** hls_video_block: the AXI video stream is copied into an RGB mat, converted to gray, filtered,
    expanded back to RGB and copied out to the output stream. The four mats between the stages
    are FIFOs under the DATAFLOW pragma, so each stage consumes its input in the order the
    previous one produced it. */
module VideoBlock {
  import opened Types
  import Color
  import Sobel
  import LineBufferFilter

  /** strm2mat: reads size words from the input stream into the mat. A read from an exhausted
      stream blocks forever; the model reports that as None, having consumed the whole stream. */
  method Strm2Mat(stream: seq<uint24>, size: nat) returns (mat: Option<seq<uint24>>, rest: seq<uint24>)
    ensures mat.Some? <==> |stream| >= size
    ensures mat.Some? ==> mat.value == stream[..size] && rest == stream[size..]
    ensures mat.None? ==> rest == []
  {
    var data := new uint24[size];
    rest := stream;
    for i := 0 to size
      invariant i <= |stream| && rest == stream[i..]
      invariant data[..i] == stream[..i]
    {
      if rest == [] {
        return None, rest;
      }
      data[i] := rest[0];
      rest := rest[1..];
      assert data[..i + 1] == data[..i] + [stream[i]];
    }
    mat := Some(data[..]);
  }

  /** mat2strm: writes every word of the mat, in order, after what the stream already holds. */
  method Mat2Strm(mat: seq<uint24>, stream0: seq<uint24>) returns (stream: seq<uint24>)
    ensures stream == stream0 + mat
  {
    stream := stream0;
    for i := 0 to |mat|
      invariant stream == stream0 + mat[..i]
    {
      stream := stream + [mat[i]];
      assert mat[..i + 1] == mat[..i] + [mat[i]];
    }
    assert mat[..|mat|] == mat;
  }

  /** The filter's results in the order hls_2DFilter emits them. */
  function Results(f: LineBufferFilter.Frame, init: LineBufferFilter.Uninitialised): (r: seq<uint8>)
    requires f.Valid() && init.Fits(f.width)
    ensures |r| == |f.pixels|
    ensures forall k :: 0 <= k < |r| ==> r[k] == Sobel.SobelOperator(LineBufferFilter.WindowAfter(f, init, k + 1))
  {
    seq(|f.pixels|, k requires 0 <= k < |f.pixels| => Sobel.SobelOperator(LineBufferFilter.WindowAfter(f, init, k + 1)))
  }

  /** The gray frame rgb2gry makes of the first width × height words of the stream. */
  function GrayFrame(width: nat, height: nat, input: seq<uint24>): (f: LineBufferFilter.Frame)
    requires width >= 4 && height >= 1 && |input| >= width * height
    ensures f.Valid() && f.width == width && f.height == height
  {
    LineBufferFilter.Frame(width, height, Color.Rgb2GryFrame(input[..width * height]))
  }

  /** What one frame through the block produces. */
  function Pipeline(width: nat, height: nat, input: seq<uint24>, init: LineBufferFilter.Uninitialised, previous: uint24): seq<uint24>
    requires width >= 4 && height >= 1 && |input| >= width * height && init.Fits(width)
  {
    Color.Gry2RgbFrame(Results(GrayFrame(width, height, input), init), previous)
  }

  /** hls_video_block on one frame of a width × height geometry (1280 × 720 in the source).
      init holds the filter's uninitialised line buffer and window, previous gry2rgb's
      uninitialised output word. None: the input stream ran dry and the block stalls. */
  method HlsVideoBlock(width: nat, height: nat, input: seq<uint24>, init: LineBufferFilter.Uninitialised, previous: uint24)
    returns (output: Option<seq<uint24>>)
    requires width >= 4 && height >= 1 && init.Fits(width)
    ensures output.Some? <==> |input| >= width * height
    ensures output.Some? ==> output.value == Pipeline(width, height, input, init, previous)
  {
    var inTmp, _ := Strm2Mat(input, width * height);
    if inTmp.None? {
      return None;
    }
    var im1 := Color.Rgb2GryImage(inTmp.value, width, height);
    var frame := LineBufferFilter.Frame(width, height, im1);
    var im2, _, _, _, _ := LineBufferFilter.Filter2D(frame, init);
    assert im2 == Results(frame, init);
    var outTmp := Color.Gry2RgbImage(im2, width, height, previous);
    var stream := Mat2Strm(outTmp, []);
    output := Some(stream);
  }

  /** Every output word is black or white, with all three channels equal. */
  lemma PipelineBinary(width: nat, height: nat, input: seq<uint24>, init: LineBufferFilter.Uninitialised, previous: uint24)
    requires width >= 4 && height >= 1 && |input| >= width * height && init.Fits(width)
    ensures var out := Pipeline(width, height, input, init, previous);
      |out| == width * height && forall i :: 0 <= i < |out| ==> out[i] in {Color.BLACK, Color.WHITE}
  {
    var g := GrayFrame(width, height, input);
    var r := Results(g, init);
    assert Pipeline(width, height, input, init, previous) == Color.Gry2RgbFrame(r, previous);
    forall i | 0 <= i < |r|
      ensures r[i] in {0, 255}
    {
      assert r[i] == Sobel.SobelOperator(LineBufferFilter.WindowAfter(g, init, i + 1));
    }
    Color.BinaryFrame(r, previous);
  }

  /** An interior output word is white exactly when the clamped 3×3 gray neighbourhood centred
      on row i / width and column i % width - 3 of the input is an edge. */
  lemma PipelineInterior(width: nat, height: nat, input: seq<uint24>, init: LineBufferFilter.Uninitialised, previous: uint24, i: nat)
    requires width >= 4 && height >= 1 && |input| >= width * height && init.Fits(width)
    requires i < width * height && 5 <= i % width <= width - 2
    ensures var g := GrayFrame(width, height, input);
      var e := Sobel.SobelOperator(LineBufferFilter.Neighbourhood(g, i / width, i % width - 3));
      Pipeline(width, height, input, init, previous)[i] == Pack(e, e, e)
  {
    var g := GrayFrame(width, height, input);
    var r := Results(g, init);
    var e := Sobel.SobelOperator(LineBufferFilter.Neighbourhood(g, i / width, i % width - 3));
    assert r[i] == e by {
      LineBufferFilter.InteriorOutput(g, init, i);
    }
    assert Pipeline(width, height, input, init, previous)[i] == Pack(e, e, e) by {
      Color.Gry2RgbFramePixel(r, previous, i);
    }
  }
}
