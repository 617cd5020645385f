/** The per-pixel colour conversions of the video block: rgb2gry before the filter and
    gry2rgb after it, each applied to a whole frame in raster order. */
module Color {
  import opened Types

  /** rgb2gry on one pixel: each channel divided by 8 (truncating) and the three summed. */
  function Rgb2Gry(p: uint24): (g: uint8)
    ensures g <= 93
  {
    var red, green, blue := Field(p, 0), Field(p, 1), Field(p, 2);
    red / 8 + green / 8 + blue / 8
  }

  /** A pixel turns black exactly when every channel is below 8. */
  lemma Rgb2GryBlack(p: uint24)
    ensures Rgb2Gry(p) == 0 <==> forall k :: 0 <= k < 3 ==> Field(p, k) < 8
  {
  }

  /** gry2rgb on one pixel: the gray value is written into all three byte fields of the
      output word, which still holds the previous pixel's value (uninitialised at first). */
  function Gry2Rgb(g: uint8, previous: uint24): (w: uint24)
    ensures forall k :: 0 <= k < 3 ==> Field(w, k) == g
  {
    var red := SetField(previous, 0, g);
    var redGreen := SetField(red, 1, g);
    SetField(redGreen, 2, g)
  }

  /** The previous content of the output word never shows through. */
  lemma Gry2RgbOverwrites(g: uint8, previous: uint24)
    ensures Gry2Rgb(g, previous) == Pack(g, g, g)
  {
    PackOfFields(Gry2Rgb(g, previous));
  }

  /** Converting a gray pixel to RGB and back keeps only its top five bits, three times over. */
  lemma GrayRoundTrip(g: uint8, previous: uint24)
    ensures Rgb2Gry(Gry2Rgb(g, previous)) == 3 * (g / 8)
  {
  }

  /** rgb2gry over a frame in raster order. */
  function Rgb2GryFrame(image: seq<uint24>): (gray: seq<uint8>)
    ensures |gray| == |image|
    ensures forall i :: 0 <= i < |image| ==> gray[i] == Rgb2Gry(image[i]) && gray[i] <= 93
  {
    seq(|image|, i requires 0 <= i < |image| => Rgb2Gry(image[i]))
  }

  /** gry2rgb over a frame in raster order; the output word carries over from pixel to pixel. */
  function Gry2RgbFrame(gray: seq<uint8>, previous: uint24): (image: seq<uint24>)
    ensures |image| == |gray|
    ensures forall i :: 0 <= i < |gray| ==> forall k :: 0 <= k < 3 ==> Field(image[i], k) == gray[i]
    decreases |gray|
  {
    if gray == [] then []
    else
      var first := Gry2Rgb(gray[0], previous);
      [first] + Gry2RgbFrame(gray[1..], first)
  }

  /** Every word of the expanded frame is its gray pixel replicated into all three channels. */
  lemma Gry2RgbFramePixel(gray: seq<uint8>, previous: uint24, i: nat)
    requires i < |gray|
    ensures Gry2RgbFrame(gray, previous)[i] == Pack(gray[i], gray[i], gray[i])
  {
    PackOfFields(Gry2RgbFrame(gray, previous)[i]);
  }

  /** The all-black and all-white RGB words. */
  const BLACK: uint24 := 0
  const WHITE: uint24 := 0xFF_FFFF

  /** A black-and-white gray frame expands to black and white words. */
  lemma BinaryFrame(gray: seq<uint8>, previous: uint24)
    requires forall i :: 0 <= i < |gray| ==> gray[i] in {0, 255}
    ensures forall i :: 0 <= i < |gray| ==> Gry2RgbFrame(gray, previous)[i] in {BLACK, WHITE}
  {
    var image := Gry2RgbFrame(gray, previous);
    forall i | 0 <= i < |gray|
      ensures image[i] in {BLACK, WHITE}
    {
      Gry2RgbFramePixel(gray, previous, i);
    }
  }

  /** Appending a gray pixel appends its RGB word, whatever word came before. */
  lemma {:induction false} Gry2RgbFrameSnoc(gray: seq<uint8>, g: uint8, previous: uint24)
    ensures Gry2RgbFrame(gray + [g], previous) == Gry2RgbFrame(gray, previous) + [Pack(g, g, g)]
    decreases |gray|
  {
    if gray == [] {
      assert [g][1..] == [];
      Gry2RgbOverwrites(g, previous);
    } else {
      assert (gray + [g])[1..] == gray[1..] + [g];
      Gry2RgbFrameSnoc(gray[1..], g, Gry2Rgb(gray[0], previous));
    }
  }

  /** The raster index of (row, col) lies inside a width × height frame. */
  lemma RasterBound(width: nat, height: nat, row: nat, col: nat)
    requires row < height && col < width
    ensures row * width + col < width * height
  {
    MulMonotone(row + 1, height, width);
    assert (row + 1) * width == row * width + width;
  }

  /** rgb2gry: the nested raster loops over a width × height input mat. */
  method Rgb2GryImage(image: seq<uint24>, width: nat, height: nat) returns (gray: seq<uint8>)
    requires |image| == width * height
    ensures gray == Rgb2GryFrame(image)
  {
    var outputMat := new uint8[width * height];
    ghost var rowStart := 0;
    for row := 0 to height
      invariant rowStart == row * width
      invariant forall i :: 0 <= i < rowStart ==> outputMat[i] == Rgb2Gry(image[i])
    {
      assert (row + 1) * width == rowStart + width;
      MulMonotone(row + 1, height, width);
      for col := 0 to width
        invariant forall i :: 0 <= i < rowStart + col ==> outputMat[i] == Rgb2Gry(image[i])
      {
        RasterBound(width, height, row, col);
        var index := row * width + col;
        var inputPixel := image[index];
        outputMat[index] := Rgb2Gry(inputPixel);
      }
      rowStart := rowStart + width;
    }
    gray := outputMat[..];
  }

  /** gry2rgb: the nested raster loops over a width × height gray mat. The output word is a
      single variable that keeps its value from one pixel to the next; it starts as previous. */
  method Gry2RgbImage(gray: seq<uint8>, width: nat, height: nat, previous: uint24) returns (image: seq<uint24>)
    requires |gray| == width * height
    ensures image == Gry2RgbFrame(gray, previous)
  {
    var outputMat := new uint24[width * height];
    var outputPixel := previous;
    ghost var rowStart := 0;
    for row := 0 to height
      invariant rowStart == row * width && rowStart <= |gray|
      invariant outputMat[..rowStart] == Gry2RgbFrame(gray[..rowStart], previous)
    {
      assert (row + 1) * width == rowStart + width;
      MulMonotone(row + 1, height, width);
      for col := 0 to width
        invariant outputMat[..rowStart + col] == Gry2RgbFrame(gray[..rowStart + col], previous)
      {
        RasterBound(width, height, row, col);
        var index := row * width + col;
        var inputPixel := gray[index];
        outputPixel := SetField(outputPixel, 0, inputPixel);
        outputPixel := SetField(outputPixel, 1, inputPixel);
        outputPixel := SetField(outputPixel, 2, inputPixel);
        outputMat[index] := outputPixel;
        GrayPixelStep(outputMat[..], gray, index, previous);
      }
      rowStart := rowStart + width;
    }
    assert gray[..rowStart] == gray;
    image := outputMat[..];
  }

  /** One step of gry2rgb's loop: a word with all three fields equal to the gray pixel extends
      the converted prefix by one. */
  lemma GrayPixelStep(mat: seq<uint24>, gray: seq<uint8>, index: nat, previous: uint24)
    requires index < |mat| && index < |gray|
    requires mat[..index] == Gry2RgbFrame(gray[..index], previous)
    requires forall k :: 0 <= k < 3 ==> Field(mat[index], k) == gray[index]
    ensures mat[..index + 1] == Gry2RgbFrame(gray[..index + 1], previous)
  {
    PackOfFields(mat[index]);
    Gry2RgbFrameSnoc(gray[..index], gray[index], previous);
    assert gray[..index + 1] == gray[..index] + [gray[index]];
    assert mat[..index + 1] == mat[..index] + [mat[index]];
  }
}
