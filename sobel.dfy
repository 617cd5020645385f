/** sobel_operator: the binary edge decision taken on each 5×5 window. Only the 3×3 corner
    [0..2][0..2] of the window is read, with char (8-bit) accumulators. */
module Sobel {
  import opened Types

  /** A FILTER_SIZE × FILTER_SIZE window, indexed [row][column]. */
  predicate IsWindow(w: seq<seq<uint8>>)
  {
    |w| == FILTER_SIZE && forall i :: 0 <= i < |w| ==> |w[i]| == FILTER_SIZE
  }

  predicate IsKernel(k: seq<seq<int8>>)
  {
    |k| == FILTER_SIZE && forall i :: 0 <= i < |k| ==> |k[i]| == FILTER_SIZE
  }

  /** kernelx: the horizontal-edge weights. */
  const KERNEL_X: seq<seq<int8>> :=
    [ [ 2,  2,  4,  2,  2],
      [ 1,  1,  2,  1,  1],
      [ 0,  0,  0,  0,  0],
      [-1, -1, -2, -1, -1],
      [-2, -2, -4, -2, -2] ]

  /** kernely: the vertical-edge weights. */
  const KERNEL_Y: seq<seq<int8>> :=
    [ [2, 1, 0, -1, -2],
      [2, 1, 0, -1, -2],
      [4, 2, 0, -2, -4],
      [2, 1, 0, -1, -2],
      [2, 1, 0, -1, -2] ]

  /** hls::abs on a char, taken as the mathematical absolute value (so -128 gives 128). */
  function Abs(x: int): (r: nat)
    ensures r == x || r == -x
    ensures r >= x && r >= -x
  {
    if x < 0 then -x else x
  }

  /** temp_pixel.val[0] * kernel[i][j] for the n-th visited cell (i, j) = (n / 3, n % 3). */
  function Weighted(w: seq<seq<uint8>>, kernel: seq<seq<int8>>, n: nat): int
    requires IsWindow(w) && IsKernel(kernel) && n < 9
  {
    var i, j := n / 3, n % 3;
    (w[i][j] as int) * (kernel[i][j] as int)
  }

  /** The nine products of the 3×3 corner in the order of the two unrolled loops (row offset
      outer, column offset inner). */
  function Products(w: seq<seq<uint8>>, kernel: seq<seq<int8>>): (ps: seq<int>)
    requires IsWindow(w) && IsKernel(kernel)
    ensures |ps| == 9 && forall n :: 0 <= n < 9 ==> ps[n] == Weighted(w, kernel, n)
  {
    seq(9, n requires 0 <= n < 9 => Weighted(w, kernel, n))
  }

  /** The same products summed without any wrap. */
  function Sum(ps: seq<int>): int
    decreases |ps|
  {
    if ps == [] then 0 else ps[0] + Sum(ps[1..])
  }

  /** The char accumulator after adding each product in turn, wrapping after every addition:
      it ends at the 8-bit wrap of the exact sum. */
  function Accumulate(ps: seq<int>, acc: int8): (r: int8)
    ensures r == ToChar(acc + Sum(ps))
    decreases |ps|
  {
    if ps == [] then acc
    else
      ToCharAdd(acc + ps[0], Sum(ps[1..]));
      Accumulate(ps[1..], ToChar(acc + ps[0]))
  }

  /** Exact horizontal gradient: kernelx weighted over the 3×3 corner (its third row is zero). */
  function GradientX(w: seq<seq<uint8>>): int
    requires IsWindow(w)
  {
    var w00: int, w01: int, w02: int := w[0][0], w[0][1], w[0][2];
    var w10: int, w11: int, w12: int := w[1][0], w[1][1], w[1][2];
    2 * w00 + 2 * w01 + 4 * w02 + w10 + w11 + 2 * w12
  }

  /** Exact vertical gradient: kernely weighted over the 3×3 corner (its third column is zero). */
  function GradientY(w: seq<seq<uint8>>): int
    requires IsWindow(w)
  {
    var w00: int, w01: int, w10: int, w11: int := w[0][0], w[0][1], w[1][0], w[1][1];
    var w20: int, w21: int := w[2][0], w[2][1];
    2 * w00 + w01 + 2 * w10 + w11 + 4 * w20 + 2 * w21
  }

  /** A sum of nine products written out term by term. */
  lemma SumNine(ps: seq<int>)
    requires |ps| == 9
    ensures Sum(ps) == ps[0] + ps[1] + ps[2] + ps[3] + ps[4] + ps[5] + ps[6] + ps[7] + ps[8]
  {
    assert Sum(ps[8..]) == ps[8] by { assert ps[8..][1..] == []; }
    assert Sum(ps[6..]) == ps[6] + ps[7] + Sum(ps[8..]) by {
      assert ps[6..][1..] == ps[7..] && ps[7..][1..] == ps[8..];
    }
    assert Sum(ps[4..]) == ps[4] + ps[5] + Sum(ps[6..]) by {
      assert ps[4..][1..] == ps[5..] && ps[5..][1..] == ps[6..];
    }
    assert Sum(ps[2..]) == ps[2] + ps[3] + Sum(ps[4..]) by {
      assert ps[2..][1..] == ps[3..] && ps[3..][1..] == ps[4..];
    }
    assert Sum(ps) == ps[0] + ps[1] + Sum(ps[2..]) by {
      assert ps[1..] == ps[1..] && ps[1..][1..] == ps[2..];
    }
  }

  /** kernelx over the 3×3 corner sums to the horizontal gradient. */
  lemma CornerSumX(w: seq<seq<uint8>>)
    requires IsWindow(w)
    ensures IsKernel(KERNEL_X) && Sum(Products(w, KERNEL_X)) == GradientX(w)
  {
    assert IsKernel(KERNEL_X);
    var ps := Products(w, KERNEL_X);
    SumNine(ps);
    assert ps[0] == 2 * (w[0][0] as int) && ps[1] == 2 * (w[0][1] as int) && ps[2] == 4 * (w[0][2] as int);
    assert ps[3] == w[1][0] as int && ps[4] == w[1][1] as int && ps[5] == 2 * (w[1][2] as int);
    assert ps[6] == 0 && ps[7] == 0 && ps[8] == 0;
  }

  /** kernely over the 3×3 corner sums to the vertical gradient. */
  lemma CornerSumY(w: seq<seq<uint8>>)
    requires IsWindow(w)
    ensures IsKernel(KERNEL_Y) && Sum(Products(w, KERNEL_Y)) == GradientY(w)
  {
    assert IsKernel(KERNEL_Y);
    var ps := Products(w, KERNEL_Y);
    SumNine(ps);
    assert ps[0] == 2 * (w[0][0] as int) && ps[1] == w[0][1] as int && ps[2] == 0;
    assert ps[3] == 2 * (w[1][0] as int) && ps[4] == w[1][1] as int && ps[5] == 0;
    assert ps[6] == 4 * (w[2][0] as int) && ps[7] == 2 * (w[2][1] as int) && ps[8] == 0;
  }

  /** The loop over kernelx computes the wrapped horizontal gradient. */
  lemma MagnitudeX(w: seq<seq<uint8>>)
    requires IsWindow(w)
    ensures IsKernel(KERNEL_X) && Accumulate(Products(w, KERNEL_X), 0) == ToChar(GradientX(w))
  {
    CornerSumX(w);
  }

  /** The loop over kernely computes the wrapped vertical gradient. */
  lemma MagnitudeY(w: seq<seq<uint8>>)
    requires IsWindow(w)
    ensures IsKernel(KERNEL_Y) && Accumulate(Products(w, KERNEL_Y), 0) == ToChar(GradientY(w))
  {
    CornerSumY(w);
  }

  /** sobel_operator: the binary edge decision on the wrapped horizontal and vertical
      magnitudes (EdgeDecision says when it is 255). */
  function SobelOperator(w: seq<seq<uint8>>): (r: uint8)
    requires IsWindow(w)
    ensures r == 0 || r == 255
  {
    assert IsKernel(KERNEL_X) && IsKernel(KERNEL_Y);
    var xMag := Accumulate(Products(w, KERNEL_X), 0);
    var yMag := Accumulate(Products(w, KERNEL_Y), 0);
    if Abs(xMag) + Abs(yMag) > 200 then 255 else 0
  }

  /** The product of cell (i, j) is the (3i + j)-th one accumulated. */
  lemma ProductAt(w: seq<seq<uint8>>, kernel: seq<seq<int8>>, i: nat, j: nat)
    requires IsWindow(w) && IsKernel(kernel) && i < 3 && j < 3
    ensures Products(w, kernel)[3 * i + j] == (w[i][j] as int) * (kernel[i][j] as int)
  {
    DivModOf(i, j, 3);
  }

  /** One iteration of the accumulator loops: if the accumulator ends at total over ps[n..],
      adding product n gives one that ends at total over ps[n + 1..]. */
  lemma AccumulateStep(ps: seq<int>, n: nat, acc: int8, next: int8, total: int8)
    requires n < |ps| && Accumulate(ps[n..], acc) == total && next == ToChar(acc + ps[n])
    ensures Accumulate(ps[n + 1..], next) == total
  {
    assert ps[n..][1..] == ps[n + 1..];
  }

  /** One pass of the inner loop body: the products of cell (1 + rowOffset, 1 + colOffset),
      the n-th visited, are added to both char accumulators, which stay on course to the totals
      over all nine products. */
  method Tap(w: seq<seq<uint8>>, rowOffset: int, colOffset: int, ghost n: nat, xMag: int8, yMag: int8,
             ghost totalX: int8, ghost totalY: int8)
    returns (xMag': int8, yMag': int8)
    requires IsWindow(w) && -1 <= rowOffset <= 1 && -1 <= colOffset <= 1
    requires n == 3 * (rowOffset + 1) + colOffset + 1
    requires IsKernel(KERNEL_X) && IsKernel(KERNEL_Y)
    requires Accumulate(Products(w, KERNEL_X)[n..], xMag) == totalX
    requires Accumulate(Products(w, KERNEL_Y)[n..], yMag) == totalY
    ensures xMag' == ToChar(xMag + Products(w, KERNEL_X)[n]) && yMag' == ToChar(yMag + Products(w, KERNEL_Y)[n])
    ensures Accumulate(Products(w, KERNEL_X)[n + 1..], xMag') == totalX
    ensures Accumulate(Products(w, KERNEL_Y)[n + 1..], yMag') == totalY
  {
    var tempPixel := w[1 + rowOffset][1 + colOffset];
    ProductAt(w, KERNEL_X, rowOffset + 1, colOffset + 1);
    ProductAt(w, KERNEL_Y, rowOffset + 1, colOffset + 1);
    xMag' := ToChar(xMag + tempPixel * KERNEL_X[1 + rowOffset][1 + colOffset]);
    yMag' := ToChar(yMag + tempPixel * KERNEL_Y[1 + rowOffset][1 + colOffset]);
    AccumulateStep(Products(w, KERNEL_X), n, xMag, xMag', totalX);
    AccumulateStep(Products(w, KERNEL_Y), n, yMag, yMag', totalY);
  }

  /** sobel_operator as written: the two offset loops feed every product of the 3×3 corner
      into the char accumulators, which wrap after every addition. */
  method SobelLoops(w: seq<seq<uint8>>) returns (r: uint8)
    requires IsWindow(w)
    ensures r == SobelOperator(w)
  {
    assert IsKernel(KERNEL_X) && IsKernel(KERNEL_Y);
    ghost var totalX, totalY := Accumulate(Products(w, KERNEL_X), 0), Accumulate(Products(w, KERNEL_Y), 0);
    var xMag: int8, yMag: int8 := 0, 0;
    ghost var n := 0;
    for rowOffset := -1 to 2
      invariant n == 3 * (rowOffset + 1)
      invariant Accumulate(Products(w, KERNEL_X)[n..], xMag) == totalX
      invariant Accumulate(Products(w, KERNEL_Y)[n..], yMag) == totalY
    {
      for colOffset := -1 to 2
        invariant n == 3 * (rowOffset + 1) + colOffset + 1
        invariant Accumulate(Products(w, KERNEL_X)[n..], xMag) == totalX
        invariant Accumulate(Products(w, KERNEL_Y)[n..], yMag) == totalY
      {
        xMag, yMag := Tap(w, rowOffset, colOffset, n, xMag, yMag, totalX, totalY);
        n := n + 1;
      }
    }
    assert Products(w, KERNEL_X)[9..] == [] && Products(w, KERNEL_Y)[9..] == [];
    if Abs(xMag) + Abs(yMag) > 200 {
      return 255;
    } else {
      return 0;
    }
  }

  /** The window is an edge exactly when the 8-bit wraps of the exact gradients have absolute
      values summing to more than 200. */
  lemma EdgeDecision(w: seq<seq<uint8>>)
    requires IsWindow(w)
    ensures SobelOperator(w) == 255 <==> Abs(ToChar(GradientX(w))) + Abs(ToChar(GradientY(w))) > 200
  {
    MagnitudeX(w);
    MagnitudeY(w);
  }

  /** Cells outside rows 0..2 and columns 0..2 never influence the result. */
  lemma CornerOnly(w: seq<seq<uint8>>, v: seq<seq<uint8>>)
    requires IsWindow(w) && IsWindow(v)
    requires forall i, j :: 0 <= i < 3 && 0 <= j < 3 ==> w[i][j] == v[i][j]
    ensures SobelOperator(w) == SobelOperator(v)
  {
    assert IsKernel(KERNEL_X) && IsKernel(KERNEL_Y);
    assert Products(w, KERNEL_X) == Products(v, KERNEL_X);
    assert Products(w, KERNEL_Y) == Products(v, KERNEL_Y);
  }

  /** A black window is no edge. */
  lemma BlackWindow(w: seq<seq<uint8>>)
    requires IsWindow(w)
    requires forall i, j :: 0 <= i < 3 && 0 <= j < 3 ==> w[i][j] == 0
    ensures SobelOperator(w) == 0
  {
    EdgeDecision(w);
    assert GradientX(w) == 0 && GradientY(w) == 0;
  }

  function Flat(v: uint8): (w: seq<seq<uint8>>)
    ensures IsWindow(w)
  {
    seq(FILTER_SIZE, i => seq(FILTER_SIZE, j => v))
  }

  /** The corner weights do not cancel: a flat window of gray 10 is reported as an edge. */
  lemma FlatWindowIsEdge()
    ensures SobelOperator(Flat(10)) == 255
  {
    var w := Flat(10);
    EdgeDecision(w);
    assert GradientX(w) == 120 && GradientY(w) == 120;
    assert ToChar(120) == 120;
  }

  /** The char accumulators wrap: a single corner cell of gray 90 (a value rgb2gry can
      produce), whose exact gradient magnitudes sum to 360, is reported as no edge. */
  lemma AccumulatorWraps()
    ensures var w := [[90, 0, 0, 0, 0]] + seq(4, i => seq(FILTER_SIZE, j => 0)) + [];
      IsWindow(w) && GradientX(w) + GradientY(w) == 360 && SobelOperator(w) == 0
  {
    var w := [[90, 0, 0, 0, 0]] + seq(4, i => seq(FILTER_SIZE, j => 0)) + [];
    EdgeDecision(w);
    assert w[0][0] == 90 && w[0][1] == 0 && w[0][2] == 0;
    assert w[1][0] == 0 && w[1][1] == 0 && w[1][2] == 0;
    assert w[2][0] == 0 && w[2][1] == 0;
    assert GradientX(w) == 180 && GradientY(w) == 180;
    assert ToChar(180) == -76;
  }
}
