/** The benchmark's ground truth and test images: the 8-bit reference
    filter that the histogram kernel is compared against with tolerance 0,
    and the deterministic 8-bit test patterns. */
module Benchmark {
  import opened Sorting
  import opened Grid
  import opened Medians
  import opened WindowBuffer
  import MfV1
  import MfV5

  /** `referenceMedianFilter`: the float ground truth.  Its pixel step is
      that of `median_filterv1` (extract, sort, middle or mean of the two
      middles); every output is the median of its window, and each cell is
      written exactly once. */
  method ReferenceMedianFilter(input: seq<int>, output: array<real>, ny: nat, nx: nat, hy: nat, hx: nat)
      returns (ghost written: seq<(int, int)>)
    requires |input| == Mul(ny, nx) == output.Length
    modifies output
    ensures forall k :: 0 <= k < output.Length ==> output[k] == MedianAt(input, ny, nx, hy, hx, k)
    ensures ExactlyOnce(written, ny, nx)
  {
    var pixels := new int[Mul(2 * hy + 1, 2 * hx + 1)];
    written := [];
    var y := 0;
    while y < ny
      invariant y <= ny
      invariant Logged(input, ny, nx, hy, hx, output[..], written)
      invariant Distinct(written) && forall c :: c in written <==> RowMajorBefore(c, y, 0, nx)
    {
      written := ReferenceRow(input, output, ny, nx, hy, hx, y, pixels, written);
      y := y + 1;
    }
    LoggedAll(input, ny, nx, hy, hx, output[..], written);
  }

  /** The `x` loop of row `y` of the float reference filter. */
  method ReferenceRow(input: seq<int>, output: array<real>, ny: nat, nx: nat, hy: nat, hx: nat, y: nat,
                      pixels: array<int>, ghost written0: seq<(int, int)>)
      returns (ghost written: seq<(int, int)>)
    requires y < ny && pixels.Length == Mul(2 * hy + 1, 2 * hx + 1)
    requires Logged(input, ny, nx, hy, hx, output[..], written0)
    requires Distinct(written0) && forall c :: c in written0 <==> RowMajorBefore(c, y, 0, nx)
    modifies output, pixels
    ensures Logged(input, ny, nx, hy, hx, output[..], written)
    ensures Distinct(written) && forall c :: c in written <==> RowMajorBefore(c, y + 1, 0, nx)
  {
    written := written0;
    var x := 0;
    while x < nx
      invariant x <= nx
      invariant Logged(input, ny, nx, hy, hx, output[..], written)
      invariant Distinct(written) && forall c :: c in written <==> RowMajorBefore(c, y, x, nx)
    {
      var m := MfV1.PixelMedian(input, ny, nx, hy, hx, y, x, pixels);
      var i := Offset(y, x, nx);
      ghost var before := output[..];
      output[i] := m;
      LoggedStep(input, ny, nx, hy, hx, before, output[..], written, y, x);
      RowMajorStep(written, y, x, nx);
      written := written + [(y, x)];
      x := x + 1;
    }
  }

  /** The 8-bit reference output of one pixel: extract, sort, and take the
      middle or the rounded-up mean of the two middles. */
  method PixelMedianU8(input: seq<Byte>, ny: nat, nx: nat, hy: nat, hx: nat, y: nat, x: nat, pixels: array<int>)
      returns (m: Byte)
    requires |input| == Mul(ny, nx) && y < ny && x < nx
    requires pixels.Length == Mul(2 * hy + 1, 2 * hx + 1)
    modifies pixels
    ensures Offset(y, x, nx) < |input|
    ensures m == MedianAtU8(input, ny, nx, hy, hx, Offset(y, x, nx))
  {
    MedianAtCell(input, ny, nx, hy, hx, y, x);
    var len := ExtractWindow(input, ny, nx, hy, hx, y, x, pixels);
    var v := SortMedianU8(pixels, len, Window(input, ny, nx, hy, hx, y, x));
    MedianAtU8IsByte(input, ny, nx, hy, hx, Offset(y, x, nx));
    m := v;
  }

  /** `referenceMedianFilterUint8`: every output byte is the 8-bit median of
      its window (which always fits a byte), and each cell is written exactly
      once. */
  method ReferenceMedianFilterUint8(input: seq<Byte>, output: array<Byte>, ny: nat, nx: nat, hy: nat, hx: nat)
      returns (ghost written: seq<(int, int)>)
    requires |input| == Mul(ny, nx) == output.Length
    modifies output
    ensures forall k :: 0 <= k < output.Length ==> output[k] == MedianAtU8(input, ny, nx, hy, hx, k)
    ensures ExactlyOnce(written, ny, nx)
  {
    var pixels := new int[Mul(2 * hy + 1, 2 * hx + 1)];
    written := [];
    var y := 0;
    while y < ny
      invariant y <= ny
      invariant LoggedU8(input, ny, nx, hy, hx, output[..], written)
      invariant forall c :: c in written <==> RowMajorBefore(c, y, 0, nx)
    {
      written := ReferenceRowU8(input, output, ny, nx, hy, hx, y, pixels, written);
      y := y + 1;
    }
    LoggedAllU8(input, ny, nx, hy, hx, output[..], written);
  }

  /** The 8-bit accuracy check: the reference filter and `median_filterv5`
      run on the same input, and the comparison with tolerance 0 finds no
      differing pixel.  `threads` stands for the OpenMP thread count. */
  method CompareUint8(input: seq<Byte>, ny: nat, nx: nat, hy: nat, hx: nat, threads: nat)
      returns (reference: array<Byte>, test: array<Byte>)
    requires |input| == Mul(ny, nx)
    ensures reference.Length == test.Length == |input|
    ensures reference[..] == test[..]
  {
    reference := new Byte[Mul(ny, nx)];
    test := new Byte[Mul(ny, nx)];
    ghost var w1 := ReferenceMedianFilterUint8(input, reference, ny, nx, hy, hx);
    ghost var w2 := MfV5.MedianFilterV5(input, test, ny, nx, hy, hx, threads);
    assert forall k :: 0 <= k < test.Length ==> reference[k] == test[k];
  }

  /** The `x` loop of row `y` of the 8-bit reference filter. */
  method ReferenceRowU8(input: seq<Byte>, output: array<Byte>, ny: nat, nx: nat, hy: nat, hx: nat, y: nat,
                        pixels: array<int>, ghost written0: seq<(int, int)>)
      returns (ghost written: seq<(int, int)>)
    requires y < ny && pixels.Length == Mul(2 * hy + 1, 2 * hx + 1)
    requires LoggedU8(input, ny, nx, hy, hx, output[..], written0)
    requires forall c :: c in written0 <==> RowMajorBefore(c, y, 0, nx)
    modifies output, pixels
    ensures LoggedU8(input, ny, nx, hy, hx, output[..], written)
    ensures forall c :: c in written <==> RowMajorBefore(c, y + 1, 0, nx)
  {
    written := written0;
    var x := 0;
    while x < nx
      invariant x <= nx
      invariant LoggedU8(input, ny, nx, hy, hx, output[..], written)
      invariant Distinct(written) && forall c :: c in written <==> RowMajorBefore(c, y, x, nx)
    {
      var m := PixelMedianU8(input, ny, nx, hy, hx, y, x, pixels);
      var i := Offset(y, x, nx);
      ghost var before := output[..];
      output[i] := m;
      LoggedStepU8(input, ny, nx, hy, hx, before, output[..], written, y, x);
      RowMajorStep(written, y, x, nx);
      written := written + [(y, x)];
      x := x + 1;
    }
  }

  /** The "gradient" sample at (y, x): `(x + y) * 255 / (nx + ny - 2)` in
      integer arithmetic. */
  function GradientValue(y: nat, x: nat, ny: nat, nx: nat): int
    requires nx + ny > 2
  {
    (x + y) * 255 / (nx + ny - 2)
  }

  /** The gradient sample at row-major index `k`. */
  function GradientAt(k: nat, ny: nat, nx: nat): int
    requires k < Mul(ny, nx) && !(ny == 1 && nx == 1)
  {
    PositiveWidth(k, ny, nx);
    GradientValue(RowOf(k, nx), ColOf(k, nx), ny, nx)
  }

  /** Every gradient sample fits a byte, so the `uint8_t` cast keeps it
      whole. */
  lemma GradientFits(y: nat, x: nat, ny: nat, nx: nat)
    requires y < ny && x < nx && nx + ny > 2
    ensures 0 <= GradientValue(y, x, ny, nx) <= 255
  {
    var d := nx + ny - 2;
    var a := (x + y) * 255;
    assert a <= 255 * d;
    DivBelow(a, d, 255);
  }

  lemma DivBelow(a: nat, d: nat, m: nat)
    requires d > 0 && a <= m * d
    ensures a / d <= m
  {
  }

  /** The gradient is 0 in the top-left corner, 255 in the bottom-right
      corner, and never decreases along a row or down a column. */
  lemma GradientShape(y: nat, x: nat, y': nat, x': nat, ny: nat, nx: nat)
    requires nx + ny > 2 && x + y <= x' + y'
    ensures GradientValue(0, 0, ny, nx) == 0
    ensures ny > 0 && nx > 0 ==> GradientValue(ny - 1, nx - 1, ny, nx) == 255
    ensures GradientValue(y, x, ny, nx) <= GradientValue(y', x', ny, nx)
  {
    var d := nx + ny - 2;
    assert GradientValue(0, 0, ny, nx) == 0;
    if ny > 0 && nx > 0 {
      var t := 255 * d;
      assert GradientValue(ny - 1, nx - 1, ny, nx) == t / d;
      DivExact(t, 255, d);
    }
    var a, b := (x + y) * 255, (x' + y') * 255;
    assert a <= b;
    DivMono(a, b, d);
  }

  lemma DivExact(a: nat, k: nat, d: nat)
    requires d > 0 && a == k * d
    ensures a / d == k
  {
    var q, r := a / d, a % d;
    assert a == q * d + r && 0 <= r < d;
    assert (q - k) * d == q * d - k * d;
    BelowOneMultiple(q - k, d);
    BelowOneMultiple(k - q, d);
  }

  lemma DivMono(a: nat, b: nat, d: nat)
    requires d > 0 && a <= b
    ensures a / d <= b / d
  {
    var qa, qb := a / d, b / d;
    assert a == qa * d + a % d && b == qb * d + b % d;
    assert (qa - qb) * d == qa * d - qb * d < d;
    BelowOneMultiple(qa - qb, d);
  }

  lemma BelowOneMultiple(k: int, d: nat)
    requires d > 0 && k * d < d
    ensures k < 1
  {
  }

  /** The "gradient" test image.  The pattern divides by `nx + ny - 2`, which
      is zero for a 1-by-1 image, so that image is excluded. */
  method GradientImage(ny: nat, nx: nat) returns (image: array<Byte>)
    requires !(ny == 1 && nx == 1)
    ensures fresh(image) && image.Length == Mul(ny, nx)
    ensures forall k :: 0 <= k < image.Length ==> image[k] == GradientAt(k, ny, nx)
  {
    image := new Byte[Mul(ny, nx)];
    var y := 0;
    while y < ny
      invariant y <= ny && Mul(y, nx) <= image.Length
      invariant forall k :: 0 <= k < Mul(y, nx) ==> image[k] == GradientAt(k, ny, nx)
    {
      var next := y + 1;
      assert Mul(next, nx) == Mul(y, nx) + nx <= image.Length by {
        MulMono(next, ny, nx, nx);
      }
      var x := 0;
      while x < nx
        invariant x <= nx
        invariant forall k :: 0 <= k < Mul(y, nx) + x ==> image[k] == GradientAt(k, ny, nx)
      {
        var i := Offset(y, x, nx);
        var v := (x + y) * 255 / (nx + ny - 2);
        assert i < image.Length && GradientAt(i, ny, nx) == v && 0 <= v < 256 by {
          GradientFits(y, x, ny, nx);
          CellOf(y, x, nx);
        }
        image[i] := v;
        x := x + 1;
      }
      y := next;
    }
  }

  /** The "checkerboard" sample at (y, x): black where `x + y` is even,
      white where it is odd. */
  function CheckerValue(y: nat, x: nat): Byte {
    if (x + y) % 2 == 0 then 0 else 255
  }

  /** The checkerboard sample at row-major index `k`. */
  function CheckerAt(k: nat, ny: nat, nx: nat): Byte
    requires k < Mul(ny, nx)
  {
    PositiveWidth(k, ny, nx);
    CheckerValue(RowOf(k, nx), ColOf(k, nx))
  }

  /** Neighbouring checkerboard samples, across or down, are one black and
      one white. */
  lemma CheckerAlternates(y: nat, x: nat)
    ensures CheckerValue(y, x) + CheckerValue(y, x + 1) == 255
    ensures CheckerValue(y, x) + CheckerValue(y + 1, x) == 255
  {
  }

  /** The "checkerboard" test image. */
  method CheckerboardImage(ny: nat, nx: nat) returns (image: array<Byte>)
    ensures fresh(image) && image.Length == Mul(ny, nx)
    ensures forall k :: 0 <= k < image.Length ==> image[k] == CheckerAt(k, ny, nx)
  {
    image := new Byte[Mul(ny, nx)];
    var y := 0;
    while y < ny
      invariant y <= ny && Mul(y, nx) <= image.Length
      invariant forall k :: 0 <= k < Mul(y, nx) ==> image[k] == CheckerAt(k, ny, nx)
    {
      var next := y + 1;
      assert Mul(next, nx) == Mul(y, nx) + nx <= image.Length by {
        MulMono(next, ny, nx, nx);
      }
      var x := 0;
      while x < nx
        invariant x <= nx
        invariant forall k :: 0 <= k < Mul(y, nx) + x ==> image[k] == CheckerAt(k, ny, nx)
      {
        var i := Offset(y, x, nx);
        var v: Byte := if (x + y) % 2 == 0 then 0 else 255;
        assert i < image.Length && CheckerAt(i, ny, nx) == v by {
          CellOf(y, x, nx);
        }
        image[i] := v;
        x := x + 1;
      }
      y := next;
    }
  }

  /** The "constant" test image: `std::fill` with 128. */
  method ConstantImage(ny: nat, nx: nat) returns (image: array<Byte>)
    ensures fresh(image) && image.Length == Mul(ny, nx)
    ensures forall k :: 0 <= k < image.Length ==> image[k] == 128
  {
    image := new Byte[Mul(ny, nx)];
    var i := 0;
    while i < image.Length
      invariant i <= image.Length
      invariant forall k :: 0 <= k < i ==> image[k] == 128
    {
      image[i] := 128;
      i := i + 1;
    }
  }

  /** A sample whose values are all `v` has median `v`, in both roundings. */
  lemma MedianOfConstant(w: seq<int>, v: int)
    requires |w| > 0 && forall i :: 0 <= i < |w| ==> w[i] == v
    ensures MedianOf(w) == v as real && MedianU8(w) == v
  {
    SortKeepsUpperBound(w, v);
    SortKeepsLowerBound(w, v);
    MedianBetweenMiddles(w);
  }

  /** Every filter leaves the constant image unchanged: each window holds
      only 128, so each median is 128. */
  lemma ConstantIsFixed(img: seq<int>, ny: nat, nx: nat, hy: nat, hx: nat, k: nat)
    requires |img| == Mul(ny, nx) && k < |img|
    requires forall i :: 0 <= i < |img| ==> img[i] == 128
    ensures MedianAt(img, ny, nx, hy, hx, k) == 128.0
    ensures MedianAtU8(img, ny, nx, hy, hx, k) == 128
  {
    PositiveWidth(k, ny, nx);
    IndexOf(k, ny, nx);
    var y, x := RowOf(k, nx), ColOf(k, nx);
    WindowSize(img, ny, nx, hy, hx, y, x);
    MulMono(Min(y + hy + 1, ny), ny, nx, nx);
    RowsBounded(img, nx, Max(y - hy, 0), Min(y + hy + 1, ny), Max(x - hx, 0), Min(x + hx + 1, nx), 128, 128);
    MedianOfConstant(Window(img, ny, nx, hy, hx, y, x), 128);
  }
}
