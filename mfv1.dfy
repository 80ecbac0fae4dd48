/** `median_filterv1`: for every pixel, copy the clipped window into a
    scratch buffer, sort it and read the median off the middle. */
module MfV1 {
  import opened Grid
  import opened Medians
  import opened WindowBuffer

  /** The output of one pixel: extract its window into `pixels`, sort, and
      take the middle (odd count) or the mean of the two middles. */
  method PixelMedian(input: seq<int>, ny: nat, nx: nat, hy: nat, hx: nat, y: nat, x: nat, pixels: array<int>)
      returns (m: real)
    requires |input| == Mul(ny, nx) && y < ny && x < nx
    requires pixels.Length == Mul(2 * hy + 1, 2 * hx + 1)
    modifies pixels
    ensures Offset(y, x, nx) < |input|
    ensures m == MedianAt(input, ny, nx, hy, hx, Offset(y, x, nx))
  {
    MedianAtCell(input, ny, nx, hy, hx, y, x);
    var len := ExtractWindow(input, ny, nx, hy, hx, y, x, pixels);
    m := SortMedian(pixels, len, Window(input, ny, nx, hy, hx, y, x));
  }

  /** The filter: every output sample `nx*y + x` is the median of the window
      centred on (y, x), and each cell is written exactly once.  `written`
      logs the cells in the order they are written. */
  method MedianFilterV1(input: seq<int>, output: array<real>, ny: nat, nx: nat, hy: nat, hx: nat)
      returns (ghost written: seq<(int, int)>)
    requires |input| == Mul(ny, nx) == output.Length
    modifies output
    ensures forall k :: 0 <= k < output.Length ==> output[k] == MedianAt(input, ny, nx, hy, hx, k)
    ensures ExactlyOnce(written, ny, nx)
  {
    var pixels := new int[Mul(2 * hy + 1, 2 * hx + 1)];
    written := [];
    var y := 0;
    while y < ny
      invariant y <= ny && Mul(y, nx) <= |input|
      invariant forall k :: 0 <= k < Mul(y, nx) ==> output[k] == MedianAt(input, ny, nx, hy, hx, k)
      invariant Distinct(written) && forall c :: c in written <==> RowMajorBefore(c, y, 0, nx)
    {
      MulMono(y + 1, ny, nx, nx);
      written := FilterRow(input, output, ny, nx, hy, hx, y, pixels, written);
      y := y + 1;
    }
  }

  /** The `x` loop of row `y`: writes the row's outputs left to right. */
  method FilterRow(input: seq<int>, output: array<real>, ny: nat, nx: nat, hy: nat, hx: nat, y: nat,
                   pixels: array<int>, ghost written0: seq<(int, int)>)
      returns (ghost written: seq<(int, int)>)
    requires |input| == Mul(ny, nx) == output.Length && y < ny && Mul(y, nx) <= |input|
    requires pixels.Length == Mul(2 * hy + 1, 2 * hx + 1)
    requires forall k :: 0 <= k < Mul(y, nx) ==> output[k] == MedianAt(input, ny, nx, hy, hx, k)
    requires Distinct(written0) && forall c :: c in written0 <==> RowMajorBefore(c, y, 0, nx)
    modifies output, pixels
    ensures Mul(y + 1, nx) <= |input|
    ensures forall k :: 0 <= k < Mul(y + 1, nx) ==> output[k] == MedianAt(input, ny, nx, hy, hx, k)
    ensures Distinct(written) && forall c :: c in written <==> RowMajorBefore(c, y + 1, 0, nx)
  {
    MulMono(y + 1, ny, nx, nx);
    written := written0;
    var x := 0;
    while x < nx
      invariant x <= nx && Mul(y, nx) + x <= |input|
      invariant forall k :: 0 <= k < Mul(y, nx) + x ==> output[k] == MedianAt(input, ny, nx, hy, hx, k)
      invariant Distinct(written) && forall c :: c in written <==> RowMajorBefore(c, y, x, nx)
    {
      var m := PixelMedian(input, ny, nx, hy, hx, y, x, pixels);
      var i := Offset(y, x, nx);
      ghost var before := output[..];
      output[i] := m;
      FilteredStep(input, ny, nx, hy, hx, before, output[..], i);
      RowMajorStep(written, y, x, nx);
      written := written + [(y, x)];
      x := x + 1;
    }
  }
}
