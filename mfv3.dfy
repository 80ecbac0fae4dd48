/** `median_filterv3`: the per-pixel logic of `median_filterv2`, run over a
    fixed tiling of the image into `Sy`-by-`Sx` tiles (the tiles run in
    parallel in the source; here one after another). */
module MfV3 {
  import opened Grid
  import opened Medians
  import MfV2

  /** Tiles per image width and height. */
  const Nx: nat := 8
  const Ny: nat := 4

  /** Cell `c` has been written when the tile loops are at the tile with
      corner (yg, xg) and the pixel loops at (y, x) inside it: every band
      above `yg`, every tile of the band left of `xg`, and the part of the
      current tile before (y, x) in row-major order. */
  ghost predicate TiledBefore(c: (int, int), ny: int, nx: int, sy: int, sx: int, yg: int, xg: int, y: int, x: int) {
    InGrid(c, ny, nx) &&
    (c.0 < yg || (c.0 < yg + sy && c.1 < xg) ||
     (yg <= c.0 && xg <= c.1 < xg + sx && (c.0 < y || (c.0 == y && c.1 < x))))
  }

  /** The filter: the tile sides `Sx = nx/8 + 1` and `Sy = ny/4 + 1` are
      positive, the tiles together write every cell exactly once, and every
      output sample is the median of its window, as `median_filterv2`
      computes it. */
  method MedianFilterV3(input: seq<int>, output: array<real>, ny: nat, nx: nat, hy: nat, hx: nat)
      returns (ghost written: seq<(int, int)>)
    requires |input| == Mul(ny, nx) == output.Length
    modifies output
    ensures forall k :: 0 <= k < output.Length ==> output[k] == MedianAt(input, ny, nx, hy, hx, k)
    ensures ExactlyOnce(written, ny, nx)
  {
    var sx := nx / Nx + 1;
    var sy := ny / Ny + 1;
    written := [];
    var yg := 0;
    while yg < ny
      invariant Logged(input, ny, nx, hy, hx, output[..], written)
      invariant forall c :: c in written <==> TiledBefore(c, ny, nx, sy, sx, yg, 0, yg, 0)
    {
      written := FilterBand(input, output, ny, nx, hy, hx, sy, sx, yg, written);
      yg := yg + sy;
    }
    LoggedAll(input, ny, nx, hy, hx, output[..], written);
  }

  /** The `xg` loop: the tiles of the band of rows `[yg, yg + sy)`. */
  method FilterBand(input: seq<int>, output: array<real>, ny: nat, nx: nat, hy: nat, hx: nat,
                    sy: nat, sx: nat, yg: nat, ghost written0: seq<(int, int)>)
      returns (ghost written: seq<(int, int)>)
    requires sy > 0 && sx > 0 && yg < ny
    requires Logged(input, ny, nx, hy, hx, output[..], written0)
    requires forall c :: c in written0 <==> TiledBefore(c, ny, nx, sy, sx, yg, 0, yg, 0)
    modifies output
    ensures Logged(input, ny, nx, hy, hx, output[..], written)
    ensures forall c :: c in written <==> TiledBefore(c, ny, nx, sy, sx, yg + sy, 0, yg + sy, 0)
  {
    written := written0;
    var xg := 0;
    while xg < nx
      invariant Logged(input, ny, nx, hy, hx, output[..], written)
      invariant forall c :: c in written <==> TiledBefore(c, ny, nx, sy, sx, yg, xg, yg, xg)
    {
      written := FilterTile(input, output, ny, nx, hy, hx, sy, sx, yg, xg, written);
      xg := xg + sx;
    }
  }

  /** One tile: a scratch buffer of `(2hy+1)(2hx+1)` samples of its own, and
      the `y` loop over the tile's rows. */
  method FilterTile(input: seq<int>, output: array<real>, ny: nat, nx: nat, hy: nat, hx: nat,
                    sy: nat, sx: nat, yg: nat, xg: nat, ghost written0: seq<(int, int)>)
      returns (ghost written: seq<(int, int)>)
    requires sy > 0 && sx > 0 && yg < ny && xg < nx
    requires Logged(input, ny, nx, hy, hx, output[..], written0)
    requires forall c :: c in written0 <==> TiledBefore(c, ny, nx, sy, sx, yg, xg, yg, xg)
    modifies output
    ensures Logged(input, ny, nx, hy, hx, output[..], written)
    ensures forall c :: c in written <==> TiledBefore(c, ny, nx, sy, sx, yg, xg + sx, yg, xg + sx)
  {
    var pixels := new int[Mul(2 * hy + 1, 2 * hx + 1)];
    written := written0;
    var y := yg;
    while y - yg < sy && y < ny
      invariant yg <= y <= yg + sy
      invariant Logged(input, ny, nx, hy, hx, output[..], written)
      invariant forall c :: c in written <==> TiledBefore(c, ny, nx, sy, sx, yg, xg, y, xg)
    {
      written := FilterTileRow(input, output, ny, nx, hy, hx, sy, sx, yg, xg, y, pixels, written);
      y := y + 1;
    }
  }

  /** The `x` loop over one row of a tile. */
  method FilterTileRow(input: seq<int>, output: array<real>, ny: nat, nx: nat, hy: nat, hx: nat,
                       sy: nat, sx: nat, yg: nat, xg: nat, y: nat, pixels: array<int>,
                       ghost written0: seq<(int, int)>)
      returns (ghost written: seq<(int, int)>)
    requires sx > 0 && yg <= y < ny && y < yg + sy && xg < nx
    requires pixels.Length == Mul(2 * hy + 1, 2 * hx + 1)
    requires Logged(input, ny, nx, hy, hx, output[..], written0)
    requires forall c :: c in written0 <==> TiledBefore(c, ny, nx, sy, sx, yg, xg, y, xg)
    modifies output, pixels
    ensures Logged(input, ny, nx, hy, hx, output[..], written)
    ensures forall c :: c in written <==> TiledBefore(c, ny, nx, sy, sx, yg, xg, y + 1, xg)
  {
    written := written0;
    var x := xg;
    while x - xg < sx && x < nx
      invariant xg <= x <= xg + sx
      invariant Logged(input, ny, nx, hy, hx, output[..], written)
      invariant forall c :: c in written <==> TiledBefore(c, ny, nx, sy, sx, yg, xg, y, x)
    {
      var m := MfV2.PixelMedian(input, ny, nx, hy, hx, y, x, pixels);
      var i := Offset(y, x, nx);
      ghost var before := output[..];
      output[i] := m;
      LoggedStep(input, ny, nx, hy, hx, before, output[..], written, y, x);
      var next := x + 1;
      TiledStep(written, ny, nx, sy, sx, yg, xg, y, x, next);
      written := written + [(y, x)];
      x := next;
    }
  }

  /** Writing cell `(y, x)` of the tile moves the written set one cell on. */
  lemma TiledStep(written: seq<(int, int)>, ny: int, nx: int, sy: int, sx: int,
                  yg: int, xg: int, y: int, x: int, next: int)
    requires next == x + 1 && 0 <= yg <= y < ny && 0 <= xg && y < yg + sy && xg <= x < xg + sx && x < nx
    requires forall c :: c in written <==> TiledBefore(c, ny, nx, sy, sx, yg, xg, y, x)
    ensures forall c :: c in written + [(y, x)] <==> TiledBefore(c, ny, nx, sy, sx, yg, xg, y, next)
  {
    forall c
      ensures c in written + [(y, x)] <==> TiledBefore(c, ny, nx, sy, sx, yg, xg, y, next)
    {
      assert c in written + [(y, x)] <==> c in written || c == (y, x);
    }
  }
}
