/** `median_filterv4`: the image is cut into blocks; each block is extended
    by the window's half-sizes into a tile, the tile's samples are ranked
    once, and a window slides through the block in a snake (down one
    column, up the next), kept as a bitset over the ranks.  The median is
    read off the bitset by selecting the middle set ranks. */
module MfV4 {
  import opened Sorting
  import opened Grid
  import opened Medians
  import opened BitRank
  import opened RankTable
  import opened RankWindow

  /** `struct Block`: one block `[x0i, x1i] x [y0i, y1i]` of an `ny`-by-`nx`
      image, its tile `[x0b, x1b] x [y0b, y1b]` of `bw * bh` samples (the source's `bx * by`), the
      block in tile coordinates `[x0, x1] x [y0, y1]`, the rank tables and
      the bitset `buff` of `words` words with its split counts: `psum0`
      set bits in the words before `p`, `psum1` from `p` on (the source's
      `psum[0]` and `psum[1]`).  `cells` is the current window, as tile
      indices. */
  class Block {
    const nx: nat
    const ny: nat
    const bw: nat
    const bh: nat
    const hy: nat
    const hx: nat
    const x0b: nat
    const x1b: nat
    const y0b: nat
    const y1b: nat
    const x0i: nat
    const y0i: nat
    const x1i: nat
    const y1i: nat
    const x0: nat
    const y0: nat
    const x1: nat
    const y1: nat
    const words: nat
    var p: nat
    var psum0: int
    var psum1: int
    const sorted: seq<Entry>
    const ranks: seq<int>
    const buff: array<Word>

    /** The image, the tile cut from it and its size. */
    ghost const img: seq<int>
    ghost const tile: seq<int>
    ghost const n: nat
    ghost var cells: set<int>

    /** The extents the constructor derives, and its tables. */
    ghost predicate Shape() {
      BlockShape(img, ny, nx, hy, hx, x0i, x1i, y0i, y1i, x0b, x1b, y0b, y1b, bw, bh,
                 x0, x1, y0, y1, n, words, tile, sorted, ranks)
    }

    /** The bitset holds the window `cells`, and `psum0`, `psum1` count its
        set bits on either side of word `p`. */
    ghost predicate Valid()
      reads this, buff
    {
      Shape() && Counts() && Members(buff[..], sorted, cells)
    }

    /** `psum0` and `psum1` count the set bits before and from word `p`. */
    ghost predicate Counts()
      reads this, buff
    {
      buff.Length == words && p < words &&
      psum0 == PopWords(buff[..], 0, p) && psum1 == PopWords(buff[..], p, words)
    }

    /** The samples of the window, in tile order. */
    ghost function Samples(): seq<int>
      reads this`cells
    {
      Kept(Pairs(tile), cells)
    }

    /** The constructor: the extents, the rank tables of the tile, and an
        empty bitset of `(bw*bh + 63) / 64` words with `p` at its middle. */
    constructor (ny: nat, nx: nat, hy: nat, hx: nat, img: seq<int>, x0i: nat, y0i: nat, x1i: nat, y1i: nat)
      requires |img| == Mul(ny, nx) && x0i <= x1i < nx && y0i <= y1i < ny
      ensures Valid() && cells == {} && fresh(buff)
      ensures p == words / 2 && psum0 == 0 && psum1 == 0
      ensures this.img == img && this.ny == ny && this.nx == nx && this.hy == hy && this.hx == hx
      ensures this.x0i == x0i && this.y0i == y0i && this.x1i == x1i && this.y1i == y1i
    {
      var x0b, x1b, bw, x0, x1, y0b, y1b, bh, y0, y1, size, words, sorted, ranks;
      ghost var tile;
      x0b, x1b, bw, x0, x1, y0b, y1b, bh, y0, y1, size, words, sorted, ranks, tile :=
        Layout(ny, nx, hy, hx, img, x0i, y0i, x1i, y1i);
      this.nx, this.ny, this.hy, this.hx := nx, ny, hy, hx;
      this.x0i, this.y0i, this.x1i, this.y1i := x0i, y0i, x1i, y1i;
      this.x0b, this.y0b, this.x1b, this.y1b := x0b, y0b, x1b, y1b;
      this.x0, this.y0, this.x1, this.y1 := x0, y0, x1, y1;
      this.bw, this.bh := bw, bh;
      this.sorted, this.ranks, this.words := sorted, ranks, words;
      this.img, this.tile, this.n := img, tile, size;
      this.psum0, this.psum1 := 0, 0;
      this.p := words / 2;
      this.buff := new Word[words](_ => Zero());
      this.cells := {};
      new;
      ZeroMembers(buff[..], sorted, p);
    }

    /** `add_rank(ix, jy)`: a cell outside the tile is ignored; a cell of the
        tile, not in the window, joins it: its rank's bit is toggled on and
        the count of its side of `p` goes up by one. */
    method AddRank(ix: int, jy: int)
      requires Valid() && cells !! Box(bw, n, ix, ix, jy, jy)
      modifies buff, this`psum0, this`psum1, this`cells
      ensures Valid() && cells == old(cells) + Box(bw, n, ix, ix, jy, jy)
    {
      if ix < 0 || ix >= bw || jy < 0 || jy >= bh {
        BoxOutside(bw, bh, n, ix, ix, jy, jy);
        return;
      }
      BoxCell(bw, bh, n, ix, jy);
      var k := Mul(jy, bw) + ix;
      var rank := ranks[k];
      ghost var s := buff[..];
      MembersFlip(s, sorted, ranks, tile, cells, k, true);
      ToggleSplit(s, rank, p, true);
      ghost var after := Toggle(s, rank);
      var i := WordOf(rank);
      buff[i] := Flip(buff[i], BitOf(rank));
      assert buff[..] == after;
      cells := cells + {k};
      if i >= p {
        psum1 := psum1 + 1;
      } else {
        psum0 := psum0 + 1;
      }
    }

    /** `remove_rank(ix, jy)`: a cell outside the tile is ignored; a cell of
        the window leaves it: its rank's bit is toggled off and the count of
        its side of `p` goes down by one. */
    method RemoveRank(ix: int, jy: int)
      requires Valid() && Box(bw, n, ix, ix, jy, jy) <= cells
      modifies buff, this`psum0, this`psum1, this`cells
      ensures Valid() && cells == old(cells) - Box(bw, n, ix, ix, jy, jy)
    {
      if ix < 0 || ix >= bw || jy < 0 || jy >= bh {
        BoxOutside(bw, bh, n, ix, ix, jy, jy);
        return;
      }
      BoxCell(bw, bh, n, ix, jy);
      var k := Mul(jy, bw) + ix;
      var rank := ranks[k];
      ghost var s := buff[..];
      MembersFlip(s, sorted, ranks, tile, cells, k, false);
      ToggleSplit(s, rank, p, false);
      ghost var after := Toggle(s, rank);
      var i := WordOf(rank);
      buff[i] := Flip(buff[i], BitOf(rank));
      assert buff[..] == after;
      cells := cells - {k};
      if i >= p {
        psum1 := psum1 - 1;
      } else {
        psum0 := psum0 - 1;
      }
    }

    /** The column loops of `compute_median`: `add_rank(c, jy)` for `jy`
        from `ya` to `yb`.  The column's cells inside the tile join the
        window, which grows from columns `[xa, c)` to `[xa, c]`. */
    method AddColumn(c: int, ya: int, yb: int, ghost xa: int)
      requires Valid() && xa <= c && ya <= yb + 1 && cells == Box(bw, n, xa, c - 1, ya, yb)
      modifies buff, this`psum0, this`psum1, this`cells
      ensures Valid() && cells == Box(bw, n, xa, c, ya, yb)
    {
      BoxSplitCols(bw, n, xa, c, c, ya, yb);
      var jy := ya;
      while jy <= yb
        invariant ya <= jy <= yb + 1
        invariant Valid() && cells == old(cells) + Box(bw, n, c, c, ya, jy - 1)
      {
        BoxSplitRows(bw, n, c, c, ya, jy, jy);
        BoxSplitRows(bw, n, c, c, jy, jy + 1, yb);
        BoxSplitRows(bw, n, c, c, ya, jy, yb);
        AddRank(c, jy);
        jy := jy + 1;
      }
    }

    /** The column loops of `compute_median`: `remove_rank(c, jy)` for `jy`
        from `ya` to `yb`.  The column's cells inside the tile leave the
        window, which shrinks from columns `[c, xb]` to `(c, xb]`. */
    method RemoveColumn(c: int, ya: int, yb: int, ghost xb: int)
      requires Valid() && c <= xb && ya <= yb + 1 && cells == Box(bw, n, c, xb, ya, yb)
      modifies buff, this`psum0, this`psum1, this`cells
      ensures Valid() && cells == Box(bw, n, c + 1, xb, ya, yb)
    {
      BoxSplitCols(bw, n, c, c + 1, xb, ya, yb);
      var jy := ya;
      while jy <= yb
        invariant ya <= jy <= yb + 1
        invariant Valid() && cells == old(cells) - Box(bw, n, c, c, ya, jy - 1)
      {
        BoxSplitRows(bw, n, c, c, ya, jy, jy);
        BoxSplitRows(bw, n, c, c, jy, jy + 1, yb);
        BoxSplitRows(bw, n, c, c, ya, jy, yb);
        RemoveRank(c, jy);
        jy := jy + 1;
      }
    }

    /** The row loops of `compute_median`: `add_rank(x + ix, r)` for `ix`
        from `-hx` to `hx`.  The row's cells inside the tile join the
        window. */
    method AddRow(x: int, ghost xa: int, ghost xb: int, r: int)
      requires Valid() && xa == x - hx && xb == x + hx && cells !! Box(bw, n, xa, xb, r, r)
      modifies buff, this`psum0, this`psum1, this`cells
      ensures Valid() && cells == old(cells) + Box(bw, n, xa, xb, r, r)
    {
      var ix := -(hx as int);
      while ix <= hx
        invariant -(hx as int) <= ix <= hx + 1
        invariant Valid() && cells == old(cells) + Box(bw, n, x - hx, x + ix - 1, r, r)
      {
        BoxSplitCols(bw, n, x - hx, x + ix, x + ix, r, r);
        BoxSplitCols(bw, n, x + ix, x + ix + 1, x + hx, r, r);
        BoxSplitCols(bw, n, x - hx, x + ix, x + hx, r, r);
        AddRank(x + ix, r);
        ix := ix + 1;
      }
    }

    /** The row loops of `compute_median`: `remove_rank(x + ix, r)` for `ix`
        from `-hx` to `hx`.  The row's cells inside the tile leave the
        window. */
    method RemoveRow(x: int, ghost xa: int, ghost xb: int, r: int)
      requires Valid() && xa == x - hx && xb == x + hx && Box(bw, n, xa, xb, r, r) <= cells
      modifies buff, this`psum0, this`psum1, this`cells
      ensures Valid() && cells == old(cells) - Box(bw, n, xa, xb, r, r)
    {
      var ix := -(hx as int);
      while ix <= hx
        invariant -(hx as int) <= ix <= hx + 1
        invariant Valid() && cells == old(cells) - Box(bw, n, x - hx, x + ix - 1, r, r)
      {
        BoxSplitCols(bw, n, x - hx, x + ix, x + ix, r, r);
        BoxSplitCols(bw, n, x + ix, x + ix + 1, x + hx, r, r);
        BoxSplitCols(bw, n, x - hx, x + ix, x + hx, r, r);
        RemoveRank(x + ix, r);
        ix := ix + 1;
      }
    }

    /** One step of the downward pass of `compute_median`: the top row
        `y - hy` leaves the window unless it lies above the tile, then the
        row below the window, `y + 1 + hy`, joins it unless it lies below
        the image.  The window of (x, y) becomes the window of (x, y + 1). */
    method StepDown(x: int, y: int, ghost xa: int, ghost xb: int, ghost ya: int, ghost yb: int)
      requires Valid() && xa == x - hx && xb == x + hx && ya == y - hy && yb == y + hy
      requires cells == Box(bw, n, xa, xb, ya, yb)
      modifies buff, this`psum0, this`psum1, this`cells
      ensures Valid() && cells == Box(bw, n, xa, xb, ya + 1, yb + 1)
    {
      BoxSplitRows(bw, n, xa, xb, ya, ya + 1, yb);
      if y - hy >= 0 {
        RemoveRow(x, xa, xb, y - hy);
      } else {
        BoxOutside(bw, bh, n, xa, xb, ya, ya);
      }
      BoxSplitRows(bw, n, xa, xb, ya + 1, yb + 1, yb + 1);
      if y + 1 + hy < ny {
        AddRow(x, xa, xb, y + 1 + hy);
      } else {
        BoxOutside(bw, bh, n, xa, xb, yb + 1, yb + 1);
      }
    }

    /** One step of the upward pass: the bottom row `y + hy` leaves the
        window unless it lies below the image, then the row above the
        window, `y - 1 - hy`, joins it unless it lies above the tile.  The
        window of (x, y) becomes the window of (x, y - 1). */
    method StepUp(x: int, y: int, ghost xa: int, ghost xb: int, ghost ya: int, ghost yb: int)
      requires Valid() && xa == x - hx && xb == x + hx && ya == y - hy && yb == y + hy
      requires cells == Box(bw, n, xa, xb, ya, yb)
      modifies buff, this`psum0, this`psum1, this`cells
      ensures Valid() && cells == Box(bw, n, xa, xb, ya - 1, yb - 1)
    {
      BoxSplitRows(bw, n, xa, xb, ya, yb, yb);
      if y + hy < ny {
        RemoveRow(x, xa, xb, y + hy);
      } else {
        BoxOutside(bw, bh, n, xa, xb, yb, yb);
      }
      BoxSplitRows(bw, n, xa, xb, ya - 1, ya, yb - 1);
      if y - 1 - hy >= 0 {
        AddRow(x, xa, xb, y - 1 - hy);
      } else {
        BoxOutside(bw, bh, n, xa, xb, ya - 1, ya - 1);
      }
    }

    /** No cell of the block `[x0i, x1i] x [y0i, y1i]` is in the log `w0`. */
    ghost predicate Fresh(w0: seq<(int, int)>) {
      forall c :: c in w0 ==> !InRect(c, y0i, y1i + 1, x0i, x1i + 1)
    }

    /** The log `written` holds the cells of `w0`, the block's image columns
        `[x0i, X)`, and rows `[c0, c1)` of image column `X`. */
    ghost predicate Covers(written: seq<(int, int)>, w0: seq<(int, int)>, X: int, c0: int, c1: int) {
      forall c :: c in written <==> c in w0 || InRect(c, y0i, y1i + 1, x0i, X) || InRect(c, c0, c1, X, X + 1)
    }

    /** Before the block, the log is `w0`: no column and no row of the block
        is in it yet. */
    lemma CoversStart(w0: seq<(int, int)>)
      ensures Covers(w0, w0, x0i, y0i, y0i)
    {
    }

    /** A cell of the block outside the columns and rows `Covers` names is
        not in the log. */
    lemma CoversFresh(written: seq<(int, int)>, w0: seq<(int, int)>, X: int, c0: int, c1: int, Y: int)
      requires Fresh(w0) && Covers(written, w0, X, c0, c1)
      requires y0i <= Y <= y1i && x0i <= X <= x1i && !(c0 <= Y < c1)
      ensures (Y, X) !in written
    {
      assert !InRect((Y, X), y0i, y1i + 1, x0i, x1i + 1) ==> (Y, X) !in w0;
    }

    /** Logging the cell below the rows of column `X` logged so far. */
    lemma CoversDown(written: seq<(int, int)>, w0: seq<(int, int)>, X: int, c0: int, Y: int)
      requires Covers(written, w0, X, c0, Y) && c0 <= Y
      ensures Covers(written + [(Y, X)], w0, X, c0, Y + 1)
    {
      forall c ensures c in written + [(Y, X)] <==> c in w0 || InRect(c, y0i, y1i + 1, x0i, X) || InRect(c, c0, Y + 1, X, X + 1) {
        assert InRect(c, c0, Y + 1, X, X + 1) <==> InRect(c, c0, Y, X, X + 1) || c == (Y, X);
      }
    }

    /** Logging the cell above the rows of column `X` logged so far. */
    lemma CoversUp(written: seq<(int, int)>, w0: seq<(int, int)>, X: int, Y: int, c1: int)
      requires Covers(written, w0, X, Y + 1, c1) && Y < c1
      ensures Covers(written + [(Y, X)], w0, X, Y, c1)
    {
      forall c ensures c in written + [(Y, X)] <==> c in w0 || InRect(c, y0i, y1i + 1, x0i, X) || InRect(c, Y, c1, X, X + 1) {
        assert InRect(c, Y, c1, X, X + 1) <==> InRect(c, Y + 1, c1, X, X + 1) || c == (Y, X);
      }
    }

    /** Once every row of column `X` is logged, the columns `[x0i, X + 1)`
        are, and no row of the next column is. */
    lemma CoversNext(written: seq<(int, int)>, w0: seq<(int, int)>, X: int, k: int)
      requires Covers(written, w0, X, y0i, y1i + 1) && x0i <= X
      ensures Covers(written, w0, X + 1, k, k)
    {
      forall c ensures c in written <==> c in w0 || InRect(c, y0i, y1i + 1, x0i, X + 1) || InRect(c, k, k, X + 1, X + 2) {
        assert InRect(c, y0i, y1i + 1, x0i, X + 1) <==> InRect(c, y0i, y1i + 1, x0i, X) || InRect(c, y0i, y1i + 1, X, X + 1);
      }
    }

    /** The downward pass of `compute_median` over local column `x`: from
        `y0` to `y1`, the median of each window is written, then the window
        slides one row down; the median at `y1` is written last.  Every
        cell of image column `X` in the block joins the log, top to
        bottom. */
    method DownPass(x: int, X: int, ghost xa: int, ghost xb: int,
                    ghost ya: int, ghost yb: int, ghost ya1: int, ghost yb1: int,
                    out: array<real>, ghost o: seq<real>, ghost w0: seq<(int, int)>, ghost wb: seq<(int, int)>)
        returns (ghost written: seq<(int, int)>)
      requires Valid() && x0 <= x <= x1 && X == x + x0b && xa == x - hx && xb == x + hx
      requires ya == y0 - hy && yb == y0 + hy && ya1 == y1 - hy && yb1 == y1 + hy
      requires cells == Box(bw, n, xa, xb, ya, yb)
      requires Logged(img, ny, nx, hy, hx, out[..], wb) && Fresh(w0) && Covers(wb, w0, X, y0i, y0i)
      requires ChangedOnly(out[..], o, w0, wb, nx)
      modifies buff, this`p, this`psum0, this`psum1, this`cells, out
      ensures Valid() && cells == Box(bw, n, xa, xb, ya1, yb1)
      ensures Logged(img, ny, nx, hy, hx, out[..], written) && Covers(written, w0, X, y0i, y1i + 1)
      ensures ChangedOnly(out[..], o, w0, written, nx)
    {
      AxisClip(ny, hy, y0i, y1i, y0b, y1b, bh, y0, y1, y0);
      AxisClip(nx, hx, x0i, x1i, x0b, x1b, bw, x0, x1, x);
      var y, Y := y0, y0i;
      ghost var yc, yd := ya, yb;
      written := wb;
      while y < y1
        invariant y0 <= y <= y1 && Y == y + y0b && yc == y - hy && yd == y + hy
        invariant Valid() && cells == Box(bw, n, xa, xb, yc, yd)
        invariant Logged(img, ny, nx, hy, hx, out[..], written) && Covers(written, w0, X, y0i, Y)
        invariant ChangedOnly(out[..], o, w0, written, nx)
      {
        CoversFresh(written, w0, X, y0i, Y, Y);
        CoversDown(written, w0, X, y0i, Y);
        ghost var mid, w := out[..], written;
        written := Emit(x, y, X, Y, xa, xb, yc, yd, out, written);
        ChangedCompose(out[..], mid, o, w0, w, written, nx);
        StepDown(x, y, xa, xb, yc, yd);
        y, Y := y + 1, Y + 1;
        yc, yd := yc + 1, yd + 1;
      }
      CoversFresh(written, w0, X, y0i, Y, Y);
      CoversDown(written, w0, X, y0i, Y);
      ghost var mid, w := out[..], written;
      written := Emit(x, y, X, Y, xa, xb, yc, yd, out, written);
      ChangedCompose(out[..], mid, o, w0, w, written, nx);
    }

    /** The upward pass over local column `x`: from `y1` to `y0`, the median
        of each window is written, then the window slides one row up; the
        median at `y0` is written last.  Every cell of image column `X` in
        the block joins the log, bottom to top. */
    method UpPass(x: int, X: int, ghost xa: int, ghost xb: int,
                  ghost ya: int, ghost yb: int, ghost ya1: int, ghost yb1: int,
                  out: array<real>, ghost o: seq<real>, ghost w0: seq<(int, int)>, ghost wb: seq<(int, int)>)
        returns (ghost written: seq<(int, int)>)
      requires Valid() && x0 <= x <= x1 && X == x + x0b && xa == x - hx && xb == x + hx
      requires ya == y0 - hy && yb == y0 + hy && ya1 == y1 - hy && yb1 == y1 + hy
      requires cells == Box(bw, n, xa, xb, ya1, yb1)
      requires Logged(img, ny, nx, hy, hx, out[..], wb) && Fresh(w0) && Covers(wb, w0, X, y1i + 1, y1i + 1)
      requires ChangedOnly(out[..], o, w0, wb, nx)
      modifies buff, this`p, this`psum0, this`psum1, this`cells, out
      ensures Valid() && cells == Box(bw, n, xa, xb, ya, yb)
      ensures Logged(img, ny, nx, hy, hx, out[..], written) && Covers(written, w0, X, y0i, y1i + 1)
      ensures ChangedOnly(out[..], o, w0, written, nx)
    {
      AxisClip(ny, hy, y0i, y1i, y0b, y1b, bh, y0, y1, y1);
      AxisClip(nx, hx, x0i, x1i, x0b, x1b, bw, x0, x1, x);
      var y, Y := y1, y1i;
      ghost var yc, yd := ya1, yb1;
      written := wb;
      while y > y0
        invariant y0 <= y <= y1 && Y == y + y0b && yc == y - hy && yd == y + hy
        invariant Valid() && cells == Box(bw, n, xa, xb, yc, yd)
        invariant Logged(img, ny, nx, hy, hx, out[..], written) && Covers(written, w0, X, Y + 1, y1i + 1)
        invariant ChangedOnly(out[..], o, w0, written, nx)
      {
        CoversFresh(written, w0, X, Y + 1, y1i + 1, Y);
        CoversUp(written, w0, X, Y, y1i + 1);
        ghost var mid, w := out[..], written;
        written := Emit(x, y, X, Y, xa, xb, yc, yd, out, written);
        ChangedCompose(out[..], mid, o, w0, w, written, nx);
        StepUp(x, y, xa, xb, yc, yd);
        y, Y := y - 1, Y - 1;
        yc, yd := yc - 1, yd - 1;
      }
      CoversFresh(written, w0, X, Y + 1, y1i + 1, Y);
      CoversUp(written, w0, X, Y, y1i + 1);
      ghost var mid, w := out[..], written;
      written := Emit(x, y, X, Y, xa, xb, yc, yd, out, written);
      ChangedCompose(out[..], mid, o, w0, w, written, nx);
    }

    /** The first loops of `compute_median`: `add_rank(ix, jy)` for the
        columns `ix` from `x0 - hx` to `x0 + hx - 1` of rows `ya` to `yb`.
        As `x0 <= hx`, column `x0 - 1 - hx` lies left of the tile, so this
        is the window `[xa, xb]` of local column `x0 - 1`. */
    method FillWindow(ya: int, yb: int, ghost xa: int, ghost xb: int)
      requires Valid() && cells == {} && ya <= yb + 1 && xa == x0 - 1 - hx && xb == x0 - 1 + hx
      modifies buff, this`psum0, this`psum1, this`cells
      ensures Valid() && cells == Box(bw, n, xa, xb, ya, yb)
    {
      AxisClip(nx, hx, x0i, x1i, x0b, x1b, bw, x0, x1, x0);
      BoxOutside(bw, bh, n, xa + 1, xa, ya, yb);
      var ix := x0 - hx;
      while ix < x0 + hx
        invariant xa + 1 <= ix <= x0 + hx
        invariant Valid() && cells == Box(bw, n, xa + 1, ix - 1, ya, yb)
      {
        AddColumn(ix, ya, yb, xa + 1);
        ix := ix + 1;
      }
      BoxSplitCols(bw, n, xa, xa + 1, xb, ya, yb);
      BoxOutside(bw, bh, n, xa, xa, ya, yb);
    }

    /** `compute_median(out)`: the window of local cell (x0 - 1, y0) less
        its empty left column is filled, then the window snakes through the
        block: it steps one column right (left column out, right column in),
        runs down that column, steps right again and runs up the next, and
        so on until it passes `x1`.  Every cell of the block is written with
        its expected median, and logged, exactly once. */
    method ComputeMedian(out: array<real>, ghost w0: seq<(int, int)>) returns (ghost written: seq<(int, int)>)
      requires Valid() && cells == {}
      requires Logged(img, ny, nx, hy, hx, out[..], w0) && Fresh(w0)
      modifies buff, this`p, this`psum0, this`psum1, this`cells, out
      ensures Logged(img, ny, nx, hy, hx, out[..], written)
      ensures forall c :: c in written <==> c in w0 || InRect(c, y0i, y1i + 1, x0i, x1i + 1)
      ensures forall k :: 0 <= k < out.Length && !InRect(CellAt(k, nx), y0i, y1i + 1, x0i, x1i + 1) ==>
                out[k] == old(out[k])
    {
      var ya, yb, ya1, yb1 := y0 - hy, y0 + hy, y1 - hy, y1 + hy;
      var x, X := x0 - 1, x0i - 1;
      ghost var xa, xb := x - hx, x + hx;
      FillWindow(ya, yb, xa, xb);
      written := w0;
      CoversStart(w0);
      while x <= x1
        invariant x0 - 1 <= x <= x1 && X == x + x0b && xa == x - hx && xb == x + hx
        invariant Valid() && cells == Box(bw, n, xa, xb, ya, yb)
        invariant Logged(img, ny, nx, hy, hx, out[..], written) && Covers(written, w0, X + 1, y0i, y0i)
        invariant ChangedOnly(out[..], old(out[..]), w0, written, nx)
        decreases x1 - x
      {
        RemoveColumn(x - hx, ya, yb, xb);
        x, X := x + 1, X + 1;
        xa, xb := xa + 1, xb + 1;
        if x > x1 {
          break;
        }
        AddColumn(x + hx, ya, yb, xa);
        written := DownPass(x, X, xa, xb, ya, yb, ya1, yb1, out, old(out[..]), w0, written);
        CoversNext(written, w0, X, y1i + 1);

        RemoveColumn(x - hx, ya1, yb1, xb);
        x, X := x + 1, X + 1;
        xa, xb := xa + 1, xb + 1;
        if x > x1 {
          break;
        }
        AddColumn(x + hx, ya1, yb1, xa);
        written := UpPass(x, X, xa, xb, ya, yb, ya1, yb1, out, old(out[..]), w0, written);
        CoversNext(written, w0, X, y0i);
      }
    }

    /** `search(target)`: the set rank with exactly `target` set ranks below
        it.  Once `p` is at the word holding it, it is the set bit of word
        `p` with `target - psum0` set bits below it. */
    method Search(target: nat) returns (r: nat)
      requires Valid() && target < psum0 + psum1
      modifies this`p, this`psum0, this`psum1
      ensures Valid() && psum0 + psum1 == old(psum0 + psum1)
      ensures r < 64 * buff.Length && IsSet(buff[..], r) && r < n
      ensures Count(buff[..], r) == target
    {
      ghost var s := buff[..];
      assert |sorted| == n && Members(s, sorted, cells);
      Locate(target);
      assert buff[..] == s;
      var bitpos := SelectBit(buff[p], target - psum0);
      // `(p << 6) | bitpos` with `bitpos < 64`
      r := 64 * p + bitpos;
      SelectedRank(s, p, bitpos, r, target - psum0);
    }

    /** The two loops of `search` that localize the target chunk: move `p`
        down while the words before it hold more than `target` set bits,
        then up while they and word `p` hold at most `target`.  Word `p`
        then holds the set bit with `target` set bits below it. */
    method Locate(target: nat)
      requires Counts() && target < psum0 + psum1
      modifies this`p, this`psum0, this`psum1
      ensures Counts() && psum0 + psum1 == old(psum0 + psum1)
      ensures psum0 <= target < psum0 + Pop(buff[p], 64)
    {
      ghost var s := buff[..];
      PopWordsSplit(s, 0, p, words);
      while psum0 > target
        invariant p < words && psum0 == PopWords(s, 0, p) && psum1 == PopWords(s, p, words)
        invariant psum0 + psum1 == PopWords(s, 0, words)
        decreases p
      {
        var q := p - 1;
        PopWordsSplit(s, q, p, words);
        p := q;
        psum0 := psum0 - Pop(buff[p], 64);
        psum1 := psum1 + Pop(buff[p], 64);
      }
      while psum0 + Pop(buff[p], 64) <= target
        invariant p < words && psum0 == PopWords(s, 0, p) && psum1 == PopWords(s, p, words)
        invariant psum0 <= target && psum0 + psum1 == PopWords(s, 0, words)
        decreases words - p
      {
        var q := p + 1;
        PopWordsSplit(s, p, q, words);
        PopWordsSplit(s, 0, q, words);
        psum0 := psum0 + Pop(buff[p], 64);
        psum1 := psum1 - Pop(buff[p], 64);
        p := q;
      }
    }

    /** `get_median`: with `sum` ranks set, the sample of the set rank with
        `(sum - 1) / 2` set ranks below it when `sum` is odd, and its mean
        with the next one when `sum` is even: the median of the window. */
    method GetMedian() returns (m: real)
      requires Valid() && |Samples()| > 0
      modifies this`p, this`psum0, this`psum1
      ensures Valid() && m == MedianOf(Samples())
    {
      ghost var s := buff[..];
      ghost var total := PopWords(s, 0, |s|);
      assert |sorted| == n && Members(s, sorted, cells);
      assert psum0 + psum1 == total by {
        PopWordsSplit(s, 0, p, words);
      }
      WindowCount(s, sorted, tile, cells);
      var sum := psum0 + psum1;
      var t1 := (sum - 1) / 2;
      var i1 := Search(t1);
      assert buff[..] == s;
      if sum % 2 == 1 {
        assert t1 == sum / 2;
        MedianFromRanks(s, sorted, tile, cells, i1, i1);
        m := sorted[i1].0 as real;
      } else {
        var t2 := sum / 2;
        var i2 := Search(t2);
        assert buff[..] == s;
        MedianFromRanks(s, sorted, tile, cells, i1, i2);
        m := Mean(sorted[i1].0, sorted[i2].0);
      }
    }

    /** The window the snake keeps at local cell (x, y) of the block: its
        box of the tile keeps the samples of the image's clipped window at
        (y + y0b, x + x0b), so their median is that cell's expected median. */
    lemma WindowAt(x: int, y: int, X: int, Y: int, xa: int, xb: int, ya: int, yb: int)
      requires Shape() && x0 <= x <= x1 && y0 <= y <= y1 && X == x + x0b && Y == y + y0b
      requires xa == x - hx && xb == x + hx && ya == y - hy && yb == y + hy
      ensures 0 <= Y < ny && 0 <= X < nx && Offset(Y, X, nx) < |img|
      ensures |Kept(Pairs(tile), Box(bw, n, xa, xb, ya, yb))| > 0
      ensures MedianOf(Kept(Pairs(tile), Box(bw, n, xa, xb, ya, yb))) ==
              MedianAt(img, ny, nx, hy, hx, Offset(Y, X, nx))
    {
      TileWindow(img, ny, nx, hy, hx, x0i, x1i, y0i, y1i, x0b, x1b, y0b, y1b, bw, bh,
                 x0, x1, y0, y1, tile, x, y, X, Y, xa, xb, ya, yb);
    }

    /** `out[(x + x0b) + nx * (y + y0b)] = get_median()`: with the window
        `[xa, xb] x [ya, yb]` around local cell (x, y) held, the median
        written is the expected median of image cell (Y, X) =
        (y + y0b, x + x0b), which joins the write log. */
    method Emit(x: int, y: int, X: int, Y: int, ghost xa: int, ghost xb: int, ghost ya: int, ghost yb: int,
                out: array<real>, ghost w0: seq<(int, int)>) returns (ghost written: seq<(int, int)>)
      requires Valid() && x0 <= x <= x1 && y0 <= y <= y1 && X == x + x0b && Y == y + y0b
      requires xa == x - hx && xb == x + hx && ya == y - hy && yb == y + hy
      requires cells == Box(bw, n, xa, xb, ya, yb)
      requires Logged(img, ny, nx, hy, hx, out[..], w0) && (Y, X) !in w0
      modifies this`p, this`psum0, this`psum1, out
      ensures Valid() && Logged(img, ny, nx, hy, hx, out[..], written)
      ensures written == w0 + [(Y, X)]
      ensures ChangedOnly(out[..], old(out[..]), w0, written, nx)
    {
      WindowAt(x, y, X, Y, xa, xb, ya, yb);
      var m := GetMedian();
      ghost var before := out[..];
      out[Offset(Y, X, nx)] := m;
      LoggedStep(img, ny, nx, hy, hx, before, out[..], w0, Y, X);
      ChangedOne(out[..], before, Y, X, nx, m, w0);
      written := w0 + [(Y, X)];
    }
  }

  /** The extents of a block of an `ny`-by-`nx` image along both axes, the
      tile of `n` samples cut from the image and its rank tables, and the
      `words` 64-bit words that hold a bit per rank. */
  ghost predicate BlockShape(img: seq<int>, ny: nat, nx: nat, hy: nat, hx: nat,
                             x0i: nat, x1i: nat, y0i: nat, y1i: nat, x0b: nat, x1b: nat, y0b: nat, y1b: nat,
                             bw: nat, bh: nat, x0: nat, x1: nat, y0: nat, y1: nat, n: nat, words: nat,
                             tile: seq<int>, sorted: seq<Entry>, ranks: seq<int>) {
    Axis(nx, hx, x0i, x1i, x0b, x1b, bw, x0, x1) &&
    Axis(ny, hy, y0i, y1i, y0b, y1b, bh, y0, y1) &&
    n == Mul(bh, bw) && |tile| == n && n <= 64 * words < n + 64 &&
    |img| == Mul(ny, nx) && x0b + bw <= nx && Mul(y0b + bh, nx) <= |img| &&
    tile == Rows(img, nx, y0b, y0b + bh, x0b, x0b + bw) &&
    Tables(sorted, ranks, tile)
  }

  /** The part of the constructor that derives the extents of both axes,
      the rank tables of the tile and the number of bitset words. */
  method Layout(ny: nat, nx: nat, hy: nat, hx: nat, img: seq<int>, x0i: nat, y0i: nat, x1i: nat, y1i: nat)
      returns (x0b: nat, x1b: nat, bw: nat, x0: nat, x1: nat, y0b: nat, y1b: nat, bh: nat, y0: nat, y1: nat,
               size: nat, words: nat, sorted: seq<Entry>, ranks: seq<int>, ghost tile: seq<int>)
    requires |img| == Mul(ny, nx) && x0i <= x1i < nx && y0i <= y1i < ny
    ensures BlockShape(img, ny, nx, hy, hx, x0i, x1i, y0i, y1i, x0b, x1b, y0b, y1b, bw, bh,
                       x0, x1, y0, y1, size, words, tile, sorted, ranks)
  {
    x0b, x1b, bw, x0, x1 := Extent(nx, hx, x0i, x1i);
    y0b, y1b, bh, y0, y1 := Extent(ny, hy, y0i, y1i);
    MulMono(y0b + bh, ny, nx, nx);
    sorted, ranks := BuildTables(img, nx, y0b, x0b, bw, bh);
    size := Mul(bh, bw);
    words := WordsFor(size);
    tile := Rows(img, nx, y0b, y0b + bh, x0b, x0b + bw);
    RowsLength(img, nx, y0b, y0b + bh, x0b, x0b + bw);
  }

  /** The samples a tile keeps of the box `[xa, xb] x [ya, yb]` around local
      cell (x, y) are the image's clipped window at (Y, X) = (y + y0b, x + x0b):
      the box, clipped to the tile, is the window clipped to the image, so
      their medians agree. */
  lemma TileWindow(img: seq<int>, ny: nat, nx: nat, hy: nat, hx: nat,
                   x0i: nat, x1i: nat, y0i: nat, y1i: nat, x0b: nat, x1b: nat, y0b: nat, y1b: nat,
                   bw: nat, bh: nat, x0: nat, x1: nat, y0: nat, y1: nat, tile: seq<int>,
                   x: int, y: int, X: int, Y: int, xa: int, xb: int, ya: int, yb: int)
    requires Axis(nx, hx, x0i, x1i, x0b, x1b, bw, x0, x1) && Axis(ny, hy, y0i, y1i, y0b, y1b, bh, y0, y1)
    requires |img| == Mul(ny, nx) && Mul(y0b + bh, nx) <= |img|
    requires tile == Rows(img, nx, y0b, y0b + bh, x0b, x0b + bw)
    requires x0 <= x <= x1 && y0 <= y <= y1 && X == x + x0b && Y == y + y0b
    requires xa == x - hx && xb == x + hx && ya == y - hy && yb == y + hy
    ensures 0 <= Y < ny && 0 <= X < nx && Offset(Y, X, nx) < |img|
    ensures |Kept(Pairs(tile), Box(bw, |tile|, xa, xb, ya, yb))| > 0
    ensures MedianOf(Kept(Pairs(tile), Box(bw, |tile|, xa, xb, ya, yb))) ==
            MedianAt(img, ny, nx, hy, hx, Offset(Y, X, nx))
  {
    var r0, r1, c0, c1, R0, R1, C0, C1 :=
      ClipWindow(|img|, ny, nx, hy, hx, x0i, x1i, y0i, y1i, x0b, x1b, y0b, y1b, bw, bh, x0, x1, y0, y1, x, y, X, Y);
    AxisWindow(img, ny, nx, hy, hx, Y, X, R0, R1, C0, C1);
    TileKept(img, nx, y0b, x0b, bw, bh, tile, xa, xb, ya, yb, r0, r1, c0, c1, R0, R1, C0, C1);
  }

  /** The bounds of the box around local cell (x, y) clipped to the tile,
      `[r0, r1) x [c0, c1)`, shifted by the tile's corner, are the bounds of
      the window at (Y, X) clipped to the image, `[R0, R1) x [C0, C1)`. */
  lemma ClipWindow(len: nat, ny: nat, nx: nat, hy: nat, hx: nat,
                   x0i: nat, x1i: nat, y0i: nat, y1i: nat, x0b: nat, x1b: nat, y0b: nat, y1b: nat,
                   bw: nat, bh: nat, x0: nat, x1: nat, y0: nat, y1: nat, x: int, y: int, X: int, Y: int)
    returns (r0: nat, r1: nat, c0: nat, c1: nat, R0: nat, R1: nat, C0: nat, C1: nat)
    requires Axis(nx, hx, x0i, x1i, x0b, x1b, bw, x0, x1) && Axis(ny, hy, y0i, y1i, y0b, y1b, bh, y0, y1)
    requires len == Mul(ny, nx) && Mul(y0b + bh, nx) <= len
    requires x0 <= x <= x1 && y0 <= y <= y1 && X == x + x0b && Y == y + y0b
    ensures 0 <= Y < ny && 0 <= X < nx && bw > 0 && x0b + bw <= nx
    ensures r0 == Max(y - hy, 0) && r1 == Min(y + hy + 1, bh) && r0 <= r1
    ensures c0 == Max(x - hx, 0) && c1 == Min(x + hx + 1, bw) && c0 <= c1
    ensures R0 == y0b + r0 == Max(Y - hy, 0) && R1 == y0b + r1 == Min(Y + hy + 1, ny)
    ensures C0 == x0b + c0 == Max(X - hx, 0) && C1 == x0b + c1 == Min(X + hx + 1, nx)
    ensures Mul(R1, nx) <= len
  {
    AxisClip(nx, hx, x0i, x1i, x0b, x1b, bw, x0, x1, x);
    AxisClip(ny, hy, y0i, y1i, y0b, y1b, bh, y0, y1, y);
    r0, r1, c0, c1 := Max(y - hy, 0), Min(y + hy + 1, bh), Max(x - hx, 0), Min(x + hx + 1, bw);
    R0, R1, C0, C1 := y0b + r0, y0b + r1, x0b + c0, x0b + c1;
    MulMono(R1, y0b + bh, nx, nx);
  }

  /** `KeptBox` for a tile cut from rows `[y0b, y0b + bh)` and columns
      `[x0b, x0b + bw)` of the image, stated as the size and the median of
      the samples kept. */
  lemma TileKept(img: seq<int>, nx: nat, y0b: nat, x0b: nat, bw: nat, bh: nat, tile: seq<int>,
                 xa: int, xb: int, ya: int, yb: int, r0: nat, r1: nat, c0: nat, c1: nat,
                 R0: nat, R1: nat, C0: nat, C1: nat)
    requires x0b + bw <= nx && Mul(y0b + bh, nx) <= |img| && Mul(R1, nx) <= |img|
    requires tile == Rows(img, nx, y0b, y0b + bh, x0b, x0b + bw)
    requires bw > 0 && c0 == Max(xa, 0) && c1 == Min(xb + 1, bw) && c0 <= c1
    requires r0 == Max(ya, 0) && r1 == Min(yb + 1, bh) && r0 <= r1
    requires R0 == y0b + r0 && R1 == y0b + r1 && C0 == x0b + c0 && C1 == x0b + c1
    ensures |Kept(Pairs(tile), Box(bw, |tile|, xa, xb, ya, yb))| == |Rows(img, nx, R0, R1, C0, C1)|
    ensures |Rows(img, nx, R0, R1, C0, C1)| > 0 ==>
            MedianOf(Kept(Pairs(tile), Box(bw, |tile|, xa, xb, ya, yb))) == MedianOf(Rows(img, nx, R0, R1, C0, C1))
  {
    KeptBox(img, nx, y0b, x0b, bw, bh, tile, xa, xb, ya, yb, r0, r1, c0, c1);
    var kept, window := Kept(Pairs(tile), Box(bw, |tile|, xa, xb, ya, yb)), Rows(img, nx, R0, R1, C0, C1);
    assert kept == window;
  }

  /** The image's rows `[r0, r1)` and columns `[c0, c1)` are the clipped
      window at (Y, X) when those are its bounds: a non-empty sample whose
      median is the expected median of cell (Y, X). */
  lemma AxisWindow(img: seq<int>, ny: nat, nx: nat, hy: nat, hx: nat, Y: nat, X: nat,
                   r0: nat, r1: nat, c0: nat, c1: nat)
    requires |img| == Mul(ny, nx) && Y < ny && X < nx
    requires r0 == Max(Y - hy, 0) && r1 == Min(Y + hy + 1, ny)
    requires c0 == Max(X - hx, 0) && c1 == Min(X + hx + 1, nx)
    ensures c0 <= c1 <= nx && r0 <= r1 && Mul(r1, nx) <= |img| && Offset(Y, X, nx) < |img|
    ensures |Rows(img, nx, r0, r1, c0, c1)| > 0
    ensures MedianOf(Rows(img, nx, r0, r1, c0, c1)) == MedianAt(img, ny, nx, hy, hx, Offset(Y, X, nx))
  {
    WindowRect(img, ny, nx, hy, hx, Y, X, r0, r1, c0, c1);
    MedianAtCell(img, ny, nx, hy, hx, Y, X);
  }

  /** The extents of one axis of a block `[i0, i1]` of an axis of length
      `len`: the tile `[b0, b1]` reaches `h` further on each side, clipped
      to the image, holds `size` samples, and the block sits at `[l0, l1]`
      in tile coordinates. */
  method Extent(len: nat, h: nat, i0: nat, i1: nat) returns (b0: nat, b1: nat, size: nat, l0: nat, l1: nat)
    requires i0 <= i1 < len
    ensures Axis(len, h, i0, i1, b0, b1, size, l0, l1)
    ensures 1 <= size && b0 + size <= len && l0 <= l1 < size
  {
    b0 := Max(i0 - h, 0);
    b1 := Min(i1 + h, len - 1);
    l0 := i0 - b0;
    l1 := i1 - b0;
    size := b1 - b0 + 1;
  }

  /** `(size + 63) / 64`: the fewest 64-bit words that hold `size` bits. */
  function WordsFor(size: nat): (words: nat)
    ensures size <= 64 * words < size + 64
  {
    (size + 63) / 64
  }

  /** The block sides `(By, Bx)` of `median_filterv4`: `max(32, ceil(n /
      blocksPerDim))` per axis, the whole image when it is at most 64 by
      64, and never more than `max(n / 2, 64)`. */
  function BlockSides(ny: nat, nx: nat, blocksPerDim: nat): (sides: (nat, nat))
    requires blocksPerDim >= 1
    ensures (ny > 0 ==> sides.0 > 0) && (nx > 0 ==> sides.1 > 0)
    ensures sides.0 <= Max(ny / 2, 64) && sides.1 <= Max(nx / 2, 64)
    ensures nx <= 64 && ny <= 64 ==> sides == (ny, nx)
    ensures !(nx <= 64 && ny <= 64) ==> 32 <= sides.0 && 32 <= sides.1
  {
    var b :=
      if nx <= 64 && ny <= 64 then (ny, nx)
      else (Max(32, (ny + blocksPerDim - 1) / blocksPerDim), Max(32, (nx + blocksPerDim - 1) / blocksPerDim));
    (Min(b.0, Max(ny / 2, 64)), Min(b.1, Max(nx / 2, 64)))
  }

  /** `median_filterv4`: the image is cut into blocks of the sides
      `BlockSides`, band by band; each block builds its tile and ranks and
      slides its window through the block.  Every output is the median of
      its clipped window, and every cell is written exactly once.  `threads`
      stands for the OpenMP thread count the source queries. */
  method MedianFilterV4(input: seq<int>, output: array<real>, ny: nat, nx: nat, hy: nat, hx: nat, threads: nat)
      returns (ghost written: seq<(int, int)>)
    requires |input| == Mul(ny, nx) == output.Length
    modifies output
    ensures ExactlyOnce(written, ny, nx)
    ensures forall k :: 0 <= k < output.Length ==> output[k] == MedianAt(input, ny, nx, hy, hx, k)
  {
    var blocksPerDim := BlocksPerDim(threads, 3);
    var sides := BlockSides(ny, nx, blocksPerDim);
    var sy, sx := sides.0, sides.1;
    written := [];
    var y0 := 0;
    while y0 < ny
      invariant Logged(input, ny, nx, hy, hx, output[..], written)
      invariant forall c :: c in written <==> BlocksBefore(c, ny, nx, sy, y0, 0)
      decreases ny - y0
    {
      written := FilterBand(input, output, ny, nx, hy, hx, sy, sx, y0, written);
      y0 := y0 + sy;
    }
    LoggedAll(input, ny, nx, hy, hx, output[..], written);
  }

  /** One band of blocks, image rows `[y0, y0 + sy)`, left to right: each
      block `[x0, x1] x [y0, y1]` is constructed and computes its medians. */
  method FilterBand(input: seq<int>, output: array<real>, ny: nat, nx: nat, hy: nat, hx: nat,
                    sy: nat, sx: nat, y0: nat, ghost written0: seq<(int, int)>)
      returns (ghost written: seq<(int, int)>)
    requires y0 < ny && sy > 0 && (nx > 0 ==> sx > 0)
    requires Logged(input, ny, nx, hy, hx, output[..], written0)
    requires forall c :: c in written0 <==> BlocksBefore(c, ny, nx, sy, y0, 0)
    modifies output
    ensures Logged(input, ny, nx, hy, hx, output[..], written)
    ensures forall c :: c in written <==> BlocksBefore(c, ny, nx, sy, y0 + sy, 0)
  {
    written := written0;
    var x0 := 0;
    while x0 < nx
      invariant Logged(input, ny, nx, hy, hx, output[..], written)
      invariant forall c :: c in written <==> BlocksBefore(c, ny, nx, sy, y0, x0)
      decreases nx - x0
    {
      var x1, y1 := Min(x0 + sx - 1, nx - 1), Min(y0 + sy - 1, ny - 1);
      var xEnd, yEnd := x1 + 1, y1 + 1;
      BlockFresh(written, ny, nx, sy, y0, x0, yEnd, xEnd);
      var block := new Block(ny, nx, hy, hx, input, x0, y0, x1, y1);
      ghost var w0 := written;
      written := block.ComputeMedian(output, written);
      BlockDone(w0, written, ny, nx, sy, sx, y0, x0, yEnd, xEnd);
      x0 := x0 + sx;
    }
    BandDone(written, ny, nx, sy, y0, x0);
  }
}
