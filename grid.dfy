/** Row-major grids and the clipped rectangular window every kernel reads.
    A grid of width `w` stores row `r`, column `c` at index `Mul(r, w) + c`
    (the C expression `w * r + c`). */
module Grid {

  function Max(a: int, b: int): int { if a < b then b else a }
  function Min(a: int, b: int): int { if a < b then a else b }

  /** Multiplication of naturals by repeated addition. Every row-major
      offset and every buffer size of the kernels is a `Mul`; lemma
      `MulIsProduct` shows it is the ordinary product. Keeping the index
      arithmetic in this form leaves the solver with linear facts only:
      each step that needs a product law (`MulAdd`, `MulMono`, `MulComm`)
      calls it by name instead of leaving nonlinear `*` terms in every
      proof context. */
  function Mul(a: nat, b: nat): nat {
    if a == 0 then 0 else Mul(a - 1, b) + b
  }

  /** The row-major index `w * r + c` of cell (r, c) in a grid of width `w`. */
  function Offset(r: nat, c: nat, w: nat): nat {
    Mul(r, w) + c
  }

  lemma {:induction false} MulIsProduct(a: nat, b: nat)
    ensures Mul(a, b) == a * b
  {
    if a > 0 {
      MulIsProduct(a - 1, b);
    }
  }

  lemma {:induction false} MulAdd(a: nat, a': nat, b: nat)
    ensures Mul(a + a', b) == Mul(a, b) + Mul(a', b)
    decreases a'
  {
    if a' > 0 {
      MulAdd(a, a' - 1, b);
    }
  }

  /** `Mul` grows with both arguments. */
  lemma {:induction false} MulMono(a: nat, a': nat, b: nat, b': nat)
    requires a <= a' && b <= b'
    ensures Mul(a, b) <= Mul(a', b')
    decreases a'
  {
    if a' > 0 {
      if a == a' {
        MulMono(a - 1, a' - 1, b, b');
      } else {
        MulMono(a, a' - 1, b, b');
      }
    }
  }

  lemma {:induction false} MulComm(a: nat, b: nat)
    ensures Mul(a, b) == Mul(b, a)
  {
    MulIsProduct(a, b);
    MulIsProduct(b, a);
  }

  /** Cell (r, c) of an `h`-by-`w` grid has an index inside the grid, and
      row `r` ends where row `r + 1` begins. */
  lemma IndexInGrid(r: nat, c: nat, h: nat, w: nat)
    requires r < h && c < w
    ensures Mul(r, w) + c < Mul(r + 1, w) <= Mul(h, w)
  {
    MulMono(r + 1, h, w, w);
  }

  /** The row of index `k` in a grid of width `w` (the C expression `k / w`). */
  function RowOf(k: nat, w: nat): nat
    requires w > 0
    decreases k
  {
    if k < w then 0 else RowOf(k - w, w) + 1
  }

  /** The column of index `k` in a grid of width `w` (the C expression `k % w`). */
  function ColOf(k: nat, w: nat): nat
    requires w > 0
    decreases k
  {
    if k < w then k else ColOf(k - w, w)
  }

  /** The cell (row, column) with row-major index `k` in a grid of width
      `w`; a grid of width 0 has no cells. */
  function CellAt(k: nat, w: nat): (int, int) {
    if w == 0 then (-1, -1) else (RowOf(k, w) as int, ColOf(k, w) as int)
  }

  /** Decoding the index of cell (r, c) gives back (r, c). */
  lemma {:induction false} CellOf(r: nat, c: nat, w: nat)
    requires c < w
    ensures RowOf(Mul(r, w) + c, w) == r && ColOf(Mul(r, w) + c, w) == c
  {
    if r > 0 {
      CellOf(r - 1, c, w);
      assert Mul(r, w) + c - w == Mul(r - 1, w) + c;
    }
  }

  /** Every index is the index of its decoded cell, which lies inside any
      `h`-by-`w` grid that contains the index. */
  lemma {:induction false} IndexOf(k: nat, h: nat, w: nat)
    requires w > 0
    ensures ColOf(k, w) < w && Mul(RowOf(k, w), w) + ColOf(k, w) == k
    ensures k < Mul(h, w) ==> RowOf(k, w) < h
    decreases k
  {
    if k >= w {
      IndexOf(k - w, if h > 0 then h - 1 else 0, w);
    }
  }

  /** An index below `Mul(h, w)` means a non-empty grid. */
  lemma PositiveWidth(k: nat, h: nat, w: nat)
    requires k < Mul(h, w)
    ensures w > 0 && h > 0
  {
    if w == 0 {
      ZeroWidth(h);
    }
  }

  lemma {:induction false} ZeroWidth(h: nat)
    ensures Mul(h, 0) == 0
  {
    if h > 0 {
      ZeroWidth(h - 1);
    }
  }

  /** The values of rows `[r0, r1)`, columns `[c0, c1)` of a grid of width
      `w`, row after row, each row left to right: the order in which the
      kernels' nested extraction loops visit a window. */
  function Rows(g: seq<int>, w: nat, r0: nat, r1: nat, c0: nat, c1: nat): (s: seq<int>)
    requires c0 <= c1 <= w && r0 <= r1 && Mul(r1, w) <= |g|
    decreases r1 - r0
  {
    if r0 == r1 then []
    else Rows(g, w, r0, r1 - 1, c0, c1) + g[Mul(r1 - 1, w) + c0 .. Mul(r1 - 1, w) + c1]
  }

  /** A block of rows holds (rows) * (columns) values. */
  lemma {:induction false} RowsLength(g: seq<int>, w: nat, r0: nat, r1: nat, c0: nat, c1: nat)
    requires c0 <= c1 <= w && r0 <= r1 && Mul(r1, w) <= |g|
    ensures |Rows(g, w, r0, r1, c0, c1)| == Mul(r1 - r0, c1 - c0)
    decreases r1 - r0
  {
    if r0 < r1 {
      RowsLength(g, w, r0, r1 - 1, c0, c1);
    }
  }

  /** Bounds on the samples of an image hold for every block of its rows. */
  lemma {:induction false} RowsBounded(g: seq<int>, w: nat, r0: nat, r1: nat, c0: nat, c1: nat, lo: int, hi: int)
    requires c0 <= c1 <= w && r0 <= r1 && Mul(r1, w) <= |g|
    requires forall i :: 0 <= i < |g| ==> lo <= g[i] <= hi
    ensures forall i :: 0 <= i < |Rows(g, w, r0, r1, c0, c1)| ==> lo <= Rows(g, w, r0, r1, c0, c1)[i] <= hi
    decreases r1 - r0
  {
    if r0 < r1 {
      var r := r1 - 1;
      MulMono(r, r1, w, w);
      RowsBounded(g, w, r0, r, c0, c1, lo, hi);
      LastRow(g, w, r0, r, r1, c0, c1);
    }
  }

  /** The preconditions of `Window`: an `ny`-by-`nx` image, an in-bounds
      centre and non-negative half-sizes. */
  predicate WindowOk(img: seq<int>, ny: int, nx: int, hy: int, hx: int, y: int, x: int) {
    0 <= y < ny && 0 <= x < nx && hy >= 0 && hx >= 0 && |img| == Mul(ny, nx)
  }

  /** The clipped window of half-height `hy` and half-width `hx` centred on
      (y, x) of an `ny`-by-`nx` image: rows `[max(y-hy,0), min(y+hy+1,ny))`,
      columns `[max(x-hx,0), min(x+hx+1,nx))`, in row-major order. */
  function Window(img: seq<int>, ny: int, nx: int, hy: int, hx: int, y: int, x: int): (win: seq<int>)
    requires WindowOk(img, ny, nx, hy, hx, y, x)
  {
    MulMono(Min(y + hy + 1, ny), ny, nx, nx);
    Rows(img, nx, Max(y - hy, 0), Min(y + hy + 1, ny), Max(x - hx, 0), Min(x + hx + 1, nx))
  }

  /** The clipped window holds `rows * cols` samples: at least the centre and
      at most `(2hy+1)(2hx+1)`, the size of the kernels' scratch buffers. */
  lemma WindowSize(img: seq<int>, ny: int, nx: int, hy: int, hx: int, y: int, x: int)
    requires WindowOk(img, ny, nx, hy, hx, y, x)
    ensures var rows := Min(y + hy + 1, ny) - Max(y - hy, 0);
            var cols := Min(x + hx + 1, nx) - Max(x - hx, 0);
            1 <= rows <= 2 * hy + 1 && 1 <= cols <= 2 * hx + 1 &&
            |Window(img, ny, nx, hy, hx, y, x)| == Mul(rows, cols) &&
            0 < Mul(rows, cols) <= Mul(2 * hy + 1, 2 * hx + 1)
  {
    var rows := Min(y + hy + 1, ny) - Max(y - hy, 0);
    var cols := Min(x + hx + 1, nx) - Max(x - hx, 0);
    MulMono(Min(y + hy + 1, ny), ny, nx, nx);
    RowsLength(img, nx, Max(y - hy, 0), Min(y + hy + 1, ny), Max(x - hx, 0), Min(x + hx + 1, nx));
    MulMono(rows, 2 * hy + 1, cols, 2 * hx + 1);
    MulMono(1, rows, 1, cols);
  }

  /** The clipped window is the rectangle `[r0, r1) x [c0, c1)` of the image,
      and it fits the scratch buffer. */
  lemma WindowRect(input: seq<int>, ny: nat, nx: nat, hy: nat, hx: nat, y: nat, x: nat,
                   r0: nat, r1: nat, c0: nat, c1: nat)
    requires WindowOk(input, ny, nx, hy, hx, y, x)
    requires r0 == Max(y - hy, 0) && r1 == Min(y + hy + 1, ny)
    requires c0 == Max(x - hx, 0) && c1 == Min(x + hx + 1, nx)
    ensures r0 < r1 && c0 < c1 <= nx
    ensures Mul(r0, nx) <= Mul(r1, nx) <= |input|
    ensures Window(input, ny, nx, hy, hx, y, x) == Rows(input, nx, r0, r1, c0, c1)
    ensures Mul(r1 - r0, c1 - c0) <= Mul(2 * hy + 1, 2 * hx + 1)
  {
    WindowSize(input, ny, nx, hy, hx, y, x);
    MulMono(r0, r1, nx, nx);
    MulMono(r1, ny, nx, nx);
  }

  /** Column `c` of rows `[r0, r1)`, top to bottom. */
  function Column(g: seq<int>, w: nat, r0: nat, r1: nat, c: nat): (s: seq<int>)
    requires c < w && r0 <= r1 && Mul(r1, w) <= |g|
    decreases r1 - r0
  {
    if r0 == r1 then [] else Column(g, w, r0, r1 - 1, c) + [g[Mul(r1 - 1, w) + c]]
  }

  /** The block of rows `[r0, r1)` is the block `[r0, r)` followed by row
      `r`, for `r1 == r + 1`. */
  lemma LastRow(g: seq<int>, w: nat, r0: nat, r: nat, r1: nat, c0: nat, c1: nat)
    requires r1 == r + 1
    requires c0 <= c1 <= w && r0 <= r && Mul(r1, w) <= |g|
    ensures Mul(r, w) + w == Mul(r1, w)
    ensures Rows(g, w, r0, r1, c0, c1) == Rows(g, w, r0, r, c0, c1) + g[Mul(r, w) + c0 .. Mul(r, w) + c1]
  {
  }

  /** Column `c` of rows `[r0, r1)` is that of `[r0, r)` followed by the cell
      of row `r`, for `r1 == r + 1`. */
  lemma LastCell(g: seq<int>, w: nat, r0: nat, r: nat, r1: nat, c: nat)
    requires r1 == r + 1
    requires c < w && r0 <= r && Mul(r1, w) <= |g|
    ensures Mul(r, w) + w == Mul(r1, w)
    ensures Column(g, w, r0, r1, c) == Column(g, w, r0, r, c) + [g[Mul(r, w) + c]]
  {
  }

  /** The samples of the top rows `[r0, r)` of a column are among those of
      the whole column `[r0, r1)`. */
  lemma {:induction false} ColumnPrefix(g: seq<int>, w: nat, r0: nat, r: nat, r1: nat, c: nat)
    requires r0 <= r <= r1 && c < w && Mul(r, w) <= Mul(r1, w) <= |g|
    ensures multiset(Column(g, w, r0, r, c)) <= multiset(Column(g, w, r0, r1, c))
    decreases r1 - r
  {
    if r < r1 {
      MulMono(r1 - 1, r1, w, w);
      MulMono(r, r1 - 1, w, w);
      ColumnPrefix(g, w, r0, r, r1 - 1, c);
    }
  }

  lemma SliceSnoc(g: seq<int>, i: nat, k: nat, j: nat)
    requires i < j <= |g| && j == k + 1
    ensures g[i..j] == g[i..k] + [g[k]]
  {
  }

  lemma SliceCons(g: seq<int>, i: nat, k: nat, j: nat)
    requires i < j <= |g| && k == i + 1
    ensures g[i..j] == [g[i]] + g[k..j]
  {
  }

  /** One row's step of the column splits: appending `v` to the column and
      `seg` to the rest appends both to the whole. */
  lemma SplitStep(whole: seq<int>, col: seq<int>, rest: seq<int>, v: int, seg: seq<int>,
                  whole': seq<int>, col': seq<int>, rest': seq<int>)
    requires multiset(whole) == multiset(col) + multiset(rest)
    requires whole' == whole + ([v] + seg) || whole' == whole + (seg + [v])
    requires col' == col + [v] && rest' == rest + seg
    ensures multiset(whole') == multiset(col') + multiset(rest')
  {
  }

  /** Dropping the leftmost column `c0` of a block of rows removes exactly
      that column's values; `c == c0 + 1` is the block's next column. */
  lemma {:induction false} RowsSplitLeft(g: seq<int>, w: nat, r0: nat, r1: nat, c0: nat, c: nat, c1: nat)
    requires c == c0 + 1 && c0 < c1 <= w && r0 <= r1 && Mul(r1, w) <= |g|
    ensures multiset(Rows(g, w, r0, r1, c0, c1))
         == multiset(Column(g, w, r0, r1, c0)) + multiset(Rows(g, w, r0, r1, c, c1))
    decreases r1 - r0
  {
    if r0 < r1 {
      var r := r1 - 1;
      RowsSplitLeft(g, w, r0, r, c0, c, c1);
      SplitLeftStep(g, w, r0, r, r1, c0, c, c1);
    }
  }

  lemma SplitLeftStep(g: seq<int>, w: nat, r0: nat, r: nat, r1: nat, c0: nat, c: nat, c1: nat)
    requires r1 == r + 1 && c == c0 + 1
    requires c0 < c1 <= w && r0 <= r && Mul(r1, w) <= |g|
    requires multiset(Rows(g, w, r0, r, c0, c1))
         == multiset(Column(g, w, r0, r, c0)) + multiset(Rows(g, w, r0, r, c, c1))
    ensures multiset(Rows(g, w, r0, r1, c0, c1))
         == multiset(Column(g, w, r0, r1, c0)) + multiset(Rows(g, w, r0, r1, c, c1))
  {
    var b := Mul(r, w);
    var i0, i, i1 := b + c0, b + c, b + c1;
    LastRow(g, w, r0, r, r1, c0, c1);
    var whole, col, rest := Rows(g, w, r0, r, c0, c1), Column(g, w, r0, r, c0), Rows(g, w, r0, r, c, c1);
    var v, seg := g[i0], g[i .. i1];
    assert Rows(g, w, r0, r1, c0, c1) == whole + ([v] + seg) by {
      SliceCons(g, i0, i, i1);
    }
    assert Rows(g, w, r0, r1, c, c1) == rest + seg by {
      LastRow(g, w, r0, r, r1, c, c1);
    }
    assert Column(g, w, r0, r1, c0) == col + [v] by {
      LastCell(g, w, r0, r, r1, c0);
    }
    SplitStep(whole, col, rest, v, seg, Rows(g, w, r0, r1, c0, c1), Column(g, w, r0, r1, c0), Rows(g, w, r0, r1, c, c1));
  }

  /** Dropping the rightmost column `c` of a block of rows removes exactly
      that column's values; `c1 == c + 1` is the block's end. */
  lemma {:induction false} RowsSplitRight(g: seq<int>, w: nat, r0: nat, r1: nat, c0: nat, c: nat, c1: nat)
    requires c1 == c + 1 && c0 <= c < w && r0 <= r1 && Mul(r1, w) <= |g|
    ensures multiset(Rows(g, w, r0, r1, c0, c1))
         == multiset(Column(g, w, r0, r1, c)) + multiset(Rows(g, w, r0, r1, c0, c))
    decreases r1 - r0
  {
    if r0 < r1 {
      var r := r1 - 1;
      RowsSplitRight(g, w, r0, r, c0, c, c1);
      SplitRightStep(g, w, r0, r, r1, c0, c, c1);
    }
  }

  lemma SplitRightStep(g: seq<int>, w: nat, r0: nat, r: nat, r1: nat, c0: nat, c: nat, c1: nat)
    requires r1 == r + 1 && c1 == c + 1
    requires c0 <= c < w && r0 <= r && Mul(r1, w) <= |g|
    requires multiset(Rows(g, w, r0, r, c0, c1))
         == multiset(Column(g, w, r0, r, c)) + multiset(Rows(g, w, r0, r, c0, c))
    ensures multiset(Rows(g, w, r0, r1, c0, c1))
         == multiset(Column(g, w, r0, r1, c)) + multiset(Rows(g, w, r0, r1, c0, c))
  {
    var v, seg := RightRowGrows(g, w, r0, r, r1, c0, c, c1);
    assert Rows(g, w, r0, r1, c0, c) == Rows(g, w, r0, r, c0, c) + seg by {
      LastRow(g, w, r0, r, r1, c0, c);
    }
    assert Column(g, w, r0, r1, c) == Column(g, w, r0, r, c) + [v] by {
      LastCell(g, w, r0, r, r1, c);
    }
    SplitStep(Rows(g, w, r0, r, c0, c1), Column(g, w, r0, r, c), Rows(g, w, r0, r, c0, c), v, seg,
              Rows(g, w, r0, r1, c0, c1), Column(g, w, r0, r1, c), Rows(g, w, r0, r1, c0, c));
  }

  /** Row `r` adds to the block its samples left of column `c`, `seg`,
      then the sample `v` in column `c`. */
  lemma RightRowGrows(g: seq<int>, w: nat, r0: nat, r: nat, r1: nat, c0: nat, c: nat, c1: nat)
      returns (v: int, seg: seq<int>)
    requires r1 == r + 1 && c1 == c + 1
    requires c0 <= c < w && r0 <= r && Mul(r1, w) <= |g|
    ensures Mul(r, w) + c < |g| && v == g[Mul(r, w) + c] && seg == g[Mul(r, w) + c0 .. Mul(r, w) + c]
    ensures Rows(g, w, r0, r1, c0, c1) == Rows(g, w, r0, r, c0, c1) + (seg + [v])
  {
    var b := Mul(r, w);
    var i0, i, i1 := b + c0, b + c, b + c1;
    LastRow(g, w, r0, r, r1, c0, c1);
    v, seg := g[i], g[i0 .. i];
    SliceSnoc(g, i0, i, i1);
  }

  /** No cell appears twice in the write log `s`. */
  predicate Distinct(s: seq<(int, int)>) {
    forall i, j :: 0 <= i < j < |s| ==> s[i] != s[j]
  }

  predicate InGrid(c: (int, int), ny: int, nx: int) {
    0 <= c.0 < ny && 0 <= c.1 < nx
  }

  /** The write log `written` names every cell of the `ny`-by-`nx` image
      exactly once and nothing else. */
  ghost predicate ExactlyOnce(written: seq<(int, int)>, ny: int, nx: int) {
    Distinct(written) && forall c :: c in written <==> InGrid(c, ny, nx)
  }

  /** Logging a cell not yet written keeps the log free of repeats. */
  lemma AppendFresh(s: seq<(int, int)>, c: (int, int))
    requires Distinct(s) && c !in s
    ensures Distinct(s + [c]) && forall d :: d in s + [c] <==> d in s || d == c
  {
  }

  /** Cell `c` comes before (y, x) in the row-major order of a width-`nx`
      image. */
  predicate RowMajorBefore(c: (int, int), y: int, x: int, nx: int) {
    0 <= c.0 && 0 <= c.1 < nx && (c.0 < y || (c.0 == y && c.1 < x))
  }

  /** Logging (y, x) after every cell before it extends the row-major
      prefix by one cell. */
  lemma RowMajorStep(s: seq<(int, int)>, y: int, x: int, nx: int)
    requires 0 <= y && 0 <= x < nx
    requires Distinct(s) && forall c :: c in s <==> RowMajorBefore(c, y, x, nx)
    ensures Distinct(s + [(y, x)])
    ensures forall c :: c in s + [(y, x)] <==> RowMajorBefore(c, y, x + 1, nx)
  {
    AppendFresh(s, (y, x));
    forall c ensures c in s + [(y, x)] <==> RowMajorBefore(c, y, x + 1, nx) {
      assert RowMajorBefore(c, y, x + 1, nx) <==> RowMajorBefore(c, y, x, nx) || c == (y, x);
    }
  }

  /** Cell `c` lies in rows `[y0, y1)` and columns `[x0, x1)`. */
  predicate InRect(c: (int, int), y0: int, y1: int, x0: int, x1: int) {
    y0 <= c.0 < y1 && x0 <= c.1 < x1
  }

  /** Between `before` and `after` only the cells logged in `written` and
      not already in `w0` may differ: every other index, including those of
      the cells of `w0`, keeps its value. */
  ghost predicate ChangedOnly<T>(after: seq<T>, before: seq<T>, w0: seq<(int, int)>, written: seq<(int, int)>, w: nat) {
    |after| == |before| &&
    forall k :: 0 <= k < |after| && (CellAt(k, w) !in written || CellAt(k, w) in w0) ==> after[k] == before[k]
  }

  /** Storing into the index of cell (r, c), not in `w0`, changes that cell
      only. */
  lemma ChangedOne<T>(after: seq<T>, before: seq<T>, r: nat, c: nat, w: nat, v: T, w0: seq<(int, int)>)
    requires c < w && Offset(r, c, w) < |before| && (r, c) !in w0
    requires after == before[Offset(r, c, w) := v]
    ensures ChangedOnly(after, before, w0, w0 + [(r, c)], w)
  {
    CellOf(r, c, w);
    forall k | 0 <= k < |after| && (CellAt(k, w) !in w0 + [(r, c)] || CellAt(k, w) in w0)
      ensures after[k] == before[k]
    {
      assert CellAt(k, w) != (r, c);
    }
  }

  /** Changes confined to `w1` less `w0`, then to `w2` less `w1`, are
      confined to `w2` less `w0` when each log extends the one before. */
  lemma ChangedCompose<T>(after: seq<T>, mid: seq<T>, before: seq<T>,
                          w0: seq<(int, int)>, w1: seq<(int, int)>, w2: seq<(int, int)>, w: nat)
    requires ChangedOnly(mid, before, w0, w1, w) && ChangedOnly(after, mid, w1, w2, w)
    requires forall c :: c in w0 ==> c in w1
    requires forall c :: c in w1 ==> c in w2
    ensures ChangedOnly(after, before, w0, w2, w)
  {
  }

  /** Cell `c` belongs to a block already processed when the block loops
      (rows stepping by `sy`) are at block corner (yb, xb): every band
      above `yb`, and the blocks of the current band left of `xb`. */
  predicate BlocksBefore(c: (int, int), ny: int, nx: int, sy: int, yb: int, xb: int) {
    InGrid(c, ny, nx) && (c.0 < yb || (c.0 < yb + sy && c.1 < xb))
  }

  /** No cell of the next block has been written yet. */
  lemma BlockFresh(written: seq<(int, int)>, ny: nat, nx: nat, sy: nat, yb: nat, xb: nat, yEnd: nat, xEnd: nat)
    requires forall c :: c in written <==> BlocksBefore(c, ny, nx, sy, yb, xb)
    ensures forall c :: c in written ==> !InRect(c, yb, yEnd, xb, xEnd)
  {
  }

  /** After the block at (yb, xb), the written cells are those before the
      next block of the band. */
  lemma BlockDone(w0: seq<(int, int)>, written: seq<(int, int)>, ny: nat, nx: nat, sy: nat, sx: nat,
                  yb: nat, xb: nat, yEnd: nat, xEnd: nat)
    requires yEnd == Min(yb + sy, ny) && xEnd == Min(xb + sx, nx)
    requires forall c :: c in w0 <==> BlocksBefore(c, ny, nx, sy, yb, xb)
    requires forall c :: c in written <==> c in w0 || InRect(c, yb, yEnd, xb, xEnd)
    ensures forall c :: c in written <==> BlocksBefore(c, ny, nx, sy, yb, xb + sx)
  {
  }

  /** Once the blocks reach past the last column, the band is done. */
  lemma BandDone(written: seq<(int, int)>, ny: nat, nx: nat, sy: nat, yb: nat, xb: nat)
    requires xb >= nx
    requires forall c :: c in written <==> BlocksBefore(c, ny, nx, sy, yb, xb)
    ensures forall c :: c in written <==> BlocksBefore(c, ny, nx, sy, yb + sy, 0)
  {
  }

  /** `(int)std::sqrt(t)` for a non-negative `int`: the floor of the square
      root. */
  function FloorSqrt(t: nat): (k: nat)
    ensures k * k <= t < (k + 1) * (k + 1)
  {
    if t == 0 then 0
    else
      var k := FloorSqrt(t - 1);
      if (k + 1) * (k + 1) <= t then k + 1 else k
  }

  /** Blocks per image side, from the thread count: the floor square root
      of the target block count `max(threads * perThread, 4)`, and at least
      1. */
  function BlocksPerDim(threads: nat, perThread: nat): (d: nat)
    ensures d >= 2
    ensures Mul(d, d) <= Max(threads * perThread, 4) < Mul(d + 1, d + 1)
  {
    var k := FloorSqrt(Max(threads * perThread, 4));
    MulIsProduct(k, k);
    MulIsProduct(k + 1, k + 1);
    Max(1, k)
  }
}
