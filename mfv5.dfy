/** `median_filterv5`: the 8-bit median filter over a 256-bin histogram,
    either rebuilt for every pixel (`processBlock`) or slid along each row by
    removing the column that leaves the window and adding the one that
    enters it (`processBlockOptimized`), over a tiling of the image into
    blocks. */
module MfV5 {
  import opened Grid
  import opened Medians
  import opened Histogram

  /** The samples of an 8-bit image are 8-bit values as a multiset too. */
  lemma BytesIn(s: seq<int>)
    requires forall i :: 0 <= i < |s| ==> 0 <= s[i] <= 255
    ensures forall v :: v in multiset(s) ==> 0 <= v < HistSize
  {
    forall v | v in multiset(s) ensures 0 <= v < HistSize {
      assert v in s;
    }
  }

  /** The window of an 8-bit image holds 8-bit values. */
  lemma WindowBytes(input: seq<Byte>, ny: nat, nx: nat, hy: nat, hx: nat, y: nat, x: nat)
    requires WindowOk(input, ny, nx, hy, hx, y, x)
    ensures forall v :: v in multiset(Window(input, ny, nx, hy, hx, y, x)) ==> 0 <= v < HistSize
  {
    MulMono(Min(y + hy + 1, ny), ny, nx, nx);
    RowsBounded(input, nx, Max(y - hy, 0), Min(y + hy + 1, ny), Max(x - hx, 0), Min(x + hx + 1, nx), 0, 255);
    BytesIn(Window(input, ny, nx, hy, hx, y, x));
  }

  /** Appending one sample adds one to its count. */
  lemma SnocCount(a: seq<int>, v: int)
    ensures multiset(a + [v]) == multiset(a) + multiset{v}
  {
  }

  /** A histogram counting a multiset counts any multiset equal to it. */
  lemma Retally(h: seq<int>, a: multiset<int>, b: multiset<int>)
    requires Tallies(h, a) && a == b
    ensures Tallies(h, b)
  {
  }

  /** Removing the samples of `col` and then `v` from a multiset that holds
      all of `col + [v]`: `v` is still there to remove, and the result is the
      multiset less `col + [v]`. */
  lemma RemoveStep(ms: multiset<int>, col: seq<int>, v: int)
    requires multiset(col + [v]) <= ms
    ensures v in ms - multiset(col)
    ensures (ms - multiset(col)) - multiset{v} == ms - multiset(col + [v])
  {
    SnocCount(col, v);
  }

  /** The inner `dx` loop of the window build: add the samples of columns
      `[c0, c1)` of the row starting at `base` to a histogram counting
      `done`, giving the histogram of `target`, which is `done` followed by
      those samples. */
  method AddSpan(hist: HistogramWindow, input: seq<Byte>, base: nat, c0: nat, c1: nat,
                 ghost done: seq<int>, ghost target: seq<int>)
    requires hist.Valid() && Tallies(hist.histogram[..], multiset(done))
    requires c0 <= c1 && base + c1 <= |input|
    requires target == done + input[base + c0 .. base + c1]
    modifies hist, hist.histogram
    ensures hist.Valid() && Tallies(hist.histogram[..], multiset(target))
  {
    var dx := c0;
    ghost var seen := done;
    while dx < c1
      invariant c0 <= dx <= c1
      invariant seen == done + input[base + c0 .. base + dx]
      invariant hist.Valid() && Tallies(hist.histogram[..], multiset(seen))
    {
      var i, next := base + dx, dx + 1;
      var v := input[i];
      ghost var seen' := seen + [v];
      assert seen' == done + input[base + c0 .. base + next] by {
        assert input[base + c0 .. i + 1] == input[base + c0 .. i] + [v];
      }
      SnocCount(seen, v);
      CountIn(hist, v, multiset(seen), multiset(seen'));
      seen, dx := seen', next;
    }
  }

  /** The two nested `dy`/`dx` loops that add every sample of the clipped
      window centred on (y, x) to an empty histogram. */
  method AddWindow(hist: HistogramWindow, input: seq<Byte>, ny: nat, nx: nat, hy: nat, hx: nat, y: nat, x: nat)
    requires WindowOk(input, ny, nx, hy, hx, y, x)
    requires hist.Valid() && Tallies(hist.histogram[..], multiset{})
    modifies hist, hist.histogram
    ensures hist.Valid() && Tallies(hist.histogram[..], multiset(Window(input, ny, nx, hy, hx, y, x)))
  {
    var r0, r1 := Max(y - hy, 0), Min(y + hy + 1, ny);
    var c0, c1 := Max(x - hx, 0), Min(x + hx + 1, nx);
    WindowRect(input, ny, nx, hy, hx, y, x, r0, r1, c0, c1);
    AddRows(hist, input, nx, r0, r1, c0, c1, Min(y + hy, ny - 1));
  }

  /** The `dy` loop of the window build over rows `[r0, r1)`, whose last
      row is `last`. */
  method AddRows(hist: HistogramWindow, input: seq<Byte>, nx: nat, r0: nat, r1: nat, c0: nat, c1: nat, last: int)
    requires r0 <= r1 && c0 <= c1 <= nx && Mul(r0, nx) <= Mul(r1, nx) <= |input| && last == r1 - 1
    requires hist.Valid() && Tallies(hist.histogram[..], multiset{})
    modifies hist, hist.histogram
    ensures hist.Valid() && Tallies(hist.histogram[..], multiset(Rows(input, nx, r0, r1, c0, c1)))
  {
    var dy := r0;
    assert Rows(input, nx, r0, r0, c0, c1) == [];
    while dy <= last
      invariant r0 <= dy <= r1 && Mul(dy, nx) <= |input|
      invariant hist.Valid() && Tallies(hist.histogram[..], multiset(Rows(input, nx, r0, dy, c0, c1)))
    {
      var next := dy + 1;
      AddRow(hist, input, nx, r0, dy, next, r1, c0, c1);
      dy := next;
    }
  }

  /** One pass of the `dy` loop: add row `r` of the window. */
  method AddRow(hist: HistogramWindow, input: seq<Byte>, nx: nat, r0: nat, r: nat, next: nat, r1: nat, c0: nat, c1: nat)
    requires next == r + 1
    requires r0 <= r < r1 && c0 <= c1 <= nx && Mul(r, nx) <= |input| && Mul(r1, nx) <= |input|
    requires hist.Valid() && Tallies(hist.histogram[..], multiset(Rows(input, nx, r0, r, c0, c1)))
    modifies hist, hist.histogram
    ensures Mul(next, nx) <= |input|
    ensures hist.Valid() && Tallies(hist.histogram[..], multiset(Rows(input, nx, r0, next, c0, c1)))
  {
    MulMono(next, r1, nx, nx);
    LastRow(input, nx, r0, r, next, c0, c1);
    var b := Mul(r, nx);
    ghost var done, grown := Rows(input, nx, r0, r, c0, c1), Rows(input, nx, r0, next, c0, c1);
    AddSpan(hist, input, b, c0, c1, done, grown);
  }

  /** `add(v)` on a histogram of `ms` gives the histogram of `ms` plus `v`,
      here called `target`. */
  method CountIn(hist: HistogramWindow, v: Byte, ghost ms: multiset<int>, ghost target: multiset<int>)
    requires hist.Valid() && Tallies(hist.histogram[..], ms)
    requires target == ms + multiset{v}
    modifies hist, hist.histogram
    ensures hist.Valid() && Tallies(hist.histogram[..], target)
  {
    TalliesAdd(hist.histogram[..], ms, v);
    hist.Add(v);
  }

  /** `remove(v)` on a histogram of `ms`, which holds `v`, gives the
      histogram of `ms` less `v`, here called `target`. */
  method CountOut(hist: HistogramWindow, v: Byte, ghost ms: multiset<int>, ghost target: multiset<int>)
    requires hist.Valid() && Tallies(hist.histogram[..], ms) && v in ms
    requires target == ms - multiset{v}
    modifies hist, hist.histogram
    ensures hist.Valid() && Tallies(hist.histogram[..], target)
  {
    TalliesRemove(hist.histogram[..], ms, v);
    hist.Remove(v);
  }

  /** The `remove` loop over the column `c` leaving the window, rows
      `[r0, r1)`: the histogram of `ms0`, which holds that column, becomes
      the histogram of `ms0` less the column, here called `target`. */
  method RemoveColumn(hist: HistogramWindow, input: seq<Byte>, nx: nat, r0: nat, r1: nat, c: nat,
                      ghost ms0: multiset<int>, ghost target: multiset<int>)
    requires c < nx && r0 <= r1 && Mul(r1, nx) <= |input|
    requires hist.Valid() && Tallies(hist.histogram[..], ms0)
    requires multiset(Column(input, nx, r0, r1, c)) <= ms0
    requires target == ms0 - multiset(Column(input, nx, r0, r1, c))
    modifies hist, hist.histogram
    ensures hist.Valid() && Tallies(hist.histogram[..], target)
  {
    var dy := r0;
    MulMono(r0, r1, nx, nx);
    ghost var left := ms0;
    while dy < r1
      invariant r0 <= dy <= r1 && Mul(dy, nx) <= |input|
      invariant left == ms0 - multiset(Column(input, nx, r0, dy, c))
      invariant hist.Valid() && Tallies(hist.histogram[..], left)
    {
      var next := dy + 1;
      RemoveCell(hist, input, nx, r0, dy, next, r1, c, ms0);
      left := ms0 - multiset(Column(input, nx, r0, next, c));
      dy := next;
    }
  }

  /** One pass of the `remove` loop: remove the sample of row `r`. */
  method RemoveCell(hist: HistogramWindow, input: seq<Byte>, nx: nat, r0: nat, r: nat, next: nat, r1: nat, c: nat,
                  ghost ms0: multiset<int>)
    requires next == r + 1 && r0 <= r < r1 && c < nx && Mul(r, nx) <= |input| && Mul(r1, nx) <= |input|
    requires multiset(Column(input, nx, r0, r1, c)) <= ms0
    requires hist.Valid() && Tallies(hist.histogram[..], ms0 - multiset(Column(input, nx, r0, r, c)))
    modifies hist, hist.histogram
    ensures Mul(next, nx) <= |input|
    ensures hist.Valid() && Tallies(hist.histogram[..], ms0 - multiset(Column(input, nx, r0, next, c)))
  {
    MulMono(next, r1, nx, nx);
    ghost var done, col := Column(input, nx, r0, r, c), Column(input, nx, r0, next, c);
    var v := input[Mul(r, nx) + c];
    assert col == done + [v] by {
      LastCell(input, nx, r0, r, next, c);
    }
    assert multiset(col) <= ms0 by {
      ColumnPrefix(input, nx, r0, next, r1, c);
    }
    RemoveStep(ms0, done, v);
    CountOut(hist, v, ms0 - multiset(done), ms0 - multiset(col));
  }

  /** The `add` loop over the column `c` entering the window, rows
      `[r0, r1)`: the histogram of `ms0` becomes that of `ms0` plus the
      column, here called `target`. */
  method AddColumn(hist: HistogramWindow, input: seq<Byte>, nx: nat, r0: nat, r1: nat, c: nat,
                   ghost ms0: multiset<int>, ghost target: multiset<int>)
    requires c < nx && r0 <= r1 && Mul(r1, nx) <= |input|
    requires hist.Valid() && Tallies(hist.histogram[..], ms0)
    requires target == ms0 + multiset(Column(input, nx, r0, r1, c))
    modifies hist, hist.histogram
    ensures hist.Valid() && Tallies(hist.histogram[..], target)
  {
    var dy := r0;
    MulMono(r0, r1, nx, nx);
    while dy < r1
      invariant r0 <= dy <= r1 && Mul(dy, nx) <= |input|
      invariant hist.Valid() && Tallies(hist.histogram[..], ms0 + multiset(Column(input, nx, r0, dy, c)))
    {
      var next := dy + 1;
      AddCell(hist, input, nx, r0, dy, next, r1, c, ms0);
      dy := next;
    }
  }

  /** One pass of the `add` loop: add the sample of row `r`. */
  method AddCell(hist: HistogramWindow, input: seq<Byte>, nx: nat, r0: nat, r: nat, next: nat, r1: nat, c: nat,
                  ghost ms0: multiset<int>)
    requires next == r + 1 && r0 <= r < r1 && c < nx && Mul(r, nx) <= |input| && Mul(r1, nx) <= |input|
    requires hist.Valid() && Tallies(hist.histogram[..], ms0 + multiset(Column(input, nx, r0, r, c)))
    modifies hist, hist.histogram
    ensures Mul(next, nx) <= |input|
    ensures hist.Valid() && Tallies(hist.histogram[..], ms0 + multiset(Column(input, nx, r0, next, c)))
  {
    MulMono(next, r1, nx, nx);
    ghost var done, col := Column(input, nx, r0, r, c), Column(input, nx, r0, next, c);
    var v := input[Mul(r, nx) + c];
    assert col == done + [v] by {
      LastCell(input, nx, r0, r, next, c);
    }
    SnocCount(done, v);
    CountIn(hist, v, ms0 + multiset(done), ms0 + multiset(col));
  }

  /** The left edge of the slide from (y, x-1) to (y, x): the old window's
      columns `[c0, c1)` less the leaving column `leftCol`, when it is in the
      image, are the columns `[d0, c1)` both windows share; otherwise the two
      column ranges coincide. */
  lemma LeftEdge(input: seq<int>, nx: nat, r0: nat, r1: nat, x: nat, hx: nat, leftCol: int, c0: nat, d0: nat, c1: nat)
    requires 0 < x < nx && r0 <= r1 && Mul(r1, nx) <= |input|
    requires leftCol == x - hx - 1
    requires c0 == Max(x - 1 - hx, 0) && d0 == Max(x - hx, 0) && c1 == Min(x + hx, nx)
    ensures d0 <= c1 && leftCol < nx
    ensures leftCol >= 0 ==> multiset(Column(input, nx, r0, r1, leftCol)) <= multiset(Rows(input, nx, r0, r1, c0, c1))
    ensures leftCol >= 0 ==>
      multiset(Rows(input, nx, r0, r1, d0, c1))
        == multiset(Rows(input, nx, r0, r1, c0, c1)) - multiset(Column(input, nx, r0, r1, leftCol))
    ensures leftCol < 0 ==> multiset(Rows(input, nx, r0, r1, d0, c1)) == multiset(Rows(input, nx, r0, r1, c0, c1))
  {
    if leftCol >= 0 {
      assert c0 == leftCol && d0 == c0 + 1;
      RowsSplitLeft(input, nx, r0, r1, c0, d0, c1);
      Peel(multiset(Rows(input, nx, r0, r1, c0, c1)), multiset(Column(input, nx, r0, r1, c0)),
           multiset(Rows(input, nx, r0, r1, d0, c1)));
    } else {
      assert c0 == d0;
    }
  }

  /** The right edge of the slide: the new window's columns `[d0, d1)` are
      the shared columns `[d0, c1)` plus the entering column `rightCol`,
      when it is in the image; otherwise the two column ranges coincide. */
  lemma RightEdge(input: seq<int>, nx: nat, r0: nat, r1: nat, x: nat, hx: nat, rightCol: nat, d0: nat, c1: nat, d1: nat)
    requires 0 < x < nx && r0 <= r1 && Mul(r1, nx) <= |input|
    requires rightCol == x + hx
    requires d0 == Max(x - hx, 0) && c1 == Min(x + hx, nx) && d1 == Min(x + hx + 1, nx)
    ensures d0 <= c1
    ensures rightCol < nx ==>
      multiset(Rows(input, nx, r0, r1, d0, d1))
        == multiset(Rows(input, nx, r0, r1, d0, c1)) + multiset(Column(input, nx, r0, r1, rightCol))
    ensures rightCol >= nx ==> multiset(Rows(input, nx, r0, r1, d0, d1)) == multiset(Rows(input, nx, r0, r1, d0, c1))
  {
    if rightCol < nx {
      assert c1 == rightCol && d1 == c1 + 1;
      RowsSplitRight(input, nx, r0, r1, d0, c1, d1);
    } else {
      assert c1 == d1;
    }
  }

  /** Taking a part off a multiset that is that part plus a rest leaves the
      rest. */
  lemma Peel(whole: multiset<int>, part: multiset<int>, rest: multiset<int>)
    requires whole == part + rest
    ensures part <= whole && rest == whole - part
  {
  }

  /** One output of `processBlock`: clear, rebuild the histogram of the
      window, and read its median. */
  method PixelMedian(hist: HistogramWindow, input: seq<Byte>, ny: nat, nx: nat, hy: nat, hx: nat, y: nat, x: nat)
      returns (m: Byte)
    requires |input| == Mul(ny, nx) && y < ny && x < nx
    requires hist.histogram.Length == HistSize
    modifies hist, hist.histogram
    ensures hist.Valid()
    ensures Offset(y, x, nx) < |input| && m == MedianAtU8(input, ny, nx, hy, hx, Offset(y, x, nx))
  {
    MedianAtCell(input, ny, nx, hy, hx, y, x);
    hist.Clear();
    AddWindow(hist, input, ny, nx, hy, hx, y, x);
    m := ReadMedian(hist, input, ny, nx, hy, hx, y, x);
  }

  /** `getMedian` on a histogram of the window centred on (y, x) is the
      8-bit median of that window. */
  method ReadMedian(hist: HistogramWindow, input: seq<Byte>, ny: nat, nx: nat, hy: nat, hx: nat, y: nat, x: nat)
      returns (m: Byte)
    requires WindowOk(input, ny, nx, hy, hx, y, x)
    requires hist.Valid() && Tallies(hist.histogram[..], multiset(Window(input, ny, nx, hy, hx, y, x)))
    ensures Offset(y, x, nx) < |input| && m == MedianAtU8(input, ny, nx, hy, hx, Offset(y, x, nx))
  {
    MedianAtCell(input, ny, nx, hy, hx, y, x);
    ExpandIsSort(hist.histogram[..], Window(input, ny, nx, hy, hx, y, x));
    m := hist.GetMedian();
  }

  /** `processBlock`: every cell of rows `[yStart, yEnd)`, columns
      `[xStart, xEnd)` gets the 8-bit median of its window, each written
      once, and no other output changes. */
  method ProcessBlock(input: seq<Byte>, output: array<Byte>, ny: nat, nx: nat, hy: nat, hx: nat,
                      yStart: nat, yEnd: nat, xStart: nat, xEnd: nat, ghost written0: seq<(int, int)>)
      returns (ghost written: seq<(int, int)>)
    requires yEnd <= ny && xEnd <= nx
    requires LoggedU8(input, ny, nx, hy, hx, output[..], written0)
    requires forall c :: c in written0 ==> !InRect(c, yStart, yEnd, xStart, xEnd)
    modifies output
    ensures LoggedU8(input, ny, nx, hy, hx, output[..], written)
    ensures forall c :: c in written <==> c in written0 || InRect(c, yStart, yEnd, xStart, xEnd)
    ensures forall k :: 0 <= k < output.Length && !InRect(CellAt(k, nx), yStart, yEnd, xStart, xEnd) ==>
              output[k] == old(output[k])
  {
    var hist := new HistogramWindow();
    written := written0;
    var y := yStart;
    while y < yEnd
      invariant yStart <= y && (y <= yEnd || y == yStart)
      invariant LoggedU8(input, ny, nx, hy, hx, output[..], written)
      invariant forall c :: c in written <==> c in written0 || InRect(c, yStart, y, xStart, xEnd)
      invariant ChangedOnly(output[..], old(output[..]), written0, written, nx)
    {
      ghost var mid, w := output[..], written;
      written := BlockRow(hist, input, output, ny, nx, hy, hx, yStart, yEnd, xStart, xEnd, y, written);
      ChangedCompose(output[..], mid, old(output[..]), written0, w, written, nx);
      y := y + 1;
    }
  }

  /** The `x` loop of `processBlock` over row `y`. */
  method BlockRow(hist: HistogramWindow, input: seq<Byte>, output: array<Byte>, ny: nat, nx: nat, hy: nat, hx: nat,
                  yStart: nat, yEnd: nat, xStart: nat, xEnd: nat, y: nat, ghost written0: seq<(int, int)>)
      returns (ghost written: seq<(int, int)>)
    requires yStart <= y < yEnd <= ny && xEnd <= nx
    requires hist.histogram.Length == HistSize
    requires LoggedU8(input, ny, nx, hy, hx, output[..], written0)
    requires forall c :: c in written0 ==> !InRect(c, y, y + 1, xStart, xEnd)
    modifies hist, hist.histogram, output
    ensures hist.histogram.Length == HistSize
    ensures LoggedU8(input, ny, nx, hy, hx, output[..], written)
    ensures forall c :: c in written <==> c in written0 || InRect(c, y, y + 1, xStart, xEnd)
    ensures ChangedOnly(output[..], old(output[..]), written0, written, nx)
  {
    written := written0;
    var x := xStart;
    while x < xEnd
      invariant xStart <= x && (x <= xEnd || x == xStart)
      invariant hist.histogram.Length == HistSize
      invariant LoggedU8(input, ny, nx, hy, hx, output[..], written)
      invariant forall c :: c in written <==> c in written0 || InRect(c, y, y + 1, xStart, x)
      invariant ChangedOnly(output[..], old(output[..]), written0, written, nx)
    {
      var m := PixelMedian(hist, input, ny, nx, hy, hx, y, x);
      ghost var mid, w := output[..], written;
      written := Emit(input, output, ny, nx, hy, hx, y, x, m, written);
      SpanStep(w, written0, y, xStart, x);
      ChangedCompose(output[..], mid, old(output[..]), written0, w, written, nx);
      x := x + 1;
    }
  }

  /** `output[y * nx + x] = median`, with the write logged: the cell is
      not yet written. */
  method Emit(input: seq<Byte>, output: array<Byte>, ny: nat, nx: nat, hy: nat, hx: nat, y: nat, x: nat, m: Byte,
              ghost written0: seq<(int, int)>)
      returns (ghost written: seq<(int, int)>)
    requires y < ny && x < nx && |input| == Mul(ny, nx)
    requires Offset(y, x, nx) < |input| && m == MedianAtU8(input, ny, nx, hy, hx, Offset(y, x, nx))
    requires LoggedU8(input, ny, nx, hy, hx, output[..], written0) && (y, x) !in written0
    modifies output
    ensures written == written0 + [(y, x)]
    ensures LoggedU8(input, ny, nx, hy, hx, output[..], written)
    ensures ChangedOnly(output[..], old(output[..]), written0, written, nx)
  {
    var i := Offset(y, x, nx);
    ghost var before := output[..];
    output[i] := m;
    LoggedStepU8(input, ny, nx, hy, hx, before, output[..], written0, y, x);
    ChangedOne(output[..], before, y, x, nx, m, written0);
    written := written0 + [(y, x)];
  }

  /** `processBlockOptimized`: for each row of the block, build the window of
      the first pixel, then slide it one column at a time.  The model asks
      for a non-empty row span: the source emits the first pixel of a row
      even when `x_start >= x_end`, and its only caller passes spans of at
      least 32 columns. */
  method ProcessBlockOptimized(input: seq<Byte>, output: array<Byte>, ny: nat, nx: nat, hy: nat, hx: nat,
                               yStart: nat, yEnd: nat, xStart: nat, xEnd: nat, ghost written0: seq<(int, int)>)
      returns (ghost written: seq<(int, int)>)
    requires yEnd <= ny && xStart < xEnd <= nx
    requires LoggedU8(input, ny, nx, hy, hx, output[..], written0)
    requires forall c :: c in written0 ==> !InRect(c, yStart, yEnd, xStart, xEnd)
    modifies output
    ensures LoggedU8(input, ny, nx, hy, hx, output[..], written)
    ensures forall c :: c in written <==> c in written0 || InRect(c, yStart, yEnd, xStart, xEnd)
    ensures forall k :: 0 <= k < output.Length && !InRect(CellAt(k, nx), yStart, yEnd, xStart, xEnd) ==>
              output[k] == old(output[k])
  {
    var hist := new HistogramWindow();
    written := written0;
    var y := yStart;
    while y < yEnd
      invariant yStart <= y && (y <= yEnd || y == yStart)
      invariant hist.histogram.Length == HistSize
      invariant LoggedU8(input, ny, nx, hy, hx, output[..], written)
      invariant forall c :: c in written <==> c in written0 || InRect(c, yStart, y, xStart, xEnd)
      invariant ChangedOnly(output[..], old(output[..]), written0, written, nx)
    {
      ghost var mid, w := output[..], written;
      written := SlideRow(hist, input, output, ny, nx, hy, hx, y, xStart, xEnd, written);
      ChangedCompose(output[..], mid, old(output[..]), written0, w, written, nx);
      y := y + 1;
    }
  }

  /** One row of `processBlockOptimized`: clear, build the window of
      (y, xStart), emit its median, then for each further `x` slide the
      window and emit. */
  method SlideRow(hist: HistogramWindow, input: seq<Byte>, output: array<Byte>, ny: nat, nx: nat, hy: nat, hx: nat,
                  y: nat, xStart: nat, xEnd: nat, ghost written0: seq<(int, int)>)
      returns (ghost written: seq<(int, int)>)
    requires y < ny && xStart < xEnd <= nx
    requires hist.histogram.Length == HistSize
    requires LoggedU8(input, ny, nx, hy, hx, output[..], written0)
    requires forall c :: c in written0 ==> !InRect(c, y, y + 1, xStart, xEnd)
    modifies hist, hist.histogram, output
    ensures hist.histogram.Length == HistSize
    ensures LoggedU8(input, ny, nx, hy, hx, output[..], written)
    ensures forall c :: c in written <==> c in written0 || InRect(c, y, y + 1, xStart, xEnd)
    ensures ChangedOnly(output[..], old(output[..]), written0, written, nx)
  {
    hist.Clear();
    AddWindow(hist, input, ny, nx, hy, hx, y, xStart);
    var m := ReadMedian(hist, input, ny, nx, hy, hx, y, xStart);
    written := Emit(input, output, ny, nx, hy, hx, y, xStart, m, written0);
    SpanStep(written0, written0, y, xStart, xStart);
    var x := xStart + 1;
    ghost var prev := xStart;
    while x < xEnd
      invariant xStart <= prev && x == prev + 1 <= xEnd
      invariant hist.histogram.Length == HistSize
      invariant hist.Valid() && Tallies(hist.histogram[..], multiset(Window(input, ny, nx, hy, hx, y, prev)))
      invariant LoggedU8(input, ny, nx, hy, hx, output[..], written)
      invariant forall c :: c in written <==> c in written0 || InRect(c, y, y + 1, xStart, x)
      invariant ChangedOnly(output[..], old(output[..]), written0, written, nx)
    {
      ghost var mid, w := output[..], written;
      written := SlideEmit(hist, input, output, ny, nx, hy, hx, y, prev, x, written);
      SpanStep(w, written0, y, xStart, x);
      ChangedCompose(output[..], mid, old(output[..]), written0, w, written, nx);
      prev, x := x, x + 1;
    }
  }

  /** One step of the sliding loop: slide the window from (y, prev) to
      (y, x) and write the median of (y, x). */
  method SlideEmit(hist: HistogramWindow, input: seq<Byte>, output: array<Byte>, ny: nat, nx: nat, hy: nat, hx: nat,
                   y: nat, ghost prev: nat, x: nat, ghost written0: seq<(int, int)>)
      returns (ghost written: seq<(int, int)>)
    requires |input| == Mul(ny, nx) && y < ny && x == prev + 1 < nx
    requires hist.Valid() && Tallies(hist.histogram[..], multiset(Window(input, ny, nx, hy, hx, y, prev)))
    requires LoggedU8(input, ny, nx, hy, hx, output[..], written0) && (y, x) !in written0
    modifies hist, hist.histogram, output
    ensures hist.Valid() && Tallies(hist.histogram[..], multiset(Window(input, ny, nx, hy, hx, y, x)))
    ensures LoggedU8(input, ny, nx, hy, hx, output[..], written) && written == written0 + [(y, x)]
    ensures ChangedOnly(output[..], old(output[..]), written0, written, nx)
  {
    SlideStep(hist, input, ny, nx, hy, hx, y, prev, x);
    var m := ReadMedian(hist, input, ny, nx, hy, hx, y, x);
    written := Emit(input, output, ny, nx, hy, hx, y, x, m, written0);
  }

  /** Writing (y, x) extends the written span of row `y` by one column. */
  lemma SpanStep(w: seq<(int, int)>, written0: seq<(int, int)>, y: int, xStart: int, x: int)
    requires xStart <= x
    requires forall c :: c in w <==> c in written0 || InRect(c, y, y + 1, xStart, x)
    ensures forall c :: c in w + [(y, x)] <==> c in written0 || InRect(c, y, y + 1, xStart, x + 1)
  {
  }

  /** The body of the sliding loop: remove column `x-hx-1` if it is in the
      image, add column `x+hx` if it is in the image; the histogram of the
      window at (y, x-1) becomes that of the window at (y, x). */
  method SlideStep(hist: HistogramWindow, input: seq<Byte>, ny: nat, nx: nat, hy: nat, hx: nat, y: nat, ghost prev: nat, x: nat)
    requires |input| == Mul(ny, nx) && y < ny && x == prev + 1 < nx
    requires hist.Valid() && Tallies(hist.histogram[..], multiset(Window(input, ny, nx, hy, hx, y, prev)))
    modifies hist, hist.histogram
    ensures hist.Valid() && Tallies(hist.histogram[..], multiset(Window(input, ny, nx, hy, hx, y, x)))
  {
    var r0, r1 := Max(y - hy, 0), Min(y + hy + 1, ny);
    MulMono(r1, ny, nx, nx);
    var leftCol, rightCol := x - hx - 1, x + hx;
    ghost var before := multiset(Window(input, ny, nx, hy, hx, y, prev));
    ghost var after := multiset(Window(input, ny, nx, hy, hx, y, x));
    ghost var mid := SlideWindow(input, ny, nx, hy, hx, y, prev, x, r0, r1, leftCol, rightCol, before, after);
    RemoveLeft(hist, input, nx, r0, r1, leftCol, before, mid);
    AddRight(hist, input, nx, r0, r1, rightCol, mid, after);
  }

  /** Sliding the window from (y, prev) to (y, x = prev + 1), as the loop
      body does it.  The column `leftCol = x-hx-1`, when it is in the image,
      is the first column of the old window and not of the new one; the
      column `rightCol = x+hx`, when it is in the image, is the last of the
      new window and just past the old one; otherwise that edge of the
      window does not move.  So the old window less the leaving column is
      `mid`, the columns both windows share, and `mid` plus the entering
      column is the new window. */
  lemma SlideWindow(input: seq<int>, ny: nat, nx: nat, hy: nat, hx: nat, y: nat, prev: nat, x: nat, r0: nat, r1: nat,
                    leftCol: int, rightCol: nat, before: multiset<int>, after: multiset<int>)
      returns (mid: multiset<int>)
    requires x == prev + 1 < nx && y < ny && |input| == Mul(ny, nx)
    requires r0 == Max(y - hy, 0) && r1 == Min(y + hy + 1, ny) && Mul(r1, nx) <= |input|
    requires leftCol == x - hx - 1 && rightCol == x + hx
    requires before == multiset(Window(input, ny, nx, hy, hx, y, prev))
    requires after == multiset(Window(input, ny, nx, hy, hx, y, x))
    ensures leftCol < nx
    ensures leftCol >= 0 ==> multiset(Column(input, nx, r0, r1, leftCol)) <= before
    ensures leftCol >= 0 ==> mid == before - multiset(Column(input, nx, r0, r1, leftCol))
    ensures leftCol < 0 ==> mid == before
    ensures rightCol < nx ==> after == mid + multiset(Column(input, nx, r0, r1, rightCol))
    ensures rightCol >= nx ==> after == mid
  {
    var c0, c1 := Max(prev - hx, 0), Min(prev + hx + 1, nx);
    var d0, d1 := Max(x - hx, 0), Min(x + hx + 1, nx);
    assert Window(input, ny, nx, hy, hx, y, prev) == Rows(input, nx, r0, r1, c0, c1);
    assert Window(input, ny, nx, hy, hx, y, x) == Rows(input, nx, r0, r1, d0, d1);
    LeftEdge(input, nx, r0, r1, x, hx, leftCol, c0, d0, c1);
    RightEdge(input, nx, r0, r1, x, hx, rightCol, d0, c1, d1);
    mid := multiset(Rows(input, nx, r0, r1, d0, c1));
  }

  /** `if (left_col >= 0)` remove that column: the histogram of `ms` becomes
      that of `target`, which is `ms` less the column, or `ms` itself when
      the column is outside the image. */
  method RemoveLeft(hist: HistogramWindow, input: seq<Byte>, nx: nat, r0: nat, r1: nat, leftCol: int,
                    ghost ms: multiset<int>, ghost target: multiset<int>)
    requires leftCol < nx && r0 <= r1 && Mul(r1, nx) <= |input|
    requires leftCol >= 0 ==> multiset(Column(input, nx, r0, r1, leftCol)) <= ms
    requires leftCol >= 0 ==> target == ms - multiset(Column(input, nx, r0, r1, leftCol))
    requires leftCol < 0 ==> target == ms
    requires hist.Valid() && Tallies(hist.histogram[..], ms)
    modifies hist, hist.histogram
    ensures hist.Valid() && Tallies(hist.histogram[..], target)
  {
    if leftCol >= 0 {
      RemoveColumn(hist, input, nx, r0, r1, leftCol, ms, target);
    } else {
      Retally(hist.histogram[..], ms, target);
    }
  }

  /** `if (right_col < nx)` add that column: the histogram of `ms` becomes
      that of `target`, which is `ms` plus the column, or `ms` itself when
      the column is outside the image. */
  method AddRight(hist: HistogramWindow, input: seq<Byte>, nx: nat, r0: nat, r1: nat, rightCol: nat,
                  ghost ms: multiset<int>, ghost target: multiset<int>)
    requires r0 <= r1 && Mul(r1, nx) <= |input|
    requires rightCol < nx ==> target == ms + multiset(Column(input, nx, r0, r1, rightCol))
    requires rightCol >= nx ==> target == ms
    requires hist.Valid() && Tallies(hist.histogram[..], ms)
    modifies hist, hist.histogram
    ensures hist.Valid() && Tallies(hist.histogram[..], target)
  {
    if rightCol < nx {
      AddColumn(hist, input, nx, r0, r1, rightCol, ms, target);
    } else {
      Retally(hist.histogram[..], ms, target);
    }
  }

  /** `median_filterv5`: small images and windows of more than 128 samples
      go through `processBlock` in one block; otherwise the image is cut
      into blocks of side `max(64, ceil(n / blocksPerDim))`, each filtered
      with the sliding kernel when it is at least 32 columns wide.  Every
      output is the 8-bit median of its window, and every cell is written
      exactly once.  `threads` stands for the OpenMP thread count the
      source queries. */
  method MedianFilterV5(input: seq<Byte>, output: array<Byte>, ny: nat, nx: nat, hy: nat, hx: nat, threads: nat)
      returns (ghost written: seq<(int, int)>)
    requires |input| == Mul(ny, nx) == output.Length
    modifies output
    ensures ExactlyOnce(written, ny, nx)
    ensures forall k :: 0 <= k < output.Length ==> output[k] == MedianAtU8(input, ny, nx, hy, hx, k)
  {
    if nx <= 64 || ny <= 64 || Mul(2 * hx + 1, 2 * hy + 1) > 128 {
      written := ProcessBlock(input, output, ny, nx, hy, hx, 0, ny, 0, nx, []);
    } else {
      var blocksPerDim := BlocksPerDim(threads, 2);
      var sy := BlockSide(ny, blocksPerDim);
      var sx := BlockSide(nx, blocksPerDim);
      written := [];
      var yb := 0;
      while yb < ny
        invariant LoggedU8(input, ny, nx, hy, hx, output[..], written)
        invariant forall c :: c in written <==> BlocksBefore(c, ny, nx, sy, yb, 0)
        decreases ny - yb
      {
        written := FilterBand(input, output, ny, nx, hy, hx, sy, sx, yb, written);
        yb := yb + sy;
      }
    }
    LoggedAllU8(input, ny, nx, hy, hx, output[..], written);
  }

  /** The block side `max(64, (n + blocksPerDim - 1) / blocksPerDim)`. */
  function BlockSide(n: nat, blocksPerDim: nat): (side: nat)
    requires blocksPerDim >= 1
    ensures side >= 64
    ensures Mul(side, blocksPerDim) >= n
  {
    var ceil := (n + blocksPerDim - 1) / blocksPerDim;
    CeilCovers(n, blocksPerDim);
    MulMono(ceil, Max(64, ceil), blocksPerDim, blocksPerDim);
    Max(64, ceil)
  }

  /** `blocksPerDim` blocks of the rounded-up side cover `n`. */
  lemma CeilCovers(n: nat, d: nat)
    requires d >= 1
    ensures Mul((n + d - 1) / d, d) >= n
  {
    MulIsProduct((n + d - 1) / d, d);
  }

  /** One band of blocks, rows `[yb, yb + sy)`, left to right. */
  method FilterBand(input: seq<Byte>, output: array<Byte>, ny: nat, nx: nat, hy: nat, hx: nat,
                    sy: nat, sx: nat, yb: nat, ghost written0: seq<(int, int)>)
      returns (ghost written: seq<(int, int)>)
    requires yb < ny && sy > 0 && sx > 0
    requires LoggedU8(input, ny, nx, hy, hx, output[..], written0)
    requires forall c :: c in written0 <==> BlocksBefore(c, ny, nx, sy, yb, 0)
    modifies output
    ensures LoggedU8(input, ny, nx, hy, hx, output[..], written)
    ensures forall c :: c in written <==> BlocksBefore(c, ny, nx, sy, yb + sy, 0)
  {
    written := written0;
    var xb := 0;
    while xb < nx
      invariant LoggedU8(input, ny, nx, hy, hx, output[..], written)
      invariant forall c :: c in written <==> BlocksBefore(c, ny, nx, sy, yb, xb)
      decreases nx - xb
    {
      var yEnd, xEnd := Min(yb + sy, ny), Min(xb + sx, nx);
      BlockFresh(written, ny, nx, sy, yb, xb, yEnd, xEnd);
      ghost var w0 := written;
      if xEnd - xb >= 32 {
        written := ProcessBlockOptimized(input, output, ny, nx, hy, hx, yb, yEnd, xb, xEnd, written);
      } else {
        written := ProcessBlock(input, output, ny, nx, hy, hx, yb, yEnd, xb, xEnd, written);
      }
      BlockDone(w0, written, ny, nx, sy, sx, yb, xb, yEnd, xEnd);
      xb := xb + sx;
    }
    BandDone(written, ny, nx, sy, yb, xb);
  }
}
