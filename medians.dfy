/** The median every kernel computes, stated on the sorted window.  The float
    kernels average the two middle samples of an even-sized window; the
    8-bit kernels round that average half up. */
module Medians {
  import opened Sorting
  import opened Grid

  /** An 8-bit sample (`uint8_t`). */
  type Byte = b: int | 0 <= b < 256

  /** `0.5f * (a + b)` and `(a + b) / 2` on floats, as an exact mean. */
  function Mean(a: int, b: int): real {
    (a + b) as real / 2.0
  }

  /** The median of a non-empty sample: the middle of its sorted order when
      the count is odd, the mean of the two middles when it is even. */
  function MedianOf(w: seq<int>): real
    requires |w| > 0
  {
    MiddleOf(Sort(w))
  }

  /** The middle of an ordered sample, or the mean of its two middles. */
  function MiddleOf(s: seq<int>): real
    requires |s| > 0
  {
    var mid := |s| / 2;
    if |s| % 2 == 1 then s[mid] as real else Mean(s[mid], s[mid - 1])
  }

  /** The 8-bit median: the middle of the sorted order when the count is
      odd, `(lower middle + upper middle + 1) / 2` when it is even. */
  function MedianU8(w: seq<int>): int
    requires |w| > 0
  {
    MiddleU8(Sort(w))
  }

  /** The middle of an ordered 8-bit sample, or the rounded-up mean of its
      two middles. */
  function MiddleU8(s: seq<int>): int
    requires |s| > 0
  {
    var mid := |s| / 2;
    if |s| % 2 == 1 then s[mid] else (s[mid] + s[mid - 1] + 1) / 2
  }

  /** The median read off the two middle samples `hi == Sort(w)[mid]` and,
      for an even count, `lo == Sort(w)[mid - 1]`, where `mid` is half the
      count `n`. */
  lemma MedianFromMiddles(w: seq<int>, n: nat, mid: nat, lo: int, hi: int)
    requires n == |w| > 0 && mid == n / 2 && Sort(w)[mid] == hi
    requires n % 2 == 0 ==> Sort(w)[mid - 1] == lo
    ensures MedianOf(w) == if n % 2 == 1 then hi as real else Mean(lo, hi)
    ensures MedianU8(w) == if n % 2 == 1 then hi else (hi + lo + 1) / 2
  {
    var s := Sort(w);
    MiddleFromMiddles(s, n, mid, lo, hi);
  }

  /** The same on the ordered sample `s` of length `n` itself. */
  lemma MiddleFromMiddles(s: seq<int>, n: nat, mid: nat, lo: int, hi: int)
    requires n == |s| > 0 && mid == n / 2 && s[mid] == hi
    requires n % 2 == 0 ==> s[mid - 1] == lo
    ensures MiddleOf(s) == if n % 2 == 1 then hi as real else Mean(lo, hi)
    ensures MiddleU8(s) == if n % 2 == 1 then hi else (hi + lo + 1) / 2
  {
  }

  /** The median read off any ascending permutation `p` of the sample:
      its middle element `hi` and, for an even count, the one before it,
      `lo`. */
  lemma MedianFromSorted(w: seq<int>, p: seq<int>, lo: int, hi: int)
    requires Sorted(p) && multiset(p) == multiset(w) && |p| > 0
    requires p[|p| / 2] == hi && (|p| % 2 == 0 ==> p[|p| / 2 - 1] == lo)
    ensures |w| == |p|
    ensures MedianOf(w) == if |p| % 2 == 1 then hi as real else Mean(lo, hi)
  {
    SortedPermIsSort(p, w);
    MedianFromMiddles(w, |p|, |p| / 2, lo, hi);
  }

  /** The middle of an ordered sample lies between its two middle elements
      (which coincide for an odd count), in both roundings. */
  lemma MiddleBetween(s: seq<int>)
    requires |s| > 0 && Sorted(s)
    ensures s[(|s| - 1) / 2] as real <= MiddleOf(s) <= s[|s| / 2] as real
    ensures s[(|s| - 1) / 2] <= MiddleU8(s) <= s[|s| / 2]
    ensures |s| % 2 == 1 ==> MiddleOf(s) == s[|s| / 2] as real && MiddleU8(s) == s[|s| / 2]
  {
    var lo, hi := s[(|s| - 1) / 2], s[|s| / 2];
    assert lo <= hi;
  }

  /** The median lies between the two middle samples of the sorted order
      (which coincide for an odd count), and it is the middle sample itself
      for an odd count; likewise for the 8-bit median. */
  lemma MedianBetweenMiddles(w: seq<int>)
    requires |w| > 0
    ensures var s := Sort(w);
            s[(|w| - 1) / 2] as real <= MedianOf(w) <= s[|w| / 2] as real &&
            s[(|w| - 1) / 2] <= MedianU8(w) <= s[|w| / 2] &&
            (|w| % 2 == 1 ==> MedianOf(w) == s[|w| / 2] as real && MedianU8(w) == s[|w| / 2])
  {
    MiddleBetween(Sort(w));
  }

  /** The 8-bit median of 8-bit samples is itself an 8-bit value, so the
      `uint8_t` store keeps it whole. */
  lemma MedianU8IsByte(w: seq<int>)
    requires |w| > 0
    requires forall i :: 0 <= i < |w| ==> 0 <= w[i] < 256
    ensures 0 <= MedianU8(w) < 256
  {
    SortKeepsUpperBound(w, 255);
    SortKeepsLowerBound(w, 0);
  }

  /** The median of a single sample is that sample. */
  lemma MedianOfOne(v: int)
    ensures MedianOf([v]) == v as real && MedianU8([v]) == v
  {
    assert Sort([v]) == [v] by {
      SortedPermIsSort([v], [v]);
    }
  }

  /** The expected float output at index `k` of an `ny`-by-`nx` image: the
      median of the clipped window centred on the cell `k` encodes. */
  function MedianAt(img: seq<int>, ny: nat, nx: nat, hy: nat, hx: nat, k: nat): real
    requires |img| == Mul(ny, nx) && k < |img|
  {
    PositiveWidth(k, ny, nx);
    IndexOf(k, ny, nx);
    WindowSize(img, ny, nx, hy, hx, RowOf(k, nx), ColOf(k, nx));
    MedianOf(Window(img, ny, nx, hy, hx, RowOf(k, nx), ColOf(k, nx)))
  }

  /** The expected 8-bit output at index `k`. */
  function MedianAtU8(img: seq<int>, ny: nat, nx: nat, hy: nat, hx: nat, k: nat): int
    requires |img| == Mul(ny, nx) && k < |img|
  {
    PositiveWidth(k, ny, nx);
    IndexOf(k, ny, nx);
    WindowSize(img, ny, nx, hy, hx, RowOf(k, nx), ColOf(k, nx));
    MedianU8(Window(img, ny, nx, hy, hx, RowOf(k, nx), ColOf(k, nx)))
  }

  /** The expected output at the index `nx*y + x` of cell (y, x) is the
      median of the window centred on (y, x). */
  lemma MedianAtCell(img: seq<int>, ny: nat, nx: nat, hy: nat, hx: nat, y: nat, x: nat)
    requires |img| == Mul(ny, nx) && y < ny && x < nx
    ensures Offset(y, x, nx) < |img|
    ensures WindowOk(img, ny, nx, hy, hx, y, x) && |Window(img, ny, nx, hy, hx, y, x)| > 0
    ensures MedianAt(img, ny, nx, hy, hx, Offset(y, x, nx)) == MedianOf(Window(img, ny, nx, hy, hx, y, x))
    ensures MedianAtU8(img, ny, nx, hy, hx, Offset(y, x, nx)) == MedianU8(Window(img, ny, nx, hy, hx, y, x))
  {
    var k := Offset(y, x, nx);
    assert k < |img| by {
      IndexInGrid(y, x, ny, nx);
    }
    assert RowOf(k, nx) == y && ColOf(k, nx) == x by {
      CellOf(y, x, nx);
    }
    WindowSize(img, ny, nx, hy, hx, y, x);
  }

  /** With `hy == hx == 0` every window is the centre sample alone, so the
      filter is the identity. */
  lemma ZeroRadiusIsIdentity(img: seq<int>, ny: nat, nx: nat, k: nat)
    requires |img| == Mul(ny, nx) && k < |img|
    ensures MedianAt(img, ny, nx, 0, 0, k) == img[k] as real
    ensures MedianAtU8(img, ny, nx, 0, 0, k) == img[k]
  {
    PositiveWidth(k, ny, nx);
    IndexOf(k, ny, nx);
    var y, x := RowOf(k, nx), ColOf(k, nx);
    var win := Window(img, ny, nx, 0, 0, y, x);
    IndexInGrid(y, x, ny, nx);
    assert Rows(img, nx, y, y, x, x + 1) == [];
    assert win == img[Mul(y, nx) + x .. Mul(y, nx) + x + 1];
    assert win == [img[k]];
    MedianOfOne(img[k]);
  }

  /** Writing the expected sample at `i` extends a correct output prefix
      `[0, i)` by one. */
  lemma FilteredStep(img: seq<int>, ny: nat, nx: nat, hy: nat, hx: nat,
                     before: seq<real>, after: seq<real>, i: nat)
    requires |img| == Mul(ny, nx) && i < |img| && i < |before|
    requires forall k :: 0 <= k < i ==> before[k] == MedianAt(img, ny, nx, hy, hx, k)
    requires after == before[i := MedianAt(img, ny, nx, hy, hx, i)]
    ensures forall k :: 0 <= k < i + 1 ==> after[k] == MedianAt(img, ny, nx, hy, hx, k)
  {
  }

  /** The outputs of the cells in the write log `written` are the expected
      medians, and no cell is logged twice. */
  ghost predicate Logged(img: seq<int>, ny: nat, nx: nat, hy: nat, hx: nat, out: seq<real>, written: seq<(int, int)>) {
    |img| == Mul(ny, nx) == |out| && Distinct(written) &&
    forall k :: 0 <= k < |out| && CellAt(k, nx) in written ==> out[k] == MedianAt(img, ny, nx, hy, hx, k)
  }

  /** Writing the expected median of a cell not yet logged, and logging it,
      keeps the log correct. */
  lemma LoggedStep(img: seq<int>, ny: nat, nx: nat, hy: nat, hx: nat,
                   before: seq<real>, after: seq<real>, written: seq<(int, int)>, y: nat, x: nat)
    requires Logged(img, ny, nx, hy, hx, before, written)
    requires y < ny && x < nx && (y, x) !in written
    requires Offset(y, x, nx) < |img|
    requires after == before[Offset(y, x, nx) := MedianAt(img, ny, nx, hy, hx, Offset(y, x, nx))]
    ensures Logged(img, ny, nx, hy, hx, after, written + [(y, x)])
  {
    var i := Offset(y, x, nx);
    assert CellAt(i, nx) == (y, x) by {
      CellOf(y, x, nx);
    }
    AppendFresh(written, (y, x));
    forall k | 0 <= k < |after| && CellAt(k, nx) in written + [(y, x)]
      ensures after[k] == MedianAt(img, ny, nx, hy, hx, k)
    {
      if k != i {
        IndexOf(k, ny, nx);
        assert CellAt(k, nx) in written;
      }
    }
  }

  /** A log naming every cell once means every output is the expected
      median. */
  lemma LoggedAll(img: seq<int>, ny: nat, nx: nat, hy: nat, hx: nat, out: seq<real>, written: seq<(int, int)>)
    requires Logged(img, ny, nx, hy, hx, out, written) && ExactlyOnce(written, ny, nx)
    ensures forall k :: 0 <= k < |out| ==> out[k] == MedianAt(img, ny, nx, hy, hx, k)
  {
    forall k | 0 <= k < |out| ensures out[k] == MedianAt(img, ny, nx, hy, hx, k) {
      PositiveWidth(k, ny, nx);
      IndexOf(k, ny, nx);
      assert InGrid(CellAt(k, nx), ny, nx);
    }
  }

  /** The expected 8-bit output of an 8-bit image is an 8-bit value. */
  lemma MedianAtU8IsByte(img: seq<int>, ny: nat, nx: nat, hy: nat, hx: nat, k: nat)
    requires |img| == Mul(ny, nx) && k < |img|
    requires forall i :: 0 <= i < |img| ==> 0 <= img[i] <= 255
    ensures 0 <= MedianAtU8(img, ny, nx, hy, hx, k) <= 255
  {
    PositiveWidth(k, ny, nx);
    IndexOf(k, ny, nx);
    var y, x := RowOf(k, nx), ColOf(k, nx);
    WindowSize(img, ny, nx, hy, hx, y, x);
    var r0, r1 := Max(y - hy, 0), Min(y + hy + 1, ny);
    var c0, c1 := Max(x - hx, 0), Min(x + hx + 1, nx);
    var w := Window(img, ny, nx, hy, hx, y, x);
    assert forall i :: 0 <= i < |w| ==> 0 <= w[i] < 256 by {
      WindowRect(img, ny, nx, hy, hx, y, x, r0, r1, c0, c1);
      RowsBounded(img, nx, r0, r1, c0, c1, 0, 255);
    }
    MedianU8IsByte(w);
  }

  /** The 8-bit counterpart of `Logged`. */
  ghost predicate LoggedU8(img: seq<int>, ny: nat, nx: nat, hy: nat, hx: nat, out: seq<int>, written: seq<(int, int)>) {
    |img| == Mul(ny, nx) == |out| && Distinct(written) &&
    forall k :: 0 <= k < |out| && CellAt(k, nx) in written ==> out[k] == MedianAtU8(img, ny, nx, hy, hx, k)
  }

  /** The 8-bit counterpart of `LoggedStep`. */
  lemma LoggedStepU8(img: seq<int>, ny: nat, nx: nat, hy: nat, hx: nat,
                     before: seq<int>, after: seq<int>, written: seq<(int, int)>, y: nat, x: nat)
    requires LoggedU8(img, ny, nx, hy, hx, before, written)
    requires y < ny && x < nx && (y, x) !in written
    requires Offset(y, x, nx) < |img|
    requires after == before[Offset(y, x, nx) := MedianAtU8(img, ny, nx, hy, hx, Offset(y, x, nx))]
    ensures LoggedU8(img, ny, nx, hy, hx, after, written + [(y, x)])
  {
    var i := Offset(y, x, nx);
    assert CellAt(i, nx) == (y, x) by {
      CellOf(y, x, nx);
    }
    AppendFresh(written, (y, x));
    forall k | 0 <= k < |after| && CellAt(k, nx) in written + [(y, x)]
      ensures after[k] == MedianAtU8(img, ny, nx, hy, hx, k)
    {
      if k != i {
        IndexOf(k, ny, nx);
        assert CellAt(k, nx) in written;
      }
    }
  }

  /** The 8-bit counterpart of `LoggedAll`. */
  lemma LoggedAllU8(img: seq<int>, ny: nat, nx: nat, hy: nat, hx: nat, out: seq<int>, written: seq<(int, int)>)
    requires LoggedU8(img, ny, nx, hy, hx, out, written) && ExactlyOnce(written, ny, nx)
    ensures forall k :: 0 <= k < |out| ==> out[k] == MedianAtU8(img, ny, nx, hy, hx, k)
  {
    forall k | 0 <= k < |out| ensures out[k] == MedianAtU8(img, ny, nx, hy, hx, k) {
      PositiveWidth(k, ny, nx);
      IndexOf(k, ny, nx);
      assert InGrid(CellAt(k, nx), ny, nx);
    }
  }
}
