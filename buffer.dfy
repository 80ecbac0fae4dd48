/** The scratch buffer the sort-based kernels share: filling it with the
    clipped window, and the two library calls they apply to it. */
module WindowBuffer {
  import opened Sorting
  import opened Grid
  import opened Medians

  /** Copy the clipped window centred on (y, x) into `pixels[0..len)`, row by
      row, as the two nested `pixels[len++] = input[nx*i + j]` loops do.
      Every read is inside the image and every write inside the
      `(2hy+1)(2hx+1)` buffer. */
  method ExtractWindow(input: seq<int>, ny: nat, nx: nat, hy: nat, hx: nat, y: nat, x: nat, pixels: array<int>)
      returns (len: nat)
    requires WindowOk(input, ny, nx, hy, hx, y, x)
    requires pixels.Length == Mul(2 * hy + 1, 2 * hx + 1)
    modifies pixels
    ensures len == |Window(input, ny, nx, hy, hx, y, x)| && 0 < len <= pixels.Length
    ensures pixels[..len] == Window(input, ny, nx, hy, hx, y, x)
  {
    var r0, r1 := Max(y - hy, 0), Min(y + hy + 1, ny);
    var c0, c1 := Max(x - hx, 0), Min(x + hx + 1, nx);
    WindowRect(input, ny, nx, hy, hx, y, x, r0, r1, c0, c1);
    len := CopyRect(input, nx, r0, r1, c0, c1, pixels);
  }

  /** The two nested copy loops over the rows `[r0, r1)` and columns
      `[c0, c1)` of a row-major image of width `w`. */
  method CopyRect(input: seq<int>, w: nat, r0: nat, r1: nat, c0: nat, c1: nat, pixels: array<int>)
      returns (len: nat)
    requires r0 <= r1 && c0 <= c1 <= w
    requires Mul(r0, w) <= Mul(r1, w) <= |input|
    requires Mul(r1 - r0, c1 - c0) <= pixels.Length
    modifies pixels
    ensures len == Mul(r1 - r0, c1 - c0)
    ensures pixels[..len] == Rows(input, w, r0, r1, c0, c1)
  {
    len := 0;
    var i := r0;
    ghost var k := 0;
    ghost var rows, cols := r1 - r0, c1 - c0;
    while i < r1
      invariant r0 <= i <= r1 && k == i - r0
      invariant Mul(i, w) <= |input|
      invariant len == Mul(k, cols) <= pixels.Length
      invariant pixels[..len] == Rows(input, w, r0, i, c0, c1)
    {
      var next := i + 1;
      ghost var k' := k + 1;
      RowStep(k, k', rows, cols, pixels.Length);
      MulMono(next, r1, w, w);
      LastRow(input, w, r0, i, next, c0, c1);
      len := CopyRow(input, Mul(i, w), c0, c1, pixels, len);
      i, k := next, k';
    }
  }

  /** One more row of `cols` samples still fits below `Mul(rows, cols)`. */
  lemma RowStep(done: nat, next: nat, rows: nat, cols: nat, size: nat)
    requires next == done + 1 && done < rows && Mul(rows, cols) <= size
    ensures Mul(next, cols) == Mul(done, cols) + cols <= size
  {
    MulMono(next, rows, cols, cols);
  }

  /** The inner loop of the extraction: append `row[c0..c1)` of the row
      starting at `base` to `pixels[0..len)`. */
  method CopyRow(input: seq<int>, base: nat, c0: nat, c1: nat, pixels: array<int>, len0: nat) returns (len: nat)
    requires c0 <= c1 && base + c1 <= |input|
    requires len0 + (c1 - c0) <= pixels.Length
    modifies pixels
    ensures len == len0 + (c1 - c0)
    ensures pixels[..len] == old(pixels[..len0]) + input[base + c0 .. base + c1]
  {
    len := len0;
    var j := c0;
    while j < c1
      invariant c0 <= j <= c1
      invariant len == len0 + (j - c0)
      invariant pixels[..len] == old(pixels[..len0]) + input[base + c0 .. base + j]
    {
      ghost var before := pixels[..len];
      pixels[len] := input[base + j];
      assert pixels[..len + 1] == before + [input[base + j]];
      SliceSnoc(input, base + c0, base + j, base + j + 1);
      len := len + 1;
      j := j + 1;
    }
  }

  /** `std::sort(a, a + len)`: the first `len` elements become an ascending
      permutation of themselves; the rest of the buffer is untouched.  Only
      this contract is used; the body stands for the library. */
  method SortPrefix(a: array<int>, len: nat)
    requires len <= a.Length
    modifies a
    ensures Sorted(a[..len]) && multiset(a[..len]) == multiset(old(a[..len]))
    ensures a[len..] == old(a[len..])
  {
    var s := Sort(a[..len]);
    forall i | 0 <= i < len {
      a[i] := s[i];
    }
    assert a[..len] == s;
  }

  /** `std::nth_element(a, a + mid, a + len)`: the first `len` elements are
      permuted so that nothing before position `mid` is larger than `a[mid]`
      and nothing after it is smaller.  Only this contract is used. */
  method NthElement(a: array<int>, mid: nat, len: nat)
    requires mid < len <= a.Length
    modifies a
    ensures multiset(a[..len]) == multiset(old(a[..len]))
    ensures forall i :: 0 <= i < mid ==> a[i] <= a[mid]
    ensures forall i :: mid < i < len ==> a[mid] <= a[i]
    ensures a[len..] == old(a[len..])
  {
    SortPrefix(a, len);
    assert forall i :: 0 <= i < len ==> a[i] == a[..len][i];
  }

  /** The running maximum `lo = max(lo, *p)` over `a[0..mid-1)`, started
      from `a[mid-1]`: the largest of `a[0..mid)`. */
  method LowerHalfMax(a: array<int>, mid: nat) returns (lo: int)
    requires 0 < mid <= a.Length
    ensures IsMax(lo, a[..mid])
  {
    lo := a[mid - 1];
    var p := 0;
    while p < mid - 1
      invariant 0 <= p <= mid - 1
      invariant lo in a[..mid]
      invariant a[mid - 1] <= lo
      invariant forall i :: 0 <= i < p ==> a[i] <= lo
    {
      lo := if lo < a[p] then a[p] else lo;
      p := p + 1;
    }
  }

  /** The median of `w` read off a permutation `p` of it that is
      partitioned around its middle `mid`: the middle itself for an odd
      count, its mean with `lo`, the largest of the lower half, for an even
      count. */
  lemma PartitionedMedian(p: seq<int>, w: seq<int>, n: nat, mid: nat, lo: int)
    requires multiset(p) == multiset(w) && n == |p| > 0 && mid == n / 2
    requires forall i :: 0 <= i < mid ==> p[i] <= p[mid]
    requires forall i :: mid < i < n ==> p[mid] <= p[i]
    requires n % 2 == 0 ==> IsMax(lo, p[..mid])
    ensures MedianOf(w) == if n % 2 == 1 then p[mid] as real else Mean(lo, p[mid])
  {
    var hi := p[mid];
    if n % 2 == 1 {
      PartitionSort(p, w, mid);
      MedianFromMiddles(w, n, mid, 0, hi);
    } else {
      PartitionedOrderStatistics(p, w, mid, lo);
      MedianFromMiddles(w, n, mid, lo, hi);
    }
  }

  /** Sort the window held in `pixels[0..len)` and read its median off the
      middle, as `median_filterv1` does per pixel. */
  method SortMedian(pixels: array<int>, len: nat, ghost w: seq<int>) returns (m: real)
    requires 0 < len <= pixels.Length && pixels[..len] == w
    modifies pixels
    ensures m == MedianOf(w)
  {
    SortPrefix(pixels, len);
    SortedPermIsSort(pixels[..len], w);
    var mid := len / 2;
    if len % 2 == 1 {
      MedianFromMiddles(w, len, mid, 0, pixels[mid]);
      m := pixels[mid] as real;
    } else {
      MedianFromMiddles(w, len, mid, pixels[mid - 1], pixels[mid]);
      m := Mean(pixels[mid], pixels[mid - 1]);
    }
  }

  /** The 8-bit variant: sort, then the middle or the rounded-up mean of the
      two middles. */
  method SortMedianU8(pixels: array<int>, len: nat, ghost w: seq<int>) returns (m: int)
    requires 0 < len <= pixels.Length && pixels[..len] == w
    modifies pixels
    ensures m == MedianU8(w)
  {
    SortPrefix(pixels, len);
    SortedPermIsSort(pixels[..len], w);
    var mid := len / 2;
    if len % 2 == 1 {
      MedianFromMiddles(w, len, mid, 0, pixels[mid]);
      m := pixels[mid];
    } else {
      MedianFromMiddles(w, len, mid, pixels[mid - 1], pixels[mid]);
      m := (pixels[mid] + pixels[mid - 1] + 1) / 2;
    }
  }

  /** Partition the window around its middle with `nth_element`; for an odd
      count the middle is the median, for an even count the largest of the
      lower half is the other middle, as `median_filterv2` does per pixel. */
  method SelectMedian(pixels: array<int>, len: nat, ghost w: seq<int>) returns (m: real)
    requires 0 < len <= pixels.Length && pixels[..len] == w
    modifies pixels
    ensures m == MedianOf(w)
  {
    var mid := len / 2;
    NthElement(pixels, mid, len);
    ghost var p := pixels[..len];
    var hi := pixels[mid];
    var lo := 0;
    if len % 2 == 0 {
      lo := LowerHalfMax(pixels, mid);
      assert p[..mid] == pixels[..mid];
    }
    PartitionedMedian(p, w, len, mid, lo);
    m := if len % 2 == 1 then hi as real else Mean(lo, hi);
  }
}
