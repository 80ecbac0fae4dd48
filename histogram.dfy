/** The 256-bin histogram of the 8-bit sliding-median kernel: a count per
    sample value, updated one sample at a time, from which the median is read
    by accumulating counts.  A histogram `h` stands for the ascending
    sequence `Expand(h)` (value `v` repeated `h[v]` times); when `h` counts
    the samples of a window, that sequence is the sorted window. */
module Histogram {
  import opened Sorting
  import opened Medians

  /** Number of bins: one per 8-bit value. */
  const HistSize: nat := 256

  /** The sum of the counts. */
  function Sum(h: seq<int>): int {
    if |h| == 0 then 0 else Sum(h[..|h| - 1]) + h[|h| - 1]
  }

  lemma SumPrefix(h: seq<int>, i: nat)
    requires i < |h|
    ensures Sum(h[..i + 1]) == Sum(h[..i]) + h[i]
  {
    assert h[..i + 1][..i] == h[..i];
  }

  /** Changing one count by `d` changes the sum by `d`. */
  lemma {:induction false} SumUpdate(h: seq<int>, v: nat, d: int)
    requires v < |h|
    ensures Sum(h[v := h[v] + d]) == Sum(h) + d
  {
    var n := |h| - 1;
    var h' := h[v := h[v] + d];
    assert h'[..n] == if v < n then h[..n][v := h[v] + d] else h[..n];
    if v < n {
      SumUpdate(h[..n], v, d);
    }
  }

  /** All-zero counts sum to zero. */
  lemma {:induction false} SumZero(h: seq<int>)
    requires forall i :: 0 <= i < |h| ==> h[i] == 0
    ensures Sum(h) == 0
  {
    if |h| > 0 {
      SumZero(h[..|h| - 1]);
    }
  }

  predicate NonNeg(h: seq<int>) {
    forall i :: 0 <= i < |h| ==> h[i] >= 0
  }

  /** `c` copies of `v`. */
  function Repeat(v: int, c: nat): (r: seq<int>)
    ensures |r| == c && forall i :: 0 <= i < c ==> r[i] == v
  {
    if c == 0 then [] else Repeat(v, c - 1) + [v]
  }

  /** The values of bins `[0, n)` in ascending order, each bin value `v`
      repeated `h[v]` times. */
  function ExpandPrefix(h: seq<int>, n: nat): seq<int>
    requires NonNeg(h) && n <= |h|
  {
    if n == 0 then [] else ExpandPrefix(h, n - 1) + Repeat(n - 1, h[n - 1])
  }

  /** The ascending sequence of samples the histogram counts. */
  function Expand(h: seq<int>): seq<int>
    requires NonNeg(h)
  {
    ExpandPrefix(h, |h|)
  }

  /** Bins `[0, n)` expand to `Sum(h[..n])` samples, ascending, all below
      `n`, each value `v < n` occurring `h[v]` times. */
  lemma ExpandPrefixFacts(h: seq<int>, n: nat)
    requires NonNeg(h) && n <= |h|
    ensures |ExpandPrefix(h, n)| == Sum(h[..n])
    ensures Sorted(ExpandPrefix(h, n))
    ensures forall i :: 0 <= i < |ExpandPrefix(h, n)| ==> 0 <= ExpandPrefix(h, n)[i] < n
    ensures forall v :: multiset(ExpandPrefix(h, n))[v] == if 0 <= v < n then h[v] else 0
  {
    ExpandPrefixLength(h, n);
    ExpandPrefixSorted(h, n);
    ExpandPrefixCounts(h, n);
  }

  lemma {:induction false} ExpandPrefixLength(h: seq<int>, n: nat)
    requires NonNeg(h) && n <= |h|
    ensures |ExpandPrefix(h, n)| == Sum(h[..n])
  {
    if n > 0 {
      ExpandPrefixLength(h, n - 1);
      SumPrefix(h, n - 1);
    }
  }

  lemma {:induction false} ExpandPrefixSorted(h: seq<int>, n: nat)
    requires NonNeg(h) && n <= |h|
    ensures Sorted(ExpandPrefix(h, n))
    ensures forall i :: 0 <= i < |ExpandPrefix(h, n)| ==> 0 <= ExpandPrefix(h, n)[i] < n
  {
    if n > 0 {
      ExpandPrefixSorted(h, n - 1);
      AppendBlock(ExpandPrefix(h, n - 1), Repeat(n - 1, h[n - 1]), n - 1);
    }
  }

  /** An ascending sequence below `b` followed by copies of `b` is
      ascending and stays at most `b`. */
  lemma AppendBlock(e: seq<int>, block: seq<int>, b: int)
    requires 0 <= b && Sorted(e) && forall i :: 0 <= i < |e| ==> 0 <= e[i] < b
    requires forall i :: 0 <= i < |block| ==> block[i] == b
    ensures Sorted(e + block)
    ensures forall i :: 0 <= i < |e + block| ==> 0 <= (e + block)[i] < b + 1
  {
    forall i, j | 0 <= i < j < |e + block| ensures (e + block)[i] <= (e + block)[j] {
      if j < |e| {
        assert (e + block)[i] == e[i] && (e + block)[j] == e[j];
      } else if i < |e| {
        assert (e + block)[i] == e[i];
      }
    }
  }

  lemma {:induction false} ExpandPrefixCounts(h: seq<int>, n: nat)
    requires NonNeg(h) && n <= |h|
    ensures forall v :: multiset(ExpandPrefix(h, n))[v] == if 0 <= v < n then h[v] else 0
  {
    if n > 0 {
      var k := n - 1;
      var e, r := ExpandPrefix(h, k), Repeat(k, h[k]);
      assert ExpandPrefix(h, n) == e + r;
      ExpandPrefixCounts(h, k);
      RepeatCount(k, h[k]);
      CountsStep(e, r, h, k, n);
    }
  }

  lemma CountsStep(e: seq<int>, r: seq<int>, h: seq<int>, k: nat, n: nat)
    requires n == k + 1 <= |h|
    requires forall v :: multiset(e)[v] == if 0 <= v < k then h[v] else 0
    requires forall v :: multiset(r)[v] == if v == k then h[k] else 0
    ensures forall v :: multiset(e + r)[v] == if 0 <= v < n then h[v] else 0
  {
    forall v ensures multiset(e + r)[v] == if 0 <= v < n then h[v] else 0 {
      assert multiset(e + r)[v] == multiset(e)[v] + multiset(r)[v];
    }
  }

  /** `c` copies of `v` hold `v` exactly `c` times and nothing else. */
  lemma {:induction false} RepeatCount(v: int, c: nat)
    ensures forall u :: multiset(Repeat(v, c))[u] == if u == v then c else 0
  {
    if c > 0 {
      RepeatCount(v, c - 1);
    }
  }

  /** Expanding more bins only appends. */
  lemma {:induction false} ExpandPrefixExtends(h: seq<int>, n: nat, m: nat)
    requires NonNeg(h) && n <= m <= |h|
    ensures |ExpandPrefix(h, n)| <= |ExpandPrefix(h, m)|
    ensures ExpandPrefix(h, m)[..|ExpandPrefix(h, n)|] == ExpandPrefix(h, n)
    decreases m - n
  {
    if n < m {
      ExpandPrefixExtends(h, n, m - 1);
      var e := ExpandPrefix(h, m - 1);
      assert ExpandPrefix(h, m)[..|e|] == e;
    }
  }

  /** The sample at position `t` of the expansion is the bin `i` whose
      cumulative counts straddle `t`: `Sum(h[..i]) <= t < Sum(h[..i+1])`. */
  lemma ExpandAt(h: seq<int>, i: nat, t: int)
    requires NonNeg(h) && i < |h|
    requires Sum(h[..i]) <= t < Sum(h[..i + 1])
    ensures 0 <= t < |Expand(h)| && Expand(h)[t] == i
  {
    ExpandPrefixFacts(h, i);
    ExpandPrefixFacts(h, i + 1);
    SumPrefix(h, i);
    ExpandPrefixExtends(h, i + 1, |h|);
    var e := ExpandPrefix(h, i + 1);
    assert e == ExpandPrefix(h, i) + Repeat(i, h[i]);
    assert e[t] == i;
    assert Expand(h)[t] == e[t];
  }

  /** `h` counts the samples `ms`, all of which are 8-bit values. */
  ghost predicate Tallies(h: seq<int>, ms: multiset<int>) {
    |h| == HistSize &&
    (forall v :: v in ms ==> 0 <= v < HistSize) &&
    (forall v :: 0 <= v < HistSize ==> h[v] == ms[v])
  }

  /** A histogram of the samples `s` expands to `Sort(s)`; so its counts
      are non-negative, sum to `|s|`, and its middle is the 8-bit median of
      `s`. */
  lemma ExpandIsSort(h: seq<int>, s: seq<int>)
    requires Tallies(h, multiset(s))
    ensures NonNeg(h) && Sum(h) == |s|
    ensures Expand(h) == Sort(s)
    ensures |s| > 0 ==> MiddleU8(Expand(h)) == MedianU8(s)
  {
    TalliesNonNeg(h, multiset(s));
    ExpandPrefixFacts(h, |h|);
    assert h[..|h|] == h;
    ExpandCounts(h, multiset(s));
    SortedPermIsSort(Expand(h), s);
  }

  lemma TalliesNonNeg(h: seq<int>, ms: multiset<int>)
    requires Tallies(h, ms)
    ensures NonNeg(h)
  {
    forall i | 0 <= i < |h| ensures h[i] >= 0 {
      assert h[i] == ms[i];
    }
  }

  lemma ExpandCounts(h: seq<int>, ms: multiset<int>)
    requires Tallies(h, ms) && NonNeg(h)
    requires forall v :: multiset(Expand(h))[v] == if 0 <= v < |h| then h[v] else 0
    ensures multiset(Expand(h)) == ms
  {
    forall v ensures multiset(Expand(h))[v] == ms[v] {
      if !(0 <= v < HistSize) {
        assert v !in ms;
      }
    }
  }

  /** Counting one more sample `v`. */
  lemma TalliesAdd(h: seq<int>, ms: multiset<int>, v: int)
    requires Tallies(h, ms) && 0 <= v < HistSize
    ensures Tallies(h[v := h[v] + 1], ms + multiset{v})
  {
  }

  /** Uncounting a sample `v` of the window. */
  lemma TalliesRemove(h: seq<int>, ms: multiset<int>, v: int)
    requires Tallies(h, ms) && v in ms
    ensures Tallies(h[v := h[v] - 1], ms - multiset{v})
  {
  }

  /** The histogram window of the 8-bit kernel.  `windowSize` is kept equal
      to the sum of the bins; `medianPos` is set by the constructor and not
      used by any operation. */
  class HistogramWindow {
    const histogram: array<int>
    var windowSize: int
    var medianPos: int

    ghost predicate Valid()
      reads this, histogram
    {
      histogram.Length == HistSize && windowSize == Sum(histogram[..])
    }

    /** An empty window: every bin zero. */
    constructor ()
      ensures Valid() && fresh(histogram)
      ensures Tallies(histogram[..], multiset{})
      ensures windowSize == 0 && medianPos == 0
    {
      histogram := new int[HistSize](_ => 0);
      windowSize := 0;
      medianPos := 0;
      new;
      SumZero(histogram[..]);
    }

    /** `add`: one more sample of value `value`. */
    method Add(value: Byte)
      requires Valid()
      modifies this, histogram
      ensures Valid() && medianPos == old(medianPos)
      ensures histogram[..] == old(histogram[..])[value := old(histogram[value]) + 1]
      ensures windowSize == old(windowSize) + 1
    {
      ghost var h0 := histogram[..];
      histogram[value] := histogram[value] + 1;
      windowSize := windowSize + 1;
      SumUpdate(h0, value, 1);
    }

    /** `remove`: one sample of value `value` fewer. */
    method Remove(value: Byte)
      requires Valid()
      modifies this, histogram
      ensures Valid() && medianPos == old(medianPos)
      ensures histogram[..] == old(histogram[..])[value := old(histogram[value]) - 1]
      ensures windowSize == old(windowSize) - 1
    {
      ghost var h0 := histogram[..];
      histogram[value] := histogram[value] - 1;
      windowSize := windowSize - 1;
      SumUpdate(h0, value, -1);
    }

    /** `clear`: every bin and the window size back to zero. */
    method Clear()
      requires histogram.Length == HistSize
      modifies this, histogram
      ensures Valid() && medianPos == old(medianPos)
      ensures Tallies(histogram[..], multiset{}) && windowSize == 0
    {
      forall i | 0 <= i < histogram.Length {
        histogram[i] := 0;
      }
      windowSize := 0;
      SumZero(histogram[..]);
    }

    /** `getMedian`: 0 for an empty window; otherwise the middle sample of
      the counted samples in ascending order (odd count), or the rounded-up
      mean of the two middle samples (even count), found by accumulating
      counts bin by bin. */
    method GetMedian() returns (m: Byte)
      requires Valid() && NonNeg(histogram[..])
      ensures windowSize == 0 ==> m == 0
      ensures windowSize > 0 ==> |Expand(histogram[..])| == windowSize && m == MiddleU8(Expand(histogram[..]))
    {
      if windowSize == 0 {
        return 0;
      }
      ExpandPrefixLength(histogram[..], HistSize);
      assert histogram[..][..HistSize] == histogram[..];
      if windowSize % 2 == 1 {
        m := SelectOdd(windowSize / 2);
      } else {
        var val1, val2 := SelectEven(windowSize / 2 - 1, windowSize / 2);
        m := (val1 as int + val2 as int + 1) / 2;
      }
    }

    /** The odd-count loop of `getMedian`: the first bin at which the
      running count exceeds `target` holds the sample at position `target`
      of the ascending order. */
    method SelectOdd(target: int) returns (i: Byte)
      requires Valid() && NonNeg(histogram[..])
      requires 0 <= target < windowSize
      ensures |Expand(histogram[..])| == windowSize && Expand(histogram[..])[target] == i
    {
      ghost var h := histogram[..];
      ExpandPrefixLength(h, |h|);
      assert h[..|h|] == h;
      var count := 0;
      i := 0;
      while i < HistSize
        invariant 0 <= i <= HistSize
        invariant count == Sum(h[..i]) <= target
      {
        SumPrefix(h, i);
        count := count + histogram[i];
        if count > target {
          ExpandAt(h, i, target);
          return i;
        }
        i := i + 1;
      }
      assert false;
    }

    /** The even-count loop of `getMedian`: `val1` and `val2` are the first
      bins at which the running count exceeds `target1` and `target2`, the
      samples at those positions of the ascending order. */
    method SelectEven(target1: int, target2: int) returns (val1: Byte, val2: Byte)
      requires Valid() && NonNeg(histogram[..])
      requires 0 <= target1 < target2 < windowSize
      ensures |Expand(histogram[..])| == windowSize
      ensures Expand(histogram[..])[target1] == val1 && Expand(histogram[..])[target2] == val2
    {
      ghost var h := histogram[..];
      ExpandPrefixLength(h, |h|);
      assert h[..|h|] == h;
      var count := 0;
      var v1, v2 := -1, -1;
      var i := 0;
      while i < HistSize
        invariant 0 <= i <= HistSize
        invariant count == Sum(h[..i]) <= target2
        invariant v2 == -1
        invariant v1 == -1 <==> count <= target1
        invariant v1 != -1 ==> 0 <= v1 < HistSize && Expand(h)[target1] == v1
      {
        SumPrefix(h, i);
        var newCount := count + histogram[i];
        if v1 == -1 && newCount > target1 {
          ExpandAt(h, i, target1);
          v1 := i;
        }
        if v2 == -1 && newCount > target2 {
          ExpandAt(h, i, target2);
          v2 := i;
          break;
        }
        count := newCount;
        i := i + 1;
      }
      if v2 == -1 {
        assert false;
      }
      val1, val2 := v1, v2;
    }
  }
}
