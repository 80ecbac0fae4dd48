/** The window of the bit-rank sliding median as a set of tile cells, and
    how it is held in the rank bitset.  The window around local cell (x, y)
    is the box of columns `[x-hx, x+hx]` and rows `[y-hy, y+hy]`, clipped to
    the tile; the bitset holds rank `r` exactly when the cell `sorted[r]`
    came from is in the window, so reading the set ranks in order reads the
    window's samples in ascending order. */
module RankWindow {
  import opened Sorting
  import opened Grid
  import opened BitRank
  import opened RankTable
  import opened Medians

  // ---------------------------------------------------------------------
  // The bitset and the window

  /** Bit `r` of the bitset is set exactly when `r` is a rank of the table
      and the cell of `sorted[r]` is in the window `cells`. */
  ghost predicate Members(s: seq<Word>, sorted: seq<Entry>, cells: set<int>) {
    |sorted| <= 64 * |s| &&
    forall r :: 0 <= r < 64 * |s| ==> (IsSet(s, r) <==> r < |sorted| && sorted[r].1 in cells)
  }

  lemma {:induction false} PopZero(b: nat)
    requires b <= 64
    ensures Pop(Zero(), b) == 0
  {
    if b > 0 {
      PopZero(b - 1);
    }
  }

  lemma {:induction false} PopWordsZero(s: seq<Word>, i: nat, j: nat)
    requires i <= j <= |s|
    requires forall q :: 0 <= q < |s| ==> s[q] == Zero()
    ensures PopWords(s, i, j) == 0
    decreases j - i
  {
    if i < j {
      PopWordsZero(s, i, j - 1);
      PopZero(64);
    }
  }

  /** A bitset of zero words holds the empty window, and its word counts
      are all zero. */
  lemma ZeroMembers(s: seq<Word>, sorted: seq<Entry>, p: nat)
    requires |sorted| <= 64 * |s| && p <= |s|
    requires forall q :: 0 <= q < |s| ==> s[q] == Zero()
    ensures Members(s, sorted, {})
    ensures PopWords(s, 0, p) == 0 && PopWords(s, p, |s|) == 0
  {
    PopWordsZero(s, 0, p);
    PopWordsZero(s, p, |s|);
    forall r | 0 <= r < 64 * |s| ensures !IsSet(s, r) {
      WordInRange(r, |s|);
    }
  }

  /** Toggling the rank of tile cell `k` adds `k` to the window when it was
      out of it and removes it when it was in it, and the bit was clear
      exactly when `k` was out. */
  lemma MembersFlip(s: seq<Word>, sorted: seq<Entry>, ranks: seq<int>, tile: seq<int>,
                    cells: set<int>, k: nat, add: bool)
    requires Members(s, sorted, cells) && Tables(sorted, ranks, tile) && k < |tile|
    requires add <==> k !in cells
    ensures 0 <= ranks[k] < |sorted| && ranks[k] < 64 * |s|
    ensures IsSet(s, ranks[k]) == !add
    ensures Members(Toggle(s, ranks[k]), sorted, if add then cells + {k} else cells - {k})
  {
    var r0 := ranks[k];
    var cells' := if add then cells + {k} else cells - {k};
    forall r | 0 <= r < 64 * |s|
      ensures IsSet(Toggle(s, r0), r) <==> r < |sorted| && sorted[r].1 in cells'
    {
      ToggleIsSet(s, r0, r);
      if r != r0 && r < |sorted| {
        assert ranks[sorted[r].1] == r;
      }
    }
  }

  /** The values picked from the bitset below `m` are the samples of the
      window's entries among `sorted[..m]`, in order. */
  lemma {:induction false} PickedKept(s: seq<Word>, sorted: seq<Entry>, cells: set<int>, m: nat)
    requires Members(s, sorted, cells) && m <= |sorted|
    ensures Picked(s, Values(sorted), m) == Kept(sorted[..m], cells)
  {
    if m > 0 {
      PickedKept(s, sorted, cells, m - 1);
      var es := sorted[..m];
      assert es[..|es| - 1] == sorted[..m - 1];
      assert es[|es| - 1] == sorted[m - 1];
    }
  }

  /** Reading the set ranks in order reads the window's samples sorted: the
      picked values are an ascending permutation of the window's samples
      in tile order, as many as the words have set bits. */
  lemma SamplesPicked(s: seq<Word>, sorted: seq<Entry>, tile: seq<int>, cells: set<int>)
    requires Members(s, sorted, cells)
    requires Sorted(Values(sorted)) && multiset(sorted) == multiset(Pairs(tile))
    ensures Sorted(Picked(s, Values(sorted), |sorted|))
    ensures multiset(Picked(s, Values(sorted), |sorted|)) == multiset(Kept(Pairs(tile), cells))
    ensures PopWords(s, 0, |s|) == |Picked(s, Values(sorted), |sorted|)| == |Kept(Pairs(tile), cells)|
  {
    var v := Values(sorted);
    PickedKept(s, sorted, cells, |sorted|);
    assert sorted[..|sorted|] == sorted;
    KeptPerm(sorted, Pairs(tile), cells);
    PickedSorted(s, v, |sorted|);
    PickedLength(s, v, |sorted|);
    CountTail(s, |sorted|, 64 * |s|);
    CountAll(s);
    assert |multiset(Kept(sorted, cells))| == |multiset(Kept(Pairs(tile), cells))|;
    assert |Picked(s, v, |sorted|)| == |multiset(Picked(s, v, |sorted|))|;
  }

  /** The bitset has as many set bits as the window has samples. */
  lemma WindowCount(s: seq<Word>, sorted: seq<Entry>, tile: seq<int>, cells: set<int>)
    requires Members(s, sorted, cells)
    requires Sorted(Values(sorted)) && multiset(sorted) == multiset(Pairs(tile))
    ensures PopWords(s, 0, |s|) == |Kept(Pairs(tile), cells)|
  {
    SamplesPicked(s, sorted, tile, cells);
  }

  /** The set rank `r` with `t` set ranks below it holds the `t`-th
      smallest picked value. */
  lemma PickedRank(s: seq<Word>, sorted: seq<Entry>, t: nat, r: nat)
    requires |sorted| <= 64 * |s| && r < |sorted| && IsSet(s, r) && Count(s, r) == t
    ensures t < |Picked(s, Values(sorted), |sorted|)|
    ensures Picked(s, Values(sorted), |sorted|)[t] == sorted[r].0
  {
    PickedAt(s, Values(sorted), |sorted|, r);
  }

  /** The picked values at the two middle positions of `sum` picked
      values are those of the ranks with `(sum - 1) / 2` and `sum / 2` set
      ranks below them. */
  lemma PickedMiddles(s: seq<Word>, sorted: seq<Entry>, sum: nat, r1: nat, r2: nat)
    requires |sorted| <= 64 * |s| && |Picked(s, Values(sorted), |sorted|)| == sum > 0
    requires r1 < |sorted| && IsSet(s, r1) && Count(s, r1) == (sum - 1) / 2
    requires r2 < |sorted| && IsSet(s, r2) && Count(s, r2) == sum / 2
    ensures var p := Picked(s, Values(sorted), |sorted|);
      p[|p| / 2] == sorted[r2].0 && (|p| % 2 == 0 ==> p[|p| / 2 - 1] == sorted[r1].0)
  {
    var t1, t2 := (sum - 1) / 2, sum / 2;
    PickedRank(s, sorted, t1, r1);
    PickedRank(s, sorted, t2, r2);
    assert sum % 2 == 0 ==> t1 == t2 - 1;
  }

  /** The median of the window is read off the set ranks `r1` and `r2`
      with `(sum - 1) / 2` and `sum / 2` set ranks below them, where `sum`
      is the number of set bits: one middle value for an odd count, the
      mean of the two middles for an even one. */
  lemma MedianFromRanks(s: seq<Word>, sorted: seq<Entry>, tile: seq<int>, cells: set<int>, r1: nat, r2: nat)
    requires Members(s, sorted, cells)
    requires Sorted(Values(sorted)) && multiset(sorted) == multiset(Pairs(tile))
    requires r1 < |sorted| && IsSet(s, r1) && Count(s, r1) == (PopWords(s, 0, |s|) - 1) / 2
    requires r2 < |sorted| && IsSet(s, r2) && Count(s, r2) == PopWords(s, 0, |s|) / 2
    ensures PopWords(s, 0, |s|) == |Kept(Pairs(tile), cells)| > 0
    ensures MedianOf(Kept(Pairs(tile), cells)) ==
      if PopWords(s, 0, |s|) % 2 == 1 then sorted[r2].0 as real else Mean(sorted[r1].0, sorted[r2].0)
  {
    var p := SortedWindow(s, sorted, tile, cells, r1, r2);
    MedianFromSorted(Kept(Pairs(tile), cells), p, sorted[r1].0, sorted[r2].0);
  }

  /** The window's samples in ascending order, with the values of `r1` and
      `r2` at its middle positions. */
  lemma SortedWindow(s: seq<Word>, sorted: seq<Entry>, tile: seq<int>, cells: set<int>, r1: nat, r2: nat)
    returns (p: seq<int>)
    requires Members(s, sorted, cells)
    requires Sorted(Values(sorted)) && multiset(sorted) == multiset(Pairs(tile))
    requires r1 < |sorted| && IsSet(s, r1) && Count(s, r1) == (PopWords(s, 0, |s|) - 1) / 2
    requires r2 < |sorted| && IsSet(s, r2) && Count(s, r2) == PopWords(s, 0, |s|) / 2
    ensures Sorted(p) && multiset(p) == multiset(Kept(Pairs(tile), cells))
    ensures |p| == PopWords(s, 0, |s|) == |Kept(Pairs(tile), cells)| > 0
    ensures p[|p| / 2] == sorted[r2].0 && (|p| % 2 == 0 ==> p[|p| / 2 - 1] == sorted[r1].0)
  {
    SamplesPicked(s, sorted, tile, cells);
    p := Picked(s, Values(sorted), |sorted|);
    PickedMiddles(s, sorted, |p|, r1, r2);
  }

  // ---------------------------------------------------------------------
  // Boxes of tile cells

  /** A box splits at any column between its edges into two disjoint boxes. */
  lemma BoxSplitCols(bw: nat, n: nat, xa: int, xm: int, xb: int, ya: int, yb: int)
    requires bw > 0 && xa <= xm <= xb + 1
    ensures Box(bw, n, xa, xb, ya, yb) == Box(bw, n, xa, xm - 1, ya, yb) + Box(bw, n, xm, xb, ya, yb)
    ensures Box(bw, n, xa, xm - 1, ya, yb) !! Box(bw, n, xm, xb, ya, yb)
  {
  }

  /** A box splits at any row between its edges into two disjoint boxes. */
  lemma BoxSplitRows(bw: nat, n: nat, xa: int, xb: int, ya: int, ym: int, yb: int)
    requires bw > 0 && ya <= ym <= yb + 1
    ensures Box(bw, n, xa, xb, ya, yb) == Box(bw, n, xa, xb, ya, ym - 1) + Box(bw, n, xa, xb, ym, yb)
    ensures Box(bw, n, xa, xb, ya, ym - 1) !! Box(bw, n, xa, xb, ym, yb)
  {
  }

  /** A box with no column or no row inside a `bw`-by-`bh` tile is empty. */
  lemma BoxOutside(bw: nat, bh: nat, n: nat, xa: int, xb: int, ya: int, yb: int)
    requires bw > 0 && n == Mul(bh, bw)
    requires xb < 0 || xa >= bw || yb < 0 || ya >= bh || xa > xb || ya > yb
    ensures Box(bw, n, xa, xb, ya, yb) == {}
  {
    forall k | 0 <= k < n ensures k !in Box(bw, n, xa, xb, ya, yb) {
      IndexOf(k, bh, bw);
    }
  }

  /** The box of one cell inside the tile is that cell's index. */
  lemma BoxCell(bw: nat, bh: nat, n: nat, ix: int, jy: int)
    requires bw > 0 && n == Mul(bh, bw) && 0 <= ix < bw && 0 <= jy < bh
    ensures Mul(jy, bw) + ix < n
    ensures Box(bw, n, ix, ix, jy, jy) == {Mul(jy, bw) + ix}
  {
    InBox(bw, bh, n, ix, ix, jy, jy, ix, jy);
    forall k | k in Box(bw, n, ix, ix, jy, jy) ensures k == Mul(jy, bw) + ix {
      IndexOf(k, bh, bw);
    }
  }

  // ---------------------------------------------------------------------
  // The geometry of a block along one axis

  /** One axis of a block: its own span `[i0, i1]` of an image axis of
      length `len`, the span `[b0, b1]` extended by the half-size `h` on
      each side and clipped to the image, that span's length `size`, and
      the block's own span in local coordinates `[l0, l1]`. */
  predicate Axis(len: int, h: int, i0: int, i1: int, b0: int, b1: int, size: int, l0: int, l1: int) {
    h >= 0 && 0 <= i0 <= i1 < len && b0 == Max(i0 - h, 0) && b1 == Min(i1 + h, len - 1) &&
    size == b1 - b0 + 1 && l0 == i0 - b0 && l1 == i1 - b0
  }

  /** For a local coordinate `v` of the block, clipping the window to the
      extended span and shifting it by `b0` is clipping the window of
      `v + b0` to the image: the halo holds every sample a window of the
      block reaches. */
  lemma AxisClip(len: int, h: int, i0: int, i1: int, b0: int, b1: int, size: int, l0: int, l1: int, v: int)
    requires Axis(len, h, i0, i1, b0, b1, size, l0, l1) && l0 <= v <= l1
    ensures 0 <= b0 && 0 <= l0 <= h && 0 <= v < size && b0 + size <= len
    ensures b0 + Max(v - h, 0) == Max(v + b0 - h, 0)
    ensures b0 + Min(v + h + 1, size) == Min(v + b0 + h + 1, len)
    ensures Max(v - h, 0) <= Min(v + h + 1, size)
  {
  }
}
