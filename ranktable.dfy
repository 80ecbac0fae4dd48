/** The tile of the bit-rank sliding median and its two tables: `sorted`, the
    tile's samples paired with their tile index and ordered by value, and
    `ranks`, its inverse, the position in `sorted` of each tile index.  A
    tile of width `bw` stores local cell (column `ix`, row `jy`) at index
    `Mul(jy, bw) + ix`. */
module RankTable {
  import opened Sorting
  import opened Grid

  /** `std::pair<float, int>`: a sample and its index in the tile. */
  type Entry = (int, int)

  /** The samples of a sequence of entries, in order. */
  function Values(es: seq<Entry>): (vs: seq<int>)
    ensures |vs| == |es|
  {
    seq(|es|, i requires 0 <= i < |es| => es[i].0)
  }

  /** The entries `{tile[k], k}` the constructor's fill loop writes, in
      index order. */
  function Pairs(tile: seq<int>): (es: seq<Entry>)
    ensures |es| == |tile|
  {
    seq(|tile|, k requires 0 <= k < |tile| => (tile[k], k))
  }

  /** The samples of the entries whose tile index lies in `cells`, in
      order. */
  function Kept(es: seq<Entry>, cells: set<int>): seq<int>
    decreases |es|
  {
    if es == [] then []
    else Kept(es[..|es| - 1], cells) + (if es[|es| - 1].1 in cells then [es[|es| - 1].0] else [])
  }

  /** The table invariants the constructor establishes for the tile `tile`
      of `n` samples: `sorted` is an ordering by value of the entries
      `{tile[k], k}`, and `ranks[sorted[i].second] == i` with `ranks` a
      bijection of `[0, n)`. */
  ghost predicate Tables(sorted: seq<Entry>, ranks: seq<int>, tile: seq<int>) {
    |sorted| == |ranks| == |tile| &&
    Sorted(Values(sorted)) &&
    multiset(sorted) == multiset(Pairs(tile)) &&
    (forall i :: 0 <= i < |sorted| ==> 0 <= sorted[i].1 < |tile| && ranks[sorted[i].1] == i) &&
    (forall k :: 0 <= k < |ranks| ==> 0 <= ranks[k] < |sorted| && sorted[ranks[k]].1 == k)
  }

  // ---------------------------------------------------------------------
  // Sorting the entries by value (the `std::sort` with the `a.first <
  // b.first` comparator)

  predicate SortedByValue(es: seq<Entry>) {
    forall i, j :: 0 <= i < j < |es| ==> es[i].0 <= es[j].0
  }

  /** Insert `e` into a sequence of entries ordered by value. */
  function InsertEntry(e: Entry, es: seq<Entry>): (r: seq<Entry>)
    requires SortedByValue(es)
    ensures SortedByValue(r)
    ensures multiset(r) == multiset(es) + multiset{e}
  {
    if es == [] || e.0 <= es[0].0 then
      [e] + es
    else
      var rest := InsertEntry(e, es[1..]);
      HeadBelowInsertEntry(e, es, rest);
      [es[0]] + rest
  }

  lemma HeadBelowInsertEntry(e: Entry, es: seq<Entry>, rest: seq<Entry>)
    requires SortedByValue(es) && es != [] && es[0].0 < e.0
    requires multiset(rest) == multiset(es[1..]) + multiset{e}
    ensures forall k :: 0 <= k < |rest| ==> es[0].0 <= rest[k].0
    ensures multiset([es[0]] + rest) == multiset(es) + multiset{e}
  {
    forall k | 0 <= k < |rest| ensures es[0].0 <= rest[k].0 {
      assert rest[k] in multiset(rest);
      if rest[k] != e {
        assert rest[k] in multiset(es[1..]);
        var j :| 0 <= j < |es[1..]| && es[1..][j] == rest[k];
        assert es[j + 1] == rest[k];
      }
    }
    assert es == [es[0]] + es[1..];
  }

  /** An ordering by value of `es` (insertion sort). */
  function SortByValue(es: seq<Entry>): (r: seq<Entry>)
    ensures SortedByValue(r)
    ensures multiset(r) == multiset(es)
  {
    if es == [] then []
    else
      assert es == [es[0]] + es[1..];
      InsertEntry(es[0], SortByValue(es[1..]))
  }

  /** `std::sort(sorted.begin(), sorted.end(), by value)`: the entries are
      permuted into ascending order of value.  Only this contract is used;
      the body stands for the library. */
  method SortEntries(a: array<Entry>)
    modifies a
    ensures Sorted(Values(a[..])) && multiset(a[..]) == multiset(old(a[..]))
  {
    var s := SortByValue(a[..]);
    assert |s| == a.Length by {
      assert |multiset(s)| == |multiset(a[..])|;
    }
    forall i | 0 <= i < a.Length {
      a[i] := s[i];
    }
    assert a[..] == s;
  }

  // ---------------------------------------------------------------------
  // The entries of a tile: each index once, with its own sample

  /** `Pairs(tile)` holds `(v, k)` once when `v` is the sample at index `k`
      of the tile, and not at all otherwise. */
  lemma PairsCount(tile: seq<int>, e: Entry)
    ensures multiset(Pairs(tile))[e] == if 0 <= e.1 < |tile| && e.0 == tile[e.1] then 1 else 0
  {
    PairsPrefixCount(tile, |tile|, e);
    assert Pairs(tile)[..|tile|] == Pairs(tile);
  }

  lemma {:induction false} PairsPrefixCount(tile: seq<int>, m: nat, e: Entry)
    requires m <= |tile|
    ensures multiset(Pairs(tile)[..m])[e] == if 0 <= e.1 < m && e.0 == tile[e.1] then 1 else 0
  {
    if m > 0 {
      PairsPrefixCount(tile, m - 1, e);
      assert Pairs(tile)[..m] == Pairs(tile)[..m - 1] + [(tile[m - 1], m - 1)];
    }
  }

  /** Two equal elements at different positions occur twice. */
  lemma TwoCopies(s: seq<Entry>, i: nat, j: nat)
    requires i < j < |s| && s[i] == s[j]
    ensures multiset(s)[s[i]] >= 2
  {
    assert s == s[..j] + s[j..];
    assert s[i] == s[..j][i];
    assert s[j] == s[j..][0];
    assert s[i] in multiset(s[..j]) && s[j] in multiset(s[j..]);
  }

  /** Every entry of a permutation of `Pairs(tile)` carries a tile index and
      the sample at that index. */
  lemma EntryOf(es: seq<Entry>, tile: seq<int>, i: nat)
    requires multiset(es) == multiset(Pairs(tile)) && i < |es|
    ensures 0 <= es[i].1 < |tile| && es[i].0 == tile[es[i].1]
  {
    assert es[i] in multiset(es);
    PairsCount(tile, es[i]);
  }

  /** In a permutation of `Pairs(tile)`, no two positions carry the same
      tile index. */
  lemma EntriesDistinct(es: seq<Entry>, tile: seq<int>, i: nat, j: nat)
    requires multiset(es) == multiset(Pairs(tile))
    requires i < |es| && j < |es| && i != j
    ensures es[i].1 != es[j].1
  {
    EntryOf(es, tile, i);
    EntryOf(es, tile, j);
    if es[i].1 == es[j].1 {
      if i < j {
        TwoCopies(es, i, j);
      } else {
        TwoCopies(es, j, i);
      }
      PairsCount(tile, es[i]);
      assert false;
    }
  }

  /** In a permutation of `Pairs(tile)`, every tile index has a position. */
  lemma EntryFor(es: seq<Entry>, tile: seq<int>, k: nat) returns (i: nat)
    requires multiset(es) == multiset(Pairs(tile)) && k < |tile|
    ensures i < |es| && es[i].1 == k
  {
    PairsCount(tile, (tile[k], k));
    assert (tile[k], k) in multiset(es);
    i :| 0 <= i < |es| && es[i] == (tile[k], k);
  }

  // ---------------------------------------------------------------------
  // The constructor's tables

  /** The constructor of `Block` from its fill loop to its rank loop: fill
      `sorted` with `{tile[k], k}` row by row, sort it by value, and record
      `ranks[sorted[i].second] = i`.  `tile` is the halo-extended tile,
      rows `[y0b, y0b + bh)` and columns `[x0b, x0b + bw)` of the image. */
  method BuildTables(img: seq<int>, nx: nat, y0b: nat, x0b: nat, bw: nat, bh: nat)
      returns (sorted: seq<Entry>, ranks: seq<int>)
    requires x0b + bw <= nx && Mul(y0b + bh, nx) <= |img|
    ensures Tables(sorted, ranks, Rows(img, nx, y0b, y0b + bh, x0b, x0b + bw))
  {
    ghost var tile := Rows(img, nx, y0b, y0b + bh, x0b, x0b + bw);
    RowsLength(img, nx, y0b, y0b + bh, x0b, x0b + bw);
    var n := Mul(bh, bw);
    var entries := new Entry[n];
    var dy := 0;
    while dy < bh
      invariant dy <= bh && Mul(dy, bw) <= n
      invariant forall k :: 0 <= k < Mul(dy, bw) ==> entries[k] == (tile[k], k)
    {
      var next := dy + 1;
      FillRow(img, nx, y0b, x0b, bw, bh, tile, entries, dy, next);
      dy := next;
    }
    assert entries[..] == Pairs(tile);
    SortEntries(entries);
    sorted := entries[..];
    ranks := RankLoop(sorted, tile);
  }

  /** The inner fill loop over row `dy`, whose successor is `next`:
      `sorted[dy*bw + dx] = {in[(y0b+dy)*nx + x0b+dx], dy*bw + dx}`. */
  method FillRow(img: seq<int>, nx: nat, y0b: nat, x0b: nat, bw: nat, bh: nat, ghost tile: seq<int>,
                 entries: array<Entry>, dy: nat, next: nat)
    requires next == dy + 1
    requires x0b + bw <= nx && Mul(y0b + bh, nx) <= |img|
    requires tile == Rows(img, nx, y0b, y0b + bh, x0b, x0b + bw)
    requires dy < bh && entries.Length == Mul(bh, bw) == |tile| && Mul(dy, bw) <= entries.Length
    requires forall k :: 0 <= k < Mul(dy, bw) ==> entries[k] == (tile[k], k)
    modifies entries
    ensures Mul(next, bw) <= entries.Length
    ensures forall k :: 0 <= k < Mul(next, bw) ==> entries[k] == (tile[k], k)
  {
    var base := Mul(dy, bw);
    assert Mul(next, bw) == base + bw <= entries.Length by {
      MulMono(next, bh, bw, bw);
    }
    var dx := 0;
    while dx < bw
      invariant dx <= bw
      invariant forall k :: 0 <= k < base + dx ==> entries[k] == (tile[k], k)
    {
      var k := base + dx;
      TileAt(img, nx, y0b, x0b, bw, bh, tile, dy, dx);
      entries[k] := (img[Mul(y0b + dy, nx) + (x0b + dx)], k);
      dx := dx + 1;
    }
  }

  /** The rank loop `ranks[sorted[i].second] = i` over a sorted permutation
      of `Pairs(tile)`. */
  method RankLoop(sorted: seq<Entry>, ghost tile: seq<int>) returns (ranks: seq<int>)
    requires Sorted(Values(sorted)) && multiset(sorted) == multiset(Pairs(tile))
    ensures Tables(sorted, ranks, tile)
  {
    var n := |sorted|;
    assert n == |tile| by {
      assert |multiset(sorted)| == |multiset(Pairs(tile))|;
    }
    var table := new int[n];
    var i := 0;
    while i < n
      invariant i <= n
      invariant forall j :: 0 <= j < i ==> 0 <= sorted[j].1 < n && table[sorted[j].1] == j
    {
      EntryOf(sorted, tile, i);
      forall j | 0 <= j < i ensures sorted[j].1 != sorted[i].1 {
        EntriesDistinct(sorted, tile, j, i);
      }
      table[sorted[i].1] := i;
      i := i + 1;
    }
    ranks := table[..];
    forall k | 0 <= k < n ensures 0 <= ranks[k] < n && sorted[ranks[k]].1 == k {
      var j := EntryFor(sorted, tile, k);
    }
  }

  // ---------------------------------------------------------------------
  // Rectangles of the tile

  /** Element (j, c) of a block of rows `cw == c1 - c0` wide is the image
      sample at row `r0 + j`, column `c0 + c`. */
  lemma {:induction false} RowsAt(g: seq<int>, w: nat, r0: nat, r1: nat, c0: nat, c1: nat, cw: nat, j: nat, c: nat)
    requires c0 <= c1 <= w && r0 <= r1 && Mul(r1, w) <= |g| && cw == c1 - c0
    requires r0 + j < r1 && c < cw
    ensures Mul(j, cw) + c < |Rows(g, w, r0, r1, c0, c1)|
    ensures Mul(r0 + j, w) + c0 + c < |g|
    ensures Rows(g, w, r0, r1, c0, c1)[Mul(j, cw) + c] == g[Mul(r0 + j, w) + c0 + c]
    decreases r1 - r0
  {
    var last := r1 - 1;
    assert Mul(r0 + j, w) + c0 + c < |g| by {
      IndexInGrid(r0 + j, c0 + c, r1, w);
    }
    var b := Mul(last, w);
    var whole, prefix := Rows(g, w, r0, r1, c0, c1), Rows(g, w, r0, last, c0, c1);
    var row := g[b + c0 .. b + c1];
    assert whole == prefix + row && |row| == cw by {
      LastRow(g, w, r0, last, r1, c0, c1);
    }
    var k := last - r0;
    assert |prefix| == Mul(k, cw) by {
      RowsLength(g, w, r0, last, c0, c1);
    }
    var i := Mul(j, cw) + c;
    if r0 + j < last {
      assert i < |prefix| by {
        IndexInGrid(j, c, k, cw);
      }
      RowsAt(g, w, r0, last, c0, c1, cw, j, c);
      assert whole[i] == prefix[i];
    } else {
      assert j == k && r0 + j == last;
      assert whole[i] == row[c];
    }
  }

  /** Sample (j, c) of a tile cut from an image at row `Y0`, column `X0`
      is the image sample at row `Y0 + j`, column `X0 + c`. */
  lemma {:induction false} TileAt(img: seq<int>, nx: nat, Y0: nat, X0: nat, bw: nat, bh: nat, tile: seq<int>,
                                  j: nat, c: nat)
    requires X0 + bw <= nx && Mul(Y0 + bh, nx) <= |img|
    requires tile == Rows(img, nx, Y0, Y0 + bh, X0, X0 + bw)
    requires j < bh && c < bw
    ensures |tile| == Mul(bh, bw) && Mul(j, bw) + c < |tile| && Mul(Y0 + j, nx) + (X0 + c) < |img|
    ensures tile[Mul(j, bw) + c] == img[Mul(Y0 + j, nx) + (X0 + c)]
  {
    assert (Y0 + bh) - Y0 == bh && (X0 + bw) - X0 == bw;
    RowsLength(img, nx, Y0, Y0 + bh, X0, X0 + bw);
    RowsAt(img, nx, Y0, Y0 + bh, X0, X0 + bw, bw, j, c);
  }

  /** Sample (j, c) of the tile is image sample (Y0 + j, X0 + c). */
  ghost predicate TileCell(tile: seq<int>, bw: nat, img: seq<int>, nx: nat, Y0: nat, X0: nat, j: nat, c: nat) {
    Mul(j, bw) + c < |tile| && Mul(Y0 + j, nx) + (X0 + c) < |img| &&
    tile[Mul(j, bw) + c] == img[Mul(Y0 + j, nx) + (X0 + c)]
  }

  /** Columns `[c0, c1)` of row `j` of a tile cut from an image are the
      same columns of the image row. */
  lemma {:induction false} TileRow(img: seq<int>, nx: nat, Y0: nat, X0: nat, bw: nat, bh: nat, tile: seq<int>,
                                   j: nat, c0: nat, c1: nat)
    requires X0 + bw <= nx && Mul(Y0 + bh, nx) <= |img|
    requires tile == Rows(img, nx, Y0, Y0 + bh, X0, X0 + bw)
    requires j < bh && c0 <= c1 <= bw
    ensures |tile| == Mul(bh, bw) && Mul(j, bw) + c1 <= |tile| && Mul(Y0 + j, nx) + (X0 + c1) <= |img|
    ensures tile[Mul(j, bw) + c0 .. Mul(j, bw) + c1] == img[Mul(Y0 + j, nx) + (X0 + c0) .. Mul(Y0 + j, nx) + (X0 + c1)]
  {
    forall c | c0 <= c < c1
      ensures TileCell(tile, bw, img, nx, Y0, X0, j, c)
    {
      TileAt(img, nx, Y0, X0, bw, bh, tile, j, c);
    }
    assert (Y0 + bh) - Y0 == bh && (X0 + bw) - X0 == bw;
    RowsLength(img, nx, Y0, Y0 + bh, X0, X0 + bw);
    RowSlice(img, nx, Y0, X0, bw, bh, tile, j, c0, c1);
  }

  /** Columns `[c0, c1)` of row `j` agree when each of their samples does. */
  lemma {:induction false} RowSlice(img: seq<int>, nx: nat, Y0: nat, X0: nat, bw: nat, bh: nat, tile: seq<int>,
                                    j: nat, c0: nat, c1: nat)
    requires X0 + bw <= nx && Mul(Y0 + bh, nx) <= |img| && |tile| == Mul(bh, bw)
    requires j < bh && c0 <= c1 <= bw
    requires forall c :: c0 <= c < c1 ==> TileCell(tile, bw, img, nx, Y0, X0, j, c)
    ensures Mul(j, bw) + c1 <= |tile| && Mul(Y0 + j, nx) + (X0 + c1) <= |img|
    ensures tile[Mul(j, bw) + c0 .. Mul(j, bw) + c1] == img[Mul(Y0 + j, nx) + (X0 + c0) .. Mul(Y0 + j, nx) + (X0 + c1)]
  {
    MulMono(j + 1, bh, bw, bw);
    assert Mul(j + 1, bw) == Mul(j, bw) + bw;
    MulMono(Y0 + j + 1, Y0 + bh, nx, nx);
    assert Mul(Y0 + j + 1, nx) == Mul(Y0 + j, nx) + nx;
    var A := tile[Mul(j, bw) + c0 .. Mul(j, bw) + c1];
    var B := img[Mul(Y0 + j, nx) + (X0 + c0) .. Mul(Y0 + j, nx) + (X0 + c1)];
    forall i | 0 <= i < c1 - c0
      ensures A[i] == B[i]
    {
      assert TileCell(tile, bw, img, nx, Y0, X0, j, c0 + i);
      assert Mul(j, bw) + (c0 + i) == Mul(j, bw) + c0 + i;
      assert Mul(Y0 + j, nx) + (X0 + (c0 + i)) == Mul(Y0 + j, nx) + (X0 + c0) + i;
    }
    assert A == B;
  }

  // ---------------------------------------------------------------------
  // Keeping the samples of a set of cells

  lemma {:induction false} KeptConcat(a: seq<Entry>, b: seq<Entry>, cells: set<int>)
    ensures Kept(a + b, cells) == Kept(a, cells) + Kept(b, cells)
    decreases |b|
  {
    if b == [] {
      assert a + b == a;
    } else {
      var b' := b[..|b| - 1];
      assert (a + b)[..|a + b| - 1] == a + b';
      KeptConcat(a, b', cells);
    }
  }

  /** Permuted entries keep permuted samples, whatever the cells. */
  lemma {:induction false} KeptPerm(a: seq<Entry>, b: seq<Entry>, cells: set<int>)
    requires multiset(a) == multiset(b)
    ensures multiset(Kept(a, cells)) == multiset(Kept(b, cells))
    decreases |a|
  {
    if a == [] {
      assert |b| == |multiset(b)| == 0;
    } else {
      var x, a' := a[|a| - 1], a[..|a| - 1];
      assert a == a' + [x];
      assert x in multiset(b);
      var k :| 0 <= k < |b| && b[k] == x;
      var b' := b[..k] + b[k + 1..];
      assert b == b[..k] + [x] + b[k + 1..];
      assert multiset(b') == multiset(b) - multiset{x};
      assert multiset(a') == multiset(a) - multiset{x};
      KeptPerm(a', b', cells);
      KeptConcat(a', [x], cells);
      KeptConcat(b[..k], [x], cells);
      KeptConcat(b[..k] + [x], b[k + 1..], cells);
      KeptConcat(b[..k], b[k + 1..], cells);
    }
  }

  // ---------------------------------------------------------------------
  // Rectangles of local cells

  /** The tile indices of the local cells with column in `[xa, xb]` and row
      in `[ya, yb]`, both inclusive, among the `n` cells of a tile of width
      `bw`: the cells `add_rank` accepts, clipped to the tile. */
  function Box(bw: nat, n: nat, xa: int, xb: int, ya: int, yb: int): set<int>
    requires bw > 0
  {
    set k: int | 0 <= k < n && xa <= ColOf(k, bw) <= xb && ya <= RowOf(k, bw) <= yb
  }

  /** Local cell (ix, jy) of a `bw`-by-`bh` tile is in a box exactly when its
      column and row are. */
  lemma {:induction false} InBox(bw: nat, bh: nat, n: nat, xa: int, xb: int, ya: int, yb: int, ix: nat, jy: nat)
    requires bw > 0 && n == Mul(bh, bw) && ix < bw && jy < bh
    ensures Mul(jy, bw) + ix < n
    ensures Mul(jy, bw) + ix in Box(bw, n, xa, xb, ya, yb) <==> xa <= ix <= xb && ya <= jy <= yb
  {
    IndexInGrid(jy, ix, bh, bw);
    CellOf(jy, ix, bw);
  }

  /** Among the indices `[lo, hi)`, `cells` holds exactly `[a, b)`. */
  predicate Holds(cells: set<int>, lo: nat, a: nat, b: nat, hi: nat) {
    forall k :: lo <= k < hi ==> (k in cells <==> a <= k < b)
  }

  /** When the cells kept among the indices `[lo, hi)` are exactly `[a, b)`,
      the kept samples are `tile[a..b]`. */
  lemma {:induction false} KeptSegment(tile: seq<int>, cells: set<int>, lo: nat, a: nat, b: nat, hi: nat)
    requires lo <= a <= b <= hi <= |tile| && Holds(cells, lo, a, b, hi)
    ensures Kept(Pairs(tile)[lo..hi], cells) == tile[a..b]
    decreases hi
  {
    if hi > lo {
      var last := hi - 1;
      var seg, e := Pairs(tile)[lo..last], Pairs(tile)[last];
      var a', b' := Min(a, last), Min(b, last);
      KeptSegment(tile, cells, lo, a', b', last);
      assert Pairs(tile)[lo..hi] == seg + [e];
      KeptConcat(seg, [e], cells);
      assert [e][..0] == [];
      if last in cells {
        assert Kept([e], cells) == [tile[last]];
        assert a' == a && b' == last && b == hi;
        SliceSnoc(tile, a, last, hi);
      } else {
        assert Kept([e], cells) == [];
        if b == hi {
          assert a == b && a' == b';
          assert tile[a'..b'] == [] == tile[a..b];
        } else {
          assert a' == a && b' == b;
        }
      }
    }
  }

  /** The entries of row `j` of a tile of width `bw`, in index order. */
  function RowEntries(tile: seq<int>, bw: nat, j: nat): seq<Entry>
    requires Mul(j, bw) + bw <= |tile|
  {
    Pairs(tile)[Mul(j, bw) .. Mul(j, bw) + bw]
  }

  /** Row `j` of the tile keeps, of `cells`, columns `[c0, c1)` of image
      row `Y0 + j`, offset by `X0`. */
  ghost predicate RowKeepsIn(tile: seq<int>, cells: set<int>, bw: nat, j: nat,
                             img: seq<int>, nx: nat, Y0: nat, X0: nat, c0: nat, c1: nat) {
    && Mul(j, bw) + bw <= |tile|
    && c0 <= c1 && Mul(Y0 + j, nx) + (X0 + c1) <= |img|
    && Kept(RowEntries(tile, bw, j), cells) == img[Mul(Y0 + j, nx) + (X0 + c0) .. Mul(Y0 + j, nx) + (X0 + c1)]
  }

  /** Row `j` of the tile keeps nothing of `cells`. */
  ghost predicate RowKeepsNone(tile: seq<int>, cells: set<int>, bw: nat, j: nat) {
    Mul(j, bw) + bw <= |tile| && Kept(RowEntries(tile, bw, j), cells) == []
  }

  /** Row by row, `cells` keeps the image's columns `[X0 + c0, X0 + c1)` of
      the tile rows `[r0, r1)`, and nothing of the other rows. */
  ghost predicate RowsKeep(tile: seq<int>, cells: set<int>, bw: nat, bh: nat,
                           img: seq<int>, nx: nat, Y0: nat, X0: nat, r0: nat, r1: nat, c0: nat, c1: nat) {
    && (forall j :: r0 <= j < r1 ==> RowKeepsIn(tile, cells, bw, j, img, nx, Y0, X0, c0, c1))
    && (forall j :: 0 <= j < bh && !(r0 <= j < r1) ==> RowKeepsNone(tile, cells, bw, j))
  }

  /** The first `J` rows keep the samples of the first `J - 1` rows and
      then those of row `J - 1`. */
  lemma {:induction false} KeptStep(tile: seq<int>, bw: nat, bh: nat, cells: set<int>, j: nat, J: nat)
    requires |tile| == Mul(bh, bw) && J == j + 1 && J <= bh
    ensures Mul(j, bw) + bw == Mul(J, bw) <= |tile|
    ensures Kept(Pairs(tile)[..Mul(J, bw)], cells) ==
            Kept(Pairs(tile)[..Mul(j, bw)], cells) + Kept(RowEntries(tile, bw, j), cells)
  {
    MulMono(J, bh, bw, bw);
    var head, row := Pairs(tile)[..Mul(j, bw)], RowEntries(tile, bw, j);
    assert Pairs(tile)[..Mul(J, bw)] == head + row;
    KeptConcat(head, row, cells);
  }

  /** The rows above `r0` keep nothing. */
  lemma {:induction false} KeptAbove(tile: seq<int>, bw: nat, bh: nat, cells: set<int>,
                                     img: seq<int>, nx: nat, Y0: nat, X0: nat,
                                     r0: nat, r1: nat, c0: nat, c1: nat, J: nat)
    requires |tile| == Mul(bh, bw) && J <= r0 <= r1 <= bh
    requires RowsKeep(tile, cells, bw, bh, img, nx, Y0, X0, r0, r1, c0, c1)
    ensures Mul(J, bw) <= |tile|
    ensures Kept(Pairs(tile)[..Mul(J, bw)], cells) == []
    decreases J
  {
    MulMono(J, bh, bw, bw);
    if J == 0 {
      assert Pairs(tile)[..Mul(J, bw)] == [];
    } else {
      var j := J - 1;
      KeptAbove(tile, bw, bh, cells, img, nx, Y0, X0, r0, r1, c0, c1, j);
      KeptStep(tile, bw, bh, cells, j, J);
      assert RowKeepsNone(tile, cells, bw, j);
    }
  }

  /** One more row of the box, row `j`, adds its image samples. */
  lemma {:induction false} KeptRowStep(tile: seq<int>, bw: nat, bh: nat, cells: set<int>,
                                       img: seq<int>, nx: nat, Y0: nat, X0: nat,
                                       r0: nat, c0: nat, c1: nat, j: nat, J: nat)
    requires |tile| == Mul(bh, bw) && r0 <= j && J == j + 1 && J <= bh && X0 + c1 <= nx
    requires Mul(Y0 + J, nx) <= |img|
    requires RowKeepsIn(tile, cells, bw, j, img, nx, Y0, X0, c0, c1)
    requires Kept(Pairs(tile)[..Mul(j, bw)], cells) == Rows(img, nx, Y0 + r0, Y0 + j, X0 + c0, X0 + c1)
    ensures Mul(J, bw) <= |tile| && Mul(Y0 + J, nx) <= |img|
    ensures Kept(Pairs(tile)[..Mul(J, bw)], cells) == Rows(img, nx, Y0 + r0, Y0 + J, X0 + c0, X0 + c1)
  {
    var R0, R, R1, C0, C1 := Y0 + r0, Y0 + j, Y0 + J, X0 + c0, X0 + c1;
    var b := Mul(R, nx);
    var row := img[b + C0 .. b + C1];
    var head := Kept(Pairs(tile)[..Mul(j, bw)], cells);
    var kept := Kept(RowEntries(tile, bw, j), cells);
    var before, after := Rows(img, nx, R0, R, C0, C1), Rows(img, nx, R0, R1, C0, C1);
    assert kept == row;
    assert Mul(J, bw) <= |tile| && Kept(Pairs(tile)[..Mul(J, bw)], cells) == head + kept by {
      KeptStep(tile, bw, bh, cells, j, J);
    }
    assert after == before + row by {
      LastRow(img, nx, R0, R, R1, C0, C1);
    }
    AppendBoth(Kept(Pairs(tile)[..Mul(J, bw)], cells), head, kept, after, before, row);
  }

  /** Equal heads followed by equal tails make equal sequences. */
  lemma AppendBoth(whole: seq<int>, head: seq<int>, tail: seq<int>, whole': seq<int>, head': seq<int>, tail': seq<int>)
    requires whole == head + tail && whole' == head' + tail'
    requires head == head' && tail == tail'
    ensures whole == whole'
  {
  }

  /** The rows from `r0` to `J - 1` keep their image samples, row by row. */
  lemma {:induction false} KeptWithin(tile: seq<int>, bw: nat, bh: nat, cells: set<int>,
                                      img: seq<int>, nx: nat, Y0: nat, X0: nat,
                                      r0: nat, r1: nat, c0: nat, c1: nat, J: nat)
    requires |tile| == Mul(bh, bw) && r0 <= J <= r1 <= bh && X0 + c1 <= nx && c0 <= c1
    requires Mul(Y0 + r1, nx) <= |img|
    requires RowsKeep(tile, cells, bw, bh, img, nx, Y0, X0, r0, r1, c0, c1)
    ensures Mul(J, bw) <= |tile| && Mul(Y0 + J, nx) <= |img|
    ensures Kept(Pairs(tile)[..Mul(J, bw)], cells) == Rows(img, nx, Y0 + r0, Y0 + J, X0 + c0, X0 + c1)
    decreases J
  {
    MulMono(Y0 + J, Y0 + r1, nx, nx);
    if J == r0 {
      KeptAbove(tile, bw, bh, cells, img, nx, Y0, X0, r0, r1, c0, c1, J);
      assert Rows(img, nx, Y0 + r0, Y0 + J, X0 + c0, X0 + c1) == [];
    } else {
      var j := J - 1;
      KeptWithin(tile, bw, bh, cells, img, nx, Y0, X0, r0, r1, c0, c1, j);
      assert RowKeepsIn(tile, cells, bw, j, img, nx, Y0, X0, c0, c1);
      MulMono(Y0 + J, Y0 + r1, nx, nx);
      KeptRowStep(tile, bw, bh, cells, img, nx, Y0, X0, r0, c0, c1, j, J);
    }
  }

  /** The rows from `r1` on add nothing. */
  lemma {:induction false} KeptBelow(tile: seq<int>, bw: nat, bh: nat, cells: set<int>,
                                     img: seq<int>, nx: nat, Y0: nat, X0: nat,
                                     r0: nat, r1: nat, c0: nat, c1: nat, J: nat)
    requires |tile| == Mul(bh, bw) && r0 <= r1 <= J <= bh && X0 + c1 <= nx && c0 <= c1
    requires Mul(Y0 + r1, nx) <= |img|
    requires RowsKeep(tile, cells, bw, bh, img, nx, Y0, X0, r0, r1, c0, c1)
    ensures Mul(J, bw) <= |tile|
    ensures Kept(Pairs(tile)[..Mul(J, bw)], cells) == Rows(img, nx, Y0 + r0, Y0 + r1, X0 + c0, X0 + c1)
    decreases J
  {
    if J == r1 {
      KeptWithin(tile, bw, bh, cells, img, nx, Y0, X0, r0, r1, c0, c1, J);
    } else {
      var j := J - 1;
      KeptBelow(tile, bw, bh, cells, img, nx, Y0, X0, r0, r1, c0, c1, j);
      KeptStep(tile, bw, bh, cells, j, J);
      assert RowKeepsNone(tile, cells, bw, j);
    }
  }

  /** A row of the box keeps its columns of the image row. */
  lemma {:induction false} BoxRowIn(img: seq<int>, nx: nat, Y0: nat, X0: nat, bw: nat, bh: nat, tile: seq<int>,
                                    xa: int, xb: int, ya: int, yb: int, c0: nat, c1: nat, j: nat)
    requires bw > 0 && c0 == Max(xa, 0) && c1 == Min(xb + 1, bw) && c0 <= c1
    requires j < bh && ya <= j <= yb && |tile| == Mul(bh, bw)
    requires Mul(j, bw) + c1 <= |tile| && Mul(Y0 + j, nx) + (X0 + c1) <= |img|
    requires tile[Mul(j, bw) + c0 .. Mul(j, bw) + c1] == img[Mul(Y0 + j, nx) + (X0 + c0) .. Mul(Y0 + j, nx) + (X0 + c1)]
    ensures RowKeepsIn(tile, Box(bw, Mul(bh, bw), xa, xb, ya, yb), bw, j, img, nx, Y0, X0, c0, c1)
  {
    var box := Box(bw, Mul(bh, bw), xa, xb, ya, yb);
    var base := Mul(j, bw);
    var a, b, end := base + c0, base + c1, base + bw;
    assert end <= |tile| && Kept(RowEntries(tile, bw, j), box) == tile[a..b] by {
      BoxRowCells(bw, bh, xa, xb, ya, yb, c0, c1, j);
      KeptSegment(tile, box, base, a, b, end);
    }
  }

  /** Of row `j` of the box, the box holds exactly columns `[c0, c1)`. */
  lemma {:induction false} BoxRowCells(bw: nat, bh: nat, xa: int, xb: int, ya: int, yb: int, c0: nat, c1: nat, j: nat)
    requires bw > 0 && c0 == Max(xa, 0) && c1 == Min(xb + 1, bw) && c0 <= c1
    requires j < bh && ya <= j <= yb
    ensures Mul(j, bw) + bw <= Mul(bh, bw)
    ensures Holds(Box(bw, Mul(bh, bw), xa, xb, ya, yb), Mul(j, bw), Mul(j, bw) + c0, Mul(j, bw) + c1, Mul(j, bw) + bw)
  {
    MulMono(j + 1, bh, bw, bw);
    assert Mul(j + 1, bw) == Mul(j, bw) + bw;
    forall k | Mul(j, bw) <= k < Mul(j, bw) + bw
      ensures k in Box(bw, Mul(bh, bw), xa, xb, ya, yb) <==> Mul(j, bw) + c0 <= k < Mul(j, bw) + c1
    {
      InBox(bw, bh, Mul(bh, bw), xa, xb, ya, yb, k - Mul(j, bw), j);
    }
  }

  /** A row outside the box keeps nothing. */
  lemma {:induction false} BoxRowOut(bw: nat, bh: nat, tile: seq<int>, xa: int, xb: int, ya: int, yb: int, j: nat)
    requires bw > 0 && |tile| == Mul(bh, bw) && j < bh && !(ya <= j <= yb)
    ensures RowKeepsNone(tile, Box(bw, Mul(bh, bw), xa, xb, ya, yb), bw, j)
  {
    MulMono(j + 1, bh, bw, bw);
    assert Mul(j + 1, bw) == Mul(j, bw) + bw;
    var box := Box(bw, Mul(bh, bw), xa, xb, ya, yb);
    forall k | Mul(j, bw) <= k < Mul(j, bw) + bw
      ensures k !in box
    {
      InBox(bw, bh, Mul(bh, bw), xa, xb, ya, yb, k - Mul(j, bw), j);
    }
    KeptSegment(tile, box, Mul(j, bw), Mul(j, bw), Mul(j, bw), Mul(j, bw) + bw);
  }

  /** A box, clipped to the tile, keeps row by row its part of the image. */
  lemma {:induction false} BoxRows(img: seq<int>, nx: nat, Y0: nat, X0: nat, bw: nat, bh: nat, tile: seq<int>,
                                   xa: int, xb: int, ya: int, yb: int, r0: nat, r1: nat, c0: nat, c1: nat)
    requires X0 + bw <= nx && Mul(Y0 + bh, nx) <= |img|
    requires tile == Rows(img, nx, Y0, Y0 + bh, X0, X0 + bw)
    requires bw > 0 && c0 == Max(xa, 0) && c1 == Min(xb + 1, bw) && c0 <= c1
    requires r0 == Max(ya, 0) && r1 == Min(yb + 1, bh) && r0 <= r1
    ensures |tile| == Mul(bh, bw)
    ensures RowsKeep(tile, Box(bw, Mul(bh, bw), xa, xb, ya, yb), bw, bh, img, nx, Y0, X0, r0, r1, c0, c1)
  {
    assert (Y0 + bh) - Y0 == bh && (X0 + bw) - X0 == bw;
    RowsLength(img, nx, Y0, Y0 + bh, X0, X0 + bw);
    var box := Box(bw, Mul(bh, bw), xa, xb, ya, yb);
    forall j | r0 <= j < r1
      ensures RowKeepsIn(tile, box, bw, j, img, nx, Y0, X0, c0, c1)
    {
      TileRow(img, nx, Y0, X0, bw, bh, tile, j, c0, c1);
      BoxRowIn(img, nx, Y0, X0, bw, bh, tile, xa, xb, ya, yb, c0, c1, j);
    }
    forall j | 0 <= j < bh && !(r0 <= j < r1)
      ensures RowKeepsNone(tile, box, bw, j)
    {
      BoxRowOut(bw, bh, tile, xa, xb, ya, yb, j);
    }
  }

  /** The samples a clipped box keeps of a tile cut from an image, in tile
      order, are the image's samples of the box, row by row. */
  lemma {:induction false} KeptBox(img: seq<int>, nx: nat, Y0: nat, X0: nat, bw: nat, bh: nat, tile: seq<int>,
                                   xa: int, xb: int, ya: int, yb: int, r0: nat, r1: nat, c0: nat, c1: nat)
    requires X0 + bw <= nx && Mul(Y0 + bh, nx) <= |img|
    requires tile == Rows(img, nx, Y0, Y0 + bh, X0, X0 + bw)
    requires bw > 0 && c0 == Max(xa, 0) && c1 == Min(xb + 1, bw) && c0 <= c1
    requires r0 == Max(ya, 0) && r1 == Min(yb + 1, bh) && r0 <= r1
    ensures |tile| == Mul(bh, bw) && Mul(Y0 + r1, nx) <= |img|
    ensures Kept(Pairs(tile), Box(bw, |tile|, xa, xb, ya, yb)) == Rows(img, nx, Y0 + r0, Y0 + r1, X0 + c0, X0 + c1)
  {
    BoxRows(img, nx, Y0, X0, bw, bh, tile, xa, xb, ya, yb, r0, r1, c0, c1);
    MulMono(Y0 + r1, Y0 + bh, nx, nx);
    KeptBelow(tile, bw, bh, Box(bw, |tile|, xa, xb, ya, yb), img, nx, Y0, X0, r0, r1, c0, c1, bh);
    assert Pairs(tile)[..Mul(bh, bw)] == Pairs(tile);
  }
}
