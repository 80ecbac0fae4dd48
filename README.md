# Verified model of the 2-D median-filter kernels

The repository holds several interchangeable 2-D median filters. Each one writes,
for every pixel of an `ny`-by-`nx` image, the median of the window
`[y-hy, y+hy] x [x-hx, x+hx]` clipped to the image. An odd count gives the
middle sample. An even count gives the mean of the two middle samples; the
8-bit kernels round that mean up: `(a + b + 1) / 2`.

This project models these kernels in Dafny and proves that each one writes
exactly that median into every output cell, once:

- `median_filterv1`: extract the window into a scratch buffer, sort it, read
  the middle.
- `median_filterv2`: partition with `nth_element`, then take the maximum of the
  lower half.
- `median_filterv3`: the same per-pixel logic run over a fixed `Sx x Sy` tiling.
- `median_filterv4`: the bit-rank sliding median.
  - A `Block` cuts a halo-extended tile out of the image and sorts its samples
    once.
  - It keeps the current window as a bitset over ranks, with a split word `p`
    and the counts `psum[0]` and `psum[1]`.
  - It snakes through the block, down one column and up the next.
  - It reads each median off the set ranks.
- `median_filterv5`: a 256-bin histogram, rebuilt per pixel (`processBlock`)
  or slid along a row (`processBlockOptimized`), with the block dispatch.
- The benchmark's float and 8-bit reference filters.
- The check with tolerance 0 that the 8-bit kernel matches the 8-bit
  reference.
- The deterministic 8-bit test images: gradient, checkerboard and constant.

Modules:

| module | contents |
|---|---|
| `Grid` | row-major indexing, the clipped `Window`, the write logs, the tile loops |
| `Sorting` | `Sort` (ascending permutation) and order statistics of partitioned sequences |
| `Medians` | `MedianOf` / `MedianU8` on the sorted window, `MedianAt` per output index, the write-log lemmas |
| `WindowBuffer` | the scratch buffer shared by the sort-based kernels |
| `MfV1`, `MfV2`, `MfV3`, `Benchmark` | the baseline kernels, the references and the test images |
| `BitRank` | 64-bit words, popcount, select, rank toggles |
| `RankTable` | the tile, the `sorted` and `ranks` tables, the boxes of tile cells |
| `RankWindow` | the bitset as a set of tile cells |
| `MfV4` | the `Block` class and `median_filterv4` |
| `Histogram` | the `HistogramWindow` class |
| `MfV5` | `processBlock`, `processBlockOptimized` and `median_filterv5` |

How the model represents the source:

- Samples are `int`.
- The float mean of two middles is the exact real `(a + b) / 2`.
- 8-bit samples are `int`s in `[0, 256)`.
- Multiplication in index arithmetic is `Grid.Mul` (repeated addition).
  `Grid.MulIsProduct` proves that it equals `*`.
- Every kernel method returns a ghost write log. Its contract says the log
  names every cell of the image exactly once, and every output is the
  expected median.
- The block kernels `compute_median`, `processBlock` and
  `processBlockOptimized` also promise that every output index outside
  their block keeps its value. The steps inside them promise
  `Grid.ChangedOnly`: only the cells they add to the log change.
- `median_filterv2`, `median_filterv3`, `median_filterv4` and the float
  reference each promise `output[k] == MedianAt(input, ..., k)`, as
  `median_filterv1` does, so they agree with it at every pixel.
- `median_filterv5` and the 8-bit reference each promise
  `output[k] == MedianAtU8(input, ..., k)`. `Benchmark.CompareUint8` runs both
  and proves their outputs equal.

## Model

| member | source | states |
|---|---|---|
| `Grid.WindowSize` | mfv1.cc:12-17 | the clipped window holds `rows * cols` samples, with `1 <= rows <= 2hy+1` and `1 <= cols <= 2hx+1`; so `len` is positive and fits the `(2hy+1)(2hx+1)` buffer |
| `Grid.WindowRect` | mfv1.cc:13-15 | the window is rows `[max(y-hy,0), min(y+hy+1,ny))` by columns `[max(x-hx,0), min(x+hx+1,nx))` of the image; every index read lies inside the image |
| `Grid.IndexInGrid` | mfv1.cc:15 | the index `nx*i + j` of an in-grid cell lies inside the image, before the next row |
| `Grid.CellOf` | mfv1.cc:25 | decoding index `nx*y + x` gives back row `y` and column `x` |
| `Grid.RowsLength` | mfv1.cc:13-17 | a block of rows holds rows × columns samples |
| `Grid.RowsBounded` | mfv5.cc:105-108 | bounds on the image's samples hold for every block of its rows |
| `Grid.ColumnPrefix` | mfv5.cc:145-147 | the samples of a column's first rows are among those of the whole column |
| `Grid.RowsSplitLeft` | mfv5.cc:143-148 | dropping the left column of a block of rows removes exactly that column's samples |
| `Grid.RowsSplitRight` | mfv5.cc:151-156 | the right column of a block of rows plus the rest gives the whole block |
| `Grid.SplitLeftStep` | mfv5.cc:145-147 | one row's step of the left split |
| `Grid.SplitRightStep` | mfv5.cc:153-155 | one row's step of the right split |
| `Grid.RowMajorStep` | mfv1.cc:9-10 | logging `(y, x)` after every earlier cell in row-major order keeps the log free of repeats and extends the order by one cell |
| `Grid.AppendFresh` | mfv1.cc:25 | logging a cell not yet written keeps the log free of repeats |
| `Grid.ChangedOne` | mfv5.cc:112 | storing into the index of one cell not yet logged changes that cell's output and no other |
| `Grid.ChangedCompose` | mfv5.cc:100-113 | over successive writes, the only outputs that change are those of the cells added to the log across them |
| `Grid.BlockFresh` | mfv5.cc:186-189 | no cell of the next block has been written yet |
| `Grid.BlockDone` | mfv5.cc:186-195 | after the block at `(by, bx)` the written cells are exactly those of the earlier blocks and this one |
| `Grid.BandDone` | mfv5.cc:186-187 | once the column loop passes `nx`, the whole band of rows is written |
| `Grid.FloorSqrt` | mfv4.cc:188 | `(int)std::sqrt(t)` as the floor square root: `k*k <= t < (k+1)*(k+1)` |
| `Grid.BlocksPerDim` | mfv4.cc:184-188 | `max(1, floor(sqrt(max(threads*3, 4))))` is at least 2, with `d*d <= max(threads*3, 4) < (d+1)*(d+1)` |
| `Sorting.Insert` | mfv1.cc:20 | inserting into an ascending sequence keeps it ascending and adds exactly that element |
| `Sorting.Sort` | mfv1.cc:20 | `Sort(s)` is an ascending permutation of `s` |
| `Sorting.SortedUnique` | mfv1.cc:20 | two ascending sequences with the same elements are equal, so `std::sort`'s result is determined |
| `Sorting.SortedPermIsSort` | mfv1.cc:20 | any ascending permutation of `s` is `Sort(s)` |
| `Sorting.SortedSnoc` | mfv2.cc:32 | an element not below any element of an ascending sequence extends it |
| `Sorting.MaxIsLastOfSort` | mfv2.cc:30-32 | the maximum of a sequence is the last element of its sorted order |
| `Sorting.SortElement` | mfv1.cc:20 | every element of `Sort(t)` is an element of `t` |
| `Sorting.SortedAround` | mfv2.cc:22 | ascending, then a pivot not below it, then ascending and not below the pivot, is ascending |
| `Sorting.SortKeepsUpperBound` | mfv2.cc:22 | sorting keeps an upper bound of the elements |
| `Sorting.SortKeepsLowerBound` | mfv2.cc:22 | sorting keeps a lower bound of the elements |
| `Sorting.PartitionSort` | mfv2.cc:22 | for a permutation partitioned around `mid`, `Sort` is sorted-left + pivot + sorted-right, and the pivot is the `mid`-th smallest |
| `Sorting.PartitionPerm` | mfv2.cc:22 | sorting each side of the pivot keeps the sample's elements |
| `Sorting.PartitionedOrderStatistics` | mfv2.cc:19-32 | after `nth_element`, `pixels[mid]` is the `mid`-th smallest, and the maximum of `pixels[0..mid)` is the `(mid-1)`-th smallest |
| `Medians.MedianFromMiddles` | mfv1.cc:22-28 | with `hi` the `mid`-th and `lo` the `(mid-1)`-th smallest, the median is `hi` for an odd count and `0.5*(lo+hi)` (8-bit: `(hi+lo+1)/2`) for an even one |
| `Medians.MiddleFromMiddles` | mfv1.cc:22-28 | the same read off the sorted buffer itself |
| `Medians.MedianFromSorted` | mfv1.cc:19-28 | any sorted permutation of the window yields the median by the `mid` / `mid-1` rule |
| `Medians.MiddleBetween` | mfv5.cc:78-79 | the median lies between the two middle samples; the rounded-up 8-bit mean lies in `[v1, v2]` |
| `Medians.MedianBetweenMiddles` | mfv5.cc:53-79 | the median of any sample lies between its two sorted middles, and is the middle for an odd count |
| `Medians.MedianU8IsByte` | benchmark.cc:151 | the 8-bit median of 8-bit samples fits a `uint8_t` |
| `Medians.MedianOfOne` | mfv1.cc:24-25 | a single sample is its own median |
| `Medians.MedianAtCell` | mfv1.cc:12-28 | the expected output at `nx*y + x` is the median of the clipped window centred on `(y, x)`, which is non-empty |
| `Medians.ZeroRadiusIsIdentity` | mfv1.cc:12-25 | with `hy = hx = 0` every output equals its input sample |
| `Medians.FilteredStep` | mfv1.cc:25-27 | writing the expected sample at `i` extends a correct output prefix |
| `Medians.LoggedStep` | mfv1.cc:24-28 | writing a not-yet-written cell's median and logging it keeps every logged output correct |
| `Medians.LoggedAll` | mfv1.cc:9-10 | a log naming every cell exactly once means every output is correct |
| `Medians.MedianAtU8IsByte` | mfv5.cc:112 | the expected 8-bit output of an 8-bit image is in `[0, 255]` |
| `Medians.LoggedStepU8` | benchmark.cc:147-151 | the 8-bit counterpart of `LoggedStep` |
| `Medians.LoggedAllU8` | benchmark.cc:132-133 | the 8-bit counterpart of `LoggedAll` |
| `WindowBuffer.ExtractWindow` | mfv1.cc:12-17 | the fill loops leave `len` equal to the window's count, with `0 < len <= (2hy+1)(2hx+1)`, and `pixels[0..len)` equal to the window row by row |
| `WindowBuffer.CopyRect` | mfv1.cc:13-17 | the two nested copy loops write the rows `[r0, r1)` × columns `[c0, c1)` in order |
| `WindowBuffer.CopyRow` | mfv1.cc:14-16 | the inner loop appends one image row's columns `[c0, c1)` |
| `WindowBuffer.SortPrefix` | mfv1.cc:20 | `sort(pixels, pixels + len)`: the prefix becomes an ascending permutation of itself; the rest is untouched |
| `WindowBuffer.NthElement` | mfv2.cc:22 | `nth_element`: a permutation with nothing before `mid` above `pixels[mid]` and nothing after it below |
| `WindowBuffer.LowerHalfMax` | mfv2.cc:30-32 | the running `lo = max(lo, *p)` loop, started at `pixels[mid-1]`, gives the maximum of `pixels[0..mid)` |
| `WindowBuffer.PartitionedMedian` | mfv2.cc:19-34 | after `nth_element`, the output `pixels[mid]` (odd) or `0.5*(lo + pixels[mid])` (even) is the median of the window |
| `WindowBuffer.SortMedian` | mfv1.cc:19-28 | sort then middle or mean of the two middles is the window's median |
| `WindowBuffer.SortMedianU8` | benchmark.cc:143-152 | sort then middle or `(pixels[mid] + pixels[mid-1] + 1) / 2` is the 8-bit median |
| `WindowBuffer.SelectMedian` | mfv2.cc:19-35 | `nth_element` plus lower-half maximum is the window's median |
| `MfV1.PixelMedian` | mfv1.cc:12-28 | one pixel's output is the expected median at `nx*y + x` |
| `MfV1.MedianFilterV1` | mfv1.cc:5-34 | every output is the median of its clipped window, and every cell is written exactly once |
| `MfV1.FilterRow` | mfv1.cc:10-30 | the `x` loop extends the correct output prefix and the write log by one row |
| `MfV2.PixelMedian` | mfv2.cc:12-35 | one pixel's output, via `nth_element`, is the expected median |
| `MfV2.MedianFilterV2` | mfv2.cc:5-41 | every output is the median of its clipped window (so equals `median_filterv1`), each cell written once |
| `MfV2.FilterRow` | mfv2.cc:10-37 | the `x` loop extends the correct output prefix and the write log by one row |
| `MfV3.MedianFilterV3` | mfv3.cc:8-58 | with `Sx = nx/8 + 1` and `Sy = ny/4 + 1` (both positive), the tiles write every cell once with its median |
| `MfV3.FilterBand` | mfv3.cc:18-19 | the `xg` loop writes the band of rows `[yg, yg+Sy)` tile by tile |
| `MfV3.FilterTile` | mfv3.cc:19-56 | one tile, with its own `(2hy+1)(2hx+1)` buffer, writes its cells |
| `MfV3.FilterTileRow` | mfv3.cc:24-51 | the `x` loop of a tile row writes its cells with their medians |
| `MfV3.TiledStep` | mfv3.cc:24 | writing cell `(y, x)` of the tile moves the set of written cells on by one |
| `Benchmark.ReferenceMedianFilter` | benchmark.cc:101-126 | the float reference writes every cell once with the median of its window |
| `Benchmark.ReferenceRow` | benchmark.cc:105-124 | its `x` loop writes one row |
| `Benchmark.PixelMedianU8` | benchmark.cc:134-152 | one 8-bit reference output is the 8-bit median at `nx*y + x` |
| `Benchmark.ReferenceMedianFilterUint8` | benchmark.cc:129-155 | the 8-bit reference writes every cell once with its 8-bit median |
| `Benchmark.ReferenceRowU8` | benchmark.cc:133-153 | its `x` loop writes one row |
| `Benchmark.CompareUint8` | benchmark.cc:350-362 | the 8-bit reference and `median_filterv5` give identical outputs, so the comparison with tolerance 0 finds no differing pixel |
| `Benchmark.GradientFits` | benchmark.cc:212 | the gradient value `(x+y)*255/(nx+ny-2)` lies in `[0, 255]` when `nx + ny > 2` |
| `Benchmark.GradientShape` | benchmark.cc:209-214 | the gradient is 0 at the top-left, 255 at the bottom-right, and grows with `x + y` |
| `Benchmark.DivExact` | benchmark.cc:212 | `(k*d)/d == k` for the bottom-right corner |
| `Benchmark.DivMono` | benchmark.cc:212 | integer division by a positive divisor is monotone |
| `Benchmark.GradientImage` | benchmark.cc:209-215 | the generator writes the gradient value at every index |
| `Benchmark.CheckerAlternates` | benchmark.cc:219 | horizontally and vertically adjacent checkerboard samples are one 0 and one 255 |
| `Benchmark.CheckerboardImage` | benchmark.cc:216-222 | the generator writes 0 where `x + y` is even and 255 otherwise |
| `Benchmark.ConstantImage` | benchmark.cc:234-236 | the generator writes 128 everywhere |
| `Benchmark.MedianOfConstant` | benchmark.cc:234-236 | a window of equal samples has that sample as its median, in both roundings |
| `Benchmark.ConstantIsFixed` | benchmark.cc:234-236 | every filter maps the constant image to itself |
| `BitRank.Zero` | mfv4.cc:62 | the zero word has no bit set |
| `BitRank.Flip` | mfv4.cc:71 | `w ^ (1 << k)` flips bit `k` and no other |
| `BitRank.Pop` | mfv4.cc:84-86 | popcount of the bits below `b` is at most `b` |
| `BitRank.PopFlip` | mfv4.cc:71-72 | flipping bit `k` moves the popcount by one, up when it was clear and down when it was set |
| `BitRank.SelectBit` | mfv4.cc:105-106 | `ctz(pdep(1 << n, w))`: the set bit of `w` with exactly `n` set bits below it |
| `BitRank.SelectFrom` | mfv4.cc:105-106 | the scan behind `SelectBit` |
| `BitRank.Decompose` | mfv4.cc:70-71 | `r == 64 * (r >> 6) + (r & 63)` with `r & 63 < 64` |
| `BitRank.Compose` | mfv4.cc:107 | `(p << 6) \| b` with `b < 64` has word `p` and bit `b` |
| `BitRank.WordInRange` | mfv4.cc:70 | a rank below `64 * words` lies in one of the words |
| `BitRank.Count` | mfv4.cc:101-107 | the number of set ranks below `r` is at most `r` |
| `BitRank.PopWordsSplit` | mfv4.cc:91-100 | the popcount of words `[i, j)` splits at any `k` |
| `BitRank.CountWords` | mfv4.cc:101-107 | the set ranks below `64q + b` are those of words `[0, q)` plus those of word `q` below bit `b` |
| `BitRank.SelectedRank` | mfv4.cc:101-107 | the bit selected in word `p` with `target - psum[0]` set bits below it is a set rank with exactly `target` set ranks below it |
| `BitRank.CountAll` | mfv4.cc:113 | the set ranks are the set bits of all words |
| `BitRank.CountTail` | mfv4.cc:113 | with no rank set from `n` on, counting below `n` counts them all |
| `BitRank.Toggle` | mfv4.cc:71 | the toggled bitset has the same number of words |
| `BitRank.ToggleIsSet` | mfv4.cc:71 | toggling rank `r` flips its membership and no other |
| `BitRank.TogglePop` | mfv4.cc:71-72 | toggling moves the popcount of a word range by one when it holds `r`, else not at all |
| `BitRank.ToggleSplit` | mfv4.cc:70-72 | toggling moves by one `psum[i >= p]`, the count of the side of `p` holding `r` |
| `BitRank.PickedLength` | mfv4.cc:113 | as many values are picked as ranks are set |
| `BitRank.PickedAt` | mfv4.cc:114-119 | the value of set rank `r` is picked at position `Count(r)` |
| `BitRank.PickedBelow` | mfv4.cc:113-119 | every picked value is bounded by a bound of the table |
| `BitRank.PickedSorted` | mfv4.cc:48-53 | picking from the ascending table gives an ascending sequence |
| `RankTable.Values` | mfv4.cc:19 | the samples of the entries, one per entry |
| `RankTable.Pairs` | mfv4.cc:44-46 | the fill loop's entries `{tile[k], k}`, one per tile cell |
| `RankTable.InsertEntry` | mfv4.cc:48-53 | inserting into entries ordered by value keeps the order and adds that entry |
| `RankTable.SortByValue` | mfv4.cc:48-53 | an ordering of the entries by value, a permutation of them |
| `RankTable.SortEntries` | mfv4.cc:48-53 | `std::sort` with the `a.first < b.first` comparator: values ascending, entries permuted |
| `RankTable.PairsCount` | mfv4.cc:44-46 | each `(tile[k], k)` occurs once in the filled table and nothing else does |
| `RankTable.EntryOf` | mfv4.cc:55-57 | every sorted entry carries a tile index and that cell's sample |
| `RankTable.EntriesDistinct` | mfv4.cc:55-57 | no two sorted entries carry the same tile index, so `ranks[sorted[i].second] = i` writes each slot once |
| `RankTable.EntryFor` | mfv4.cc:55-57 | every tile index has a sorted position, so every slot of `ranks` is written |
| `RankTable.BuildTables` | mfv4.cc:41-57 | fill, sort and rank: `sorted` ascends by value and is a permutation of the tile's `(value, index)` pairs, and `ranks` is its inverse: `ranks[sorted[i].second] == i` and `sorted[ranks[k]].second == k` |
| `RankTable.FillRow` | mfv4.cc:44-46 | one row of the fill loop writes `{in[(y0b+dy)*nx + x0b+dx], dy*bx + dx}` |
| `RankTable.RankLoop` | mfv4.cc:55-57 | the rank loop makes `ranks` the inverse permutation of `sorted` |
| `RankTable.RowsAt` | mfv4.cc:45 | element `(j, c)` of a block of rows is image sample `(r0 + j, c0 + c)` |
| `RankTable.TileAt` | mfv4.cc:45 | tile sample `dy*bx + dx` is image sample `(y0b + dy)*nx + (x0b + dx)` |
| `RankTable.TileRow` | mfv4.cc:45 | columns `[c0, c1)` of tile row `j` are the image's |
| `RankTable.RowSlice` | mfv4.cc:45 | tile and image row slices agree when their samples do |
| `RankTable.KeptConcat` | mfv4.cc:113-119 | keeping the cells of a concatenation keeps them part by part |
| `RankTable.KeptPerm` | mfv4.cc:48-53 | permuted entries keep permuted samples |
| `RankTable.InBox` | mfv4.cc:68 | a tile cell is in a box exactly when its column and row are within the box |
| `RankTable.KeptSegment` | mfv4.cc:126-169 | a run of indices holding exactly `[a, b)` keeps `tile[a..b)` |
| `RankTable.KeptStep` | mfv4.cc:126-169 | the first `J` rows keep what the first `J - 1` rows keep, then row `J - 1` |
| `RankTable.KeptAbove` | mfv4.cc:126-169 | the rows above the box keep nothing |
| `RankTable.KeptRowStep` | mfv4.cc:126-169 | one more row of the box adds its image samples |
| `RankTable.KeptWithin` | mfv4.cc:126-169 | the rows of the box keep their image samples row by row |
| `RankTable.KeptBelow` | mfv4.cc:126-169 | the rows below the box add nothing |
| `RankTable.BoxRowIn` | mfv4.cc:142-144 | a row of the box keeps its columns of the image row |
| `RankTable.BoxRowCells` | mfv4.cc:142-144 | of a box row, the box holds exactly the clipped columns |
| `RankTable.BoxRowOut` | mfv4.cc:142-144 | a row outside the box keeps nothing |
| `RankTable.BoxRows` | mfv4.cc:126-169 | a box clipped to the tile keeps its image part row by row |
| `RankTable.KeptBox` | mfv4.cc:126-169 | the samples the bitset's cells select from the tile are the image's clipped window, in tile order |
| `RankWindow.PopZero` | mfv4.cc:62 | a zero word has popcount 0 |
| `RankWindow.PopWordsZero` | mfv4.cc:60-62 | zero words have popcount 0 |
| `RankWindow.ZeroMembers` | mfv4.cc:60-62 | the zeroed bitset holds the empty window, and `psum[0] = psum[1] = 0` are its counts for any `p` |
| `RankWindow.MembersFlip` | mfv4.cc:67-82 | toggling the rank of cell `k` adds `k` to the window when it was absent (the bit was clear) and removes it when present (the bit was set) |
| `RankWindow.PickedKept` | mfv4.cc:111-122 | the values picked from the set ranks are the window's samples in rank order |
| `RankWindow.SamplesPicked` | mfv4.cc:111-122 | reading the set ranks in order reads the window's samples sorted; their number is the total popcount |
| `RankWindow.WindowCount` | mfv4.cc:113 | `psum[0] + psum[1]` is the window's sample count |
| `RankWindow.PickedRank` | mfv4.cc:114-116 | the rank with `t` set ranks below it holds the `t`-th smallest window sample |
| `RankWindow.PickedMiddles` | mfv4.cc:113-119 | the ranks for `(sum-1)/2` and `sum/2` hold the two middle samples |
| `RankWindow.MedianFromRanks` | mfv4.cc:111-122 | `get_median`'s value is the median of the window |
| `RankWindow.SortedWindow` | mfv4.cc:111-122 | the window's sorted samples have the two ranks' values at their middles |
| `RankWindow.BoxSplitCols` | mfv4.cc:132-134 | a box splits at a column into two disjoint boxes |
| `RankWindow.BoxSplitRows` | mfv4.cc:142-144 | a box splits at a row into two disjoint boxes |
| `RankWindow.BoxOutside` | mfv4.cc:68 | a cell outside `[0, bx) x [0, by)` is in no box: `add_rank` and `remove_rank` ignore it |
| `RankWindow.BoxCell` | mfv4.cc:69 | the box of an in-tile cell `(ix, jy)` is its index `jy*bx + ix` |
| `RankWindow.AxisClip` | mfv4.cc:27-35 | clipping the window in local coordinates is clipping it in image coordinates, shifted by `x0b` |
| `MfV4.Block.constructor` | mfv4.cc:23-64 | the extents, the rank tables of the tile, and an empty bitset of `words` zero words with `p = words / 2` and zero counts |
| `MfV4.Layout` | mfv4.cc:27-59 | the block's extents along both axes, its tile, its tables and `words = (bx*by + 63)/64` |
| `MfV4.Extent` | mfv4.cc:27-39 | `x0b = max(x0i - hx, 0) <= x0i`, `x1i <= x1b = min(x1i + hx, nx - 1)`, `bx = x1b - x0b + 1 >= 1`, local span `[x0, x1]` inside the tile |
| `MfV4.WordsFor` | mfv4.cc:59 | `(size + 63) / 64` words hold `size` bits and are the fewest that do |
| `MfV4.Block.AddRank` | mfv4.cc:67-73 | a cell outside the tile changes nothing; a cell of the tile not in the window joins it and the cursor counts stay consistent |
| `MfV4.Block.RemoveRank` | mfv4.cc:75-82 | a cell outside the tile changes nothing; a cell of the window leaves it and the cursor counts stay consistent |
| `MfV4.Block.AddColumn` | mfv4.cc:134 | the `add_rank(x + hx, jy)` loop adds that column of the box |
| `MfV4.Block.RemoveColumn` | mfv4.cc:132 | the `remove_rank(x - hx, jy)` loop removes that column of the box |
| `MfV4.Block.AddRow` | mfv4.cc:144 | the `add_rank(x + ix, r)` loop adds row `r` of the box |
| `MfV4.Block.RemoveRow` | mfv4.cc:142 | the `remove_rank(x + ix, r)` loop removes row `r` of the box |
| `MfV4.Block.StepDown` | mfv4.cc:141-144 | one step down: the top row leaves, the next bottom row joins; the window is the box one row lower |
| `MfV4.Block.StepUp` | mfv4.cc:161-165 | one step up: the bottom row leaves, the next top row joins |
| `MfV4.Block.CoversStart` | mfv4.cc:124-128 | before the snake, no column of the block is logged |
| `MfV4.Block.CoversFresh` | mfv4.cc:136-148 | a cell the snake has not reached yet is not logged |
| `MfV4.Block.CoversDown` | mfv4.cc:137-148 | logging the cell below the logged rows of a column |
| `MfV4.Block.CoversUp` | mfv4.cc:157-169 | logging the cell above the logged rows of a column |
| `MfV4.Block.CoversNext` | mfv4.cc:148-152 | once every row of a column is logged, the snake moves to the next column |
| `MfV4.Block.DownPass` | mfv4.cc:136-148 | the downward pass writes each cell of its column once with its median, keeping the window equal to the box around the cell; the only outputs that change are those of the cells it logs |
| `MfV4.Block.UpPass` | mfv4.cc:156-169 | the upward pass writes each cell of its column once with its median; the only outputs that change are those of the cells it logs |
| `MfV4.Block.FillWindow` | mfv4.cc:126 | the first loops fill the window of `(x0 - 1, y0)`; its left column `x0 - 1 - hx` lies outside the tile, so the first `remove_rank` column loop is a no-op |
| `MfV4.Block.ComputeMedian` | mfv4.cc:124-173 | the snake writes every cell of `[x0i, x1i] x [y0i, y1i]` exactly once, each with the median of its clipped window; every output index outside the block keeps its value |
| `MfV4.Block.Search` | mfv4.cc:88-109 | `search(t)` returns a set rank with exactly `t` set ranks below it; the bitset and total are unchanged and the cursor invariant holds |
| `MfV4.Block.Locate` | mfv4.cc:90-100 | the two loops move `p` to the word holding the target, keeping `psum[0]` and `psum[1]` the popcounts before and from `p` |
| `MfV4.Block.GetMedian` | mfv4.cc:111-122 | `get_median` returns the median of the window's samples |
| `MfV4.Block.WindowAt` | mfv4.cc:139 | the box around a block cell selects the image's clipped window, whose median is that cell's expected output |
| `MfV4.Block.Emit` | mfv4.cc:139 | `out[(x + x0b) + nx*(y + y0b)] = get_median()` writes the expected median and logs the cell; no other output index changes |
| `MfV4.TileWindow` | mfv4.cc:124-173 | the tile cells of the box around a local cell are the image's clipped window at the image cell |
| `MfV4.ClipWindow` | mfv4.cc:27-39 | the box clipped to the tile is the window clipped to the image, shifted by `(x0b, y0b)` |
| `MfV4.TileKept` | mfv4.cc:124-173 | the box's kept samples are the image rows and columns of the clipped window |
| `MfV4.AxisWindow` | mfv1.cc:13-14 | the image rows and columns clipped at `(Y, X)` give the expected median at that cell |
| `MfV4.BlockSides` | mfv4.cc:191-203 | the block sides are positive; small images form a single block; otherwise at least 32 and at most `max(n/2, 64)` |
| `MfV4.MedianFilterV4` | mfv4.cc:177-222 | the blocks partition the image; every output is the median of its window, and every cell is written exactly once |
| `MfV4.FilterBand` | mfv4.cc:206-220 | one band of blocks, built and filtered left to right |
| `Histogram.SumPrefix` | mfv5.cc:47-49 | the cumulative count grows by one bin at a time |
| `Histogram.SumUpdate` | mfv5.cc:27-36 | changing one bin by `d` changes the sum by `d` |
| `Histogram.SumZero` | mfv5.cc:86-89 | zeroed bins sum to 0 |
| `Histogram.Repeat` | mfv5.cc:47-51 | `c` copies of `v` |
| `Histogram.ExpandPrefixFacts` | mfv5.cc:47-51 | bins `[0, n)` expand to `Sum(h[..n])` ascending samples below `n`, each `v` exactly `h[v]` times |
| `Histogram.ExpandPrefixLength` | mfv5.cc:47-49 | the expansion of the first bins has the cumulative count's length |
| `Histogram.ExpandPrefixSorted` | mfv5.cc:47-51 | the expansion is ascending and below `n` |
| `Histogram.AppendBlock` | mfv5.cc:47-51 | appending copies of the next bin keeps the expansion ascending |
| `Histogram.ExpandPrefixCounts` | mfv5.cc:47-51 | each value occurs in the expansion as often as its bin says |
| `Histogram.CountsStep` | mfv5.cc:47-51 | one more bin adds exactly its count |
| `Histogram.RepeatCount` | mfv5.cc:47-51 | `c` copies of `v` hold `v` exactly `c` times |
| `Histogram.ExpandPrefixExtends` | mfv5.cc:61-75 | expanding more bins only appends |
| `Histogram.ExpandAt` | mfv5.cc:47-51 | the sample at position `t` is the bin `i` with `count(i-1) <= t < count(i)`: the first bin whose cumulative count exceeds `t` |
| `Histogram.ExpandIsSort` | mfv5.cc:39-83 | a histogram of the samples expands to their sorted order, so its middle is their 8-bit median |
| `Histogram.TalliesNonNeg` | mfv5.cc:27-36 | a histogram of samples has no negative bin |
| `Histogram.ExpandCounts` | mfv5.cc:39-83 | the expansion holds exactly the counted samples |
| `Histogram.TalliesAdd` | mfv5.cc:27-30 | `add(v)` gives the histogram of the samples plus `v` |
| `Histogram.TalliesRemove` | mfv5.cc:33-36 | `remove(v)` of a counted `v` gives the histogram of the samples less `v` |
| `Histogram.HistogramWindow.constructor` | mfv5.cc:22-24 | every bin, `windowSize` and `medianPos` zero |
| `Histogram.HistogramWindow.Add` | mfv5.cc:27-30 | bin `value` up by one, `windowSize` up by one, still the sum of the bins |
| `Histogram.HistogramWindow.Remove` | mfv5.cc:33-36 | bin `value` down by one, `windowSize` down by one, still the sum of the bins |
| `Histogram.HistogramWindow.Clear` | mfv5.cc:86-89 | every bin and `windowSize` zero |
| `Histogram.HistogramWindow.GetMedian` | mfv5.cc:39-83 | 0 for an empty window; otherwise the middle of the counted samples (odd) or the rounded-up mean of the two middles (even) |
| `Histogram.HistogramWindow.SelectOdd` | mfv5.cc:44-52 | the first bin whose cumulative count exceeds `target` is the sample at position `target` |
| `Histogram.HistogramWindow.SelectEven` | mfv5.cc:53-76 | `val1` and `val2` are the samples at positions `ws/2 - 1` and `ws/2` |
| `MfV5.BytesIn` | mfv5.cc:107 | the samples of an 8-bit image index the 256 bins |
| `MfV5.WindowBytes` | mfv5.cc:105-108 | the window's samples index the bins |
| `MfV5.RemoveStep` | mfv5.cc:146 | removing a column's samples one by one removes that column |
| `MfV5.AddSpan` | mfv5.cc:106-108 | the `dx` loop adds the samples of one window row |
| `MfV5.AddWindow` | mfv5.cc:105-109 | the `dy`/`dx` loops build the histogram of the clipped window |
| `MfV5.AddRows` | mfv5.cc:105-109 | the `dy` loop adds the window's rows |
| `MfV5.AddRow` | mfv5.cc:106-108 | one pass of the `dy` loop adds one row |
| `MfV5.CountIn` | mfv5.cc:107 | `add(v)` on the histogram of a multiset gives that of the multiset plus `v` |
| `MfV5.CountOut` | mfv5.cc:146 | `remove(v)` of a held `v` gives the histogram of the multiset less `v` |
| `MfV5.RemoveColumn` | mfv5.cc:145-147 | the remove loop takes the leaving column out |
| `MfV5.RemoveCell` | mfv5.cc:146 | one pass of the remove loop |
| `MfV5.AddColumn` | mfv5.cc:153-155 | the add loop puts the entering column in |
| `MfV5.AddCell` | mfv5.cc:154 | one pass of the add loop |
| `MfV5.LeftEdge` | mfv5.cc:142-148 | column `x - hx - 1`, when `>= 0`, lies in the previous window, and removing it leaves the shared columns |
| `MfV5.RightEdge` | mfv5.cc:150-156 | column `x + hx`, when `< nx`, is not in the shared columns, and adding it gives the new window |
| `MfV5.SlideWindow` | mfv5.cc:141-156 | removing column `x - hx - 1` (when `>= 0`) and adding column `x + hx` (when `< nx`) turns the window at `x - 1` into the window at `x` |
| `MfV5.PixelMedian` | mfv5.cc:101-112 | clear, build, `getMedian`: the 8-bit median of the cell's window |
| `MfV5.ReadMedian` | mfv5.cc:112 | `getMedian` on the histogram of a window is that window's 8-bit median |
| `MfV5.ProcessBlock` | mfv5.cc:93-115 | the log grows by exactly the cells of `[y_start, y_end) x [x_start, x_end)`, each written with its 8-bit median; every output index outside the block keeps its value |
| `MfV5.BlockRow` | mfv5.cc:100-113 | the `x` loop of one block row writes the row's cells with their 8-bit medians; the only outputs that change are those of the cells it logs |
| `MfV5.Emit` | mfv5.cc:112 | writing `output[y*nx + x]` and logging `(y, x)` keeps the log correct; no other output index changes |
| `MfV5.ProcessBlockOptimized` | mfv5.cc:118-162 | the log grows by exactly the block's cells, each written with its 8-bit median, as in `processBlock`; every output index outside the block keeps its value |
| `MfV5.SlideRow` | mfv5.cc:124-160 | one row: build the first window, then slide, writing each cell's 8-bit median; the only outputs that change are those of the cells it logs |
| `MfV5.SlideEmit` | mfv5.cc:141-160 | slide one column and write the cell's 8-bit median; no other output index changes |
| `MfV5.SpanStep` | mfv5.cc:141 | writing `(y, x)` extends the written span of the row by one |
| `MfV5.SlideStep` | mfv5.cc:142-156 | after the slide step the histogram equals a freshly built window at `x` |
| `MfV5.RemoveLeft` | mfv5.cc:143-148 | `if (left_col >= 0)` remove that column |
| `MfV5.AddRight` | mfv5.cc:151-156 | `if (right_col < nx)` add that column |
| `MfV5.MedianFilterV5` | mfv5.cc:164-198 | small images and windows of more than 128 samples go through `processBlock`; otherwise blocks of side at least 64 cover every pixel once; every output is its window's 8-bit median |
| `MfV5.BlockSide` | mfv5.cc:179-180 | `max(64, ceil(n / blocksPerDim))` is at least 64, and `blocksPerDim` blocks of it cover `n` |
| `MfV5.CeilCovers` | mfv5.cc:179-180 | `blocksPerDim` blocks of the rounded-up side cover `n` |
| `MfV5.FilterBand` | mfv5.cc:186-197 | one band of blocks, each sliding when at least 32 columns wide |

## Left out

- OpenMP: the tile and block loops run one after another. For
  `median_filterv4` and `median_filterv5`, each block's kernel changes no
  output outside its block, and the write logs show that no cell belongs to
  two blocks, so the blocks write disjoint cells. For `median_filterv3` the
  model proves only that the tiles log disjoint cells. `omp_get_max_threads()` is the
  parameter `threads`.
- `(int)std::sqrt(target_blocks)` is modelled as the exact floor square root
  (`Grid.FloorSqrt`). The float rounding of `std::sqrt` is not modelled.
- Floating point: samples are `int`. `0.5f*(a + b)` and the `(a + b) / 2` of
  `get_median` are the exact real mean. NaN and rounding are not modelled.
- `uint64_t` words are sequences of 64 booleans (`BitRank.Word`).
  `__builtin_popcountll` and `_pdep_u64` / `__builtin_ctzll` are specified
  by their results (`Pop`, `SelectBit`), not as instructions.
- `std::sort` and `std::nth_element` are specified by their contracts.
  `WindowBuffer.SortPrefix`, `WindowBuffer.NthElement` and
  `RankTable.SortEntries` write back the functional `Sort` as their
  implementation.
- `int` overflow is not modelled. Indices and counts are unbounded naturals.
- `psum[2]` is the two fields `psum0` and `psum1`. `psum[i >= p] += 1`
  becomes an `if` on `i >= p`.
- `malloc`/`free` of the scratch buffers become fresh arrays of the stated
  size.
- The RNG-driven "random" and "noise_spikes" generators, the float
  generators, `compareImages*` statistics, timing, console output, the
  version registry and `main` are not modelled. So are `mfopencv.cc`,
  `timing.cc` and `plot_timing.py`.
- MfV4.Block.GetMedian: requires a non-empty window. Every window of the
  snake holds its centre cell. With `sum == 0` the source computes
  `(sum - 1) / 2 == 0` (C++ division truncates toward zero) and calls
  `search(0)`, whose second loop then walks `p` past the end of `buff`.
- MfV4.Block.AddRank: requires the cell not to be in the window already.
  Toggling a present rank would remove it, and the snake never does that.
- MfV4.Block.RemoveRank: requires the cell to be in the window. Toggling an
  absent rank would add it.
- MfV4.Block.AddRow: specified only for boxes `[x - hx, x + hx]` around the
  current column, the only way `compute_median` calls the row loops.
- MfV4.Block.RemoveRow: the same restriction as `AddRow`.
- Histogram.HistogramWindow.GetMedian: requires non-negative bins. Every
  histogram built by `add` and by `remove` of counted samples has them.
  The final `return 0`, unreachable for such histograms, is not modelled.
- Benchmark.GradientImage: requires the image not to be 1×1. There
  `nx + ny - 2` is 0 and the source divides by zero.
- Benchmark.CompareUint8: states that the outputs are identical, which is
  what the comparison with tolerance 0 checks. The error statistics are not
  modelled.
- MfV5.ProcessBlockOptimized: requires a non-empty column span
  (`x_start < x_end`). On an empty span the source still writes
  `output[y*nx + x_start]` in every row. Its only caller, `median_filterv5`,
  passes spans of at least 32 columns.
