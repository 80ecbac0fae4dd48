/** The rank bitset of the bit-rank sliding median: an array of 64-bit words
    whose set bits are the ranks currently in the window.  Rank `r` lives in
    bit `r & 63` of word `r >> 6`.  A word is modelled by its 64 bits, bit
    `b` at index `b`; the word operations the kernel uses (`^= 1 << b`,
    `__builtin_popcountll`, `_pdep_u64` followed by `__builtin_ctzll`) are
    specified on that sequence. */
module BitRank {
  import opened Sorting

  /** A `uint64_t`, bit `b` at index `b`. */
  type Word = w: seq<bool> | |w| == 64 witness seq(64, _ => false)

  /** The word with no bit set. */
  function Zero(): (w: Word)
    ensures forall b :: 0 <= b < 64 ==> !w[b]
  {
    seq(64, _ => false)
  }

  /** `w ^ (uint64_t(1) << k)`. */
  function Flip(w: Word, k: nat): (f: Word)
    requires k < 64
    ensures f[k] == !w[k]
    ensures forall b :: 0 <= b < 64 && b != k ==> f[b] == w[b]
  {
    w[k := !w[k]]
  }

  /** The number of set bits of `w` below position `b`; `Pop(w, 64)` is
      `__builtin_popcountll(w)`. */
  function Pop(w: Word, b: nat): (c: nat)
    requires b <= 64
    ensures c <= b
  {
    if b == 0 then 0 else Pop(w, b - 1) + (if w[b - 1] then 1 else 0)
  }

  /** Flipping bit `k` moves the count of the bits below `b` by one, up or
      down, when `k` is below `b`, and not at all otherwise. */
  lemma {:induction false} PopFlip(w: Word, k: nat, b: nat)
    requires k < 64 && b <= 64
    ensures Pop(Flip(w, k), b) ==
            if b <= k then Pop(w, b) else if w[k] then Pop(w, b) - 1 else Pop(w, b) + 1
    decreases b
  {
    if b > 0 {
      PopFlip(w, k, b - 1);
    }
  }

  /** The position of the set bit of `w` that has exactly `n` set bits
      below it: `__builtin_ctzll(_pdep_u64(1 << n, w))`, which deposits the
      single bit `n` of its mask at the `n`-th set bit of `w` and counts the
      zeros beneath it. */
  function SelectBit(w: Word, n: nat): (b: nat)
    requires n < Pop(w, 64)
    ensures b < 64 && w[b] && Pop(w, b) == n
  {
    SelectFrom(w, n, 0)
  }

  /** The scan behind `SelectBit`, from position `b` upwards. */
  function SelectFrom(w: Word, n: nat, b: nat): (r: nat)
    requires b <= 64 && Pop(w, b) <= n < Pop(w, 64)
    ensures b <= r < 64 && w[r] && Pop(w, r) == n
    decreases 64 - b
  {
    if b < 64 && w[b] && Pop(w, b) == n then b else SelectFrom(w, n, b + 1)
  }

  /** The word of rank `r`: `r >> 6`. */
  function WordOf(r: nat): nat {
    if r < 64 then 0 else WordOf(r - 64) + 1
  }

  /** The bit of rank `r` within its word: `r & 63`. */
  function BitOf(r: nat): nat {
    if r < 64 then r else BitOf(r - 64)
  }

  /** Rank `r` is bit `BitOf(r)` of word `WordOf(r)`, and back. */
  lemma {:induction false} Decompose(r: nat)
    ensures BitOf(r) < 64 && r == 64 * WordOf(r) + BitOf(r)
  {
    if r >= 64 {
      Decompose(r - 64);
    }
  }

  lemma {:induction false} Compose(q: nat, b: nat)
    requires b < 64
    ensures WordOf(64 * q + b) == q && BitOf(64 * q + b) == b
  {
    if q > 0 {
      Compose(q - 1, b);
      assert 64 * q + b - 64 == 64 * (q - 1) + b;
    }
  }

  /** A rank of the bitset lies in one of its words. */
  lemma WordInRange(r: nat, words: nat)
    requires r < 64 * words
    ensures WordOf(r) < words && BitOf(r) < 64
  {
    Decompose(r);
  }

  /** Rank `r` is in the set: bit `r & 63` of word `r >> 6`. */
  predicate IsSet(s: seq<Word>, r: nat)
    requires r < 64 * |s|
  {
    WordInRange(r, |s|);
    s[WordOf(r)][BitOf(r)]
  }

  /** The set bits of the words `[i, j)`. */
  function PopWords(s: seq<Word>, i: nat, j: nat): nat
    requires i <= j <= |s|
    decreases j - i
  {
    if i == j then 0 else PopWords(s, i, j - 1) + Pop(s[j - 1], 64)
  }

  /** The set ranks below `r`. */
  function Count(s: seq<Word>, r: nat): (c: nat)
    requires r <= 64 * |s|
    ensures c <= r
  {
    if r == 0 then 0 else Count(s, r - 1) + (if IsSet(s, r - 1) then 1 else 0)
  }

  /** The popcount of a range of words is that of a prefix plus that of the
      rest. */
  lemma {:induction false} PopWordsSplit(s: seq<Word>, i: nat, k: nat, j: nat)
    requires i <= k <= j <= |s|
    ensures PopWords(s, i, j) == PopWords(s, i, k) + PopWords(s, k, j)
    decreases j - k
  {
    if k < j {
      PopWordsSplit(s, i, k, j - 1);
    }
  }

  /** The set ranks below `64q + b` are those of the words before `q` and
      the bits of word `q` below `b`. */
  lemma {:induction false} CountWords(s: seq<Word>, q: nat, b: nat)
    requires q < |s| && b <= 64
    ensures Count(s, 64 * q + b) == PopWords(s, 0, q) + Pop(s[q], b)
    decreases q, b
  {
    if b > 0 {
      CountWords(s, q, b - 1);
      Compose(q, b - 1);
    } else if q > 0 {
      CountWords(s, q - 1, 64);
      assert 64 * (q - 1) + 64 == 64 * q + b;
    }
  }

  /** A set bit `b` of word `q` with `t` set bits below it in its word is
      the set rank with `PopWords(s, 0, q) + t` set ranks below it. */
  lemma SelectedRank(s: seq<Word>, q: nat, b: nat, r: nat, t: nat)
    requires q < |s| && b < 64 && r == 64 * q + b && s[q][b] && Pop(s[q], b) == t
    ensures r < 64 * |s| && IsSet(s, r) && Count(s, r) == PopWords(s, 0, q) + t
  {
    CountWords(s, q, b);
    Compose(q, b);
  }

  /** The set ranks are the set bits of all the words. */
  lemma CountAll(s: seq<Word>)
    ensures Count(s, 64 * |s|) == PopWords(s, 0, |s|)
  {
    if |s| > 0 {
      CountWords(s, |s| - 1, 64);
      assert 64 * (|s| - 1) + 64 == 64 * |s|;
    }
  }

  /** With no rank set from `n` on, the ranks below `n` are all of them. */
  lemma {:induction false} CountTail(s: seq<Word>, n: nat, m: nat)
    requires n <= m <= 64 * |s|
    requires forall r :: n <= r < 64 * |s| ==> !IsSet(s, r)
    ensures Count(s, m) == Count(s, n)
    decreases m - n
  {
    if n < m {
      CountTail(s, n, m - 1);
    }
  }

  /** `buff[r >> 6] ^= uint64_t(1) << (r & 63)`. */
  function Toggle(s: seq<Word>, r: nat): (t: seq<Word>)
    requires r < 64 * |s|
    ensures |t| == |s|
  {
    WordInRange(r, |s|);
    s[WordOf(r) := Flip(s[WordOf(r)], BitOf(r))]
  }

  /** Toggling rank `r` flips its membership and no other. */
  lemma ToggleIsSet(s: seq<Word>, r: nat, j: nat)
    requires r < 64 * |s| && j < 64 * |s|
    ensures |Toggle(s, r)| == |s|
    ensures IsSet(Toggle(s, r), j) == if j == r then !IsSet(s, r) else IsSet(s, j)
  {
    WordInRange(r, |s|);
    WordInRange(j, |s|);
    if WordOf(j) == WordOf(r) {
      Decompose(r);
      Decompose(j);
    }
  }

  /** Toggling rank `r` moves the popcount of the words `[i, j)` by one, up
      or down, when the word of `r` is among them, and not at all otherwise. */
  lemma {:induction false} TogglePop(s: seq<Word>, r: nat, i: nat, j: nat)
    requires r < 64 * |s| && i <= j <= |s|
    ensures |Toggle(s, r)| == |s|
    ensures PopWords(Toggle(s, r), i, j) ==
            if !(i <= WordOf(r) < j) then PopWords(s, i, j)
            else if IsSet(s, r) then PopWords(s, i, j) - 1 else PopWords(s, i, j) + 1
    decreases j - i
  {
    WordInRange(r, |s|);
    var t, q := Toggle(s, r), WordOf(r);
    if i < j {
      TogglePop(s, r, i, j - 1);
      assert PopWords(t, i, j) == PopWords(t, i, j - 1) + Pop(t[j - 1], 64);
      assert PopWords(s, i, j) == PopWords(s, i, j - 1) + Pop(s[j - 1], 64);
      if j - 1 == q {
        PopFlip(s[q], BitOf(r), 64);
        assert t[q] == Flip(s[q], BitOf(r));
      } else {
        assert t[j - 1] == s[j - 1];
      }
    }
  }

  /** Toggling rank `r` moves by one the count of the side of word `p` that
      holds it: up when `r` was clear, down when it was set. */
  lemma ToggleSplit(s: seq<Word>, r: nat, p: nat, add: bool)
    requires r < 64 * |s| && p < |s| && IsSet(s, r) == !add
    ensures WordOf(r) < |s| && BitOf(r) < 64 && |Toggle(s, r)| == |s|
    ensures PopWords(Toggle(s, r), 0, p) ==
            PopWords(s, 0, p) + (if WordOf(r) < p then (if add then 1 else -1) else 0)
    ensures PopWords(Toggle(s, r), p, |s|) ==
            PopWords(s, p, |s|) + (if WordOf(r) >= p then (if add then 1 else -1) else 0)
  {
    WordInRange(r, |s|);
    TogglePop(s, r, 0, p);
    TogglePop(s, r, p, |s|);
  }

  /** The values `v[r]` of the set ranks `r < m`, in rank order. */
  function Picked(s: seq<Word>, v: seq<int>, m: nat): seq<int>
    requires m <= 64 * |s| && m <= |v|
  {
    if m == 0 then [] else Picked(s, v, m - 1) + (if IsSet(s, m - 1) then [v[m - 1]] else [])
  }

  /** As many values are picked as ranks are set. */
  lemma {:induction false} PickedLength(s: seq<Word>, v: seq<int>, m: nat)
    requires m <= 64 * |s| && m <= |v|
    ensures |Picked(s, v, m)| == Count(s, m)
  {
    if m > 0 {
      PickedLength(s, v, m - 1);
    }
  }

  /** The value of a set rank `r` is picked at position `Count(s, r)`: the
      number of set ranks below it. */
  lemma {:induction false} PickedAt(s: seq<Word>, v: seq<int>, m: nat, r: nat)
    requires m <= 64 * |s| && m <= |v|
    requires r < m && IsSet(s, r)
    ensures Count(s, r) < |Picked(s, v, m)| && Picked(s, v, m)[Count(s, r)] == v[r]
  {
    PickedLength(s, v, m - 1);
    if r < m - 1 {
      PickedAt(s, v, m - 1, r);
    }
  }

  /** Every picked value is bounded by a bound of `v[..m]`. */
  lemma {:induction false} PickedBelow(s: seq<Word>, v: seq<int>, m: nat, hi: int)
    requires m <= 64 * |s| && m <= |v|
    requires forall q :: 0 <= q < m ==> v[q] <= hi
    ensures forall i :: 0 <= i < |Picked(s, v, m)| ==> Picked(s, v, m)[i] <= hi
  {
    if m > 0 {
      PickedBelow(s, v, m - 1, hi);
    }
  }

  /** Picking from an ascending sequence gives an ascending sequence. */
  lemma {:induction false} PickedSorted(s: seq<Word>, v: seq<int>, m: nat)
    requires m <= 64 * |s| && m <= |v|
    requires Sorted(v)
    ensures Sorted(Picked(s, v, m))
  {
    if m > 0 {
      PickedSorted(s, v, m - 1);
      PickedBelow(s, v, m - 1, v[m - 1]);
      var a := Picked(s, v, m - 1);
      if IsSet(s, m - 1) {
        assert Picked(s, v, m) == a + [v[m - 1]];
        SortedSnoc(a, v[m - 1]);
      } else {
        assert Picked(s, v, m) == a;
      }
    }
  }
}
