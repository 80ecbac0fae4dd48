/** Sorting and order statistics: the specification every median kernel is
    compared against.  `Sort` stands for the ascending order that std::sort
    produces; since an ascending permutation is unique, any sorted permutation
    of a window is `Sort` of it (lemma `SortedUnique`). */
module Sorting {

  predicate Sorted(s: seq<int>) {
    forall i, j :: 0 <= i < j < |s| ==> s[i] <= s[j]
  }

  /** Insert `x` into an ascending sequence. */
  function Insert(x: int, s: seq<int>): (r: seq<int>)
    requires Sorted(s)
    ensures Sorted(r)
    ensures multiset(r) == multiset(s) + multiset{x}
  {
    if s == [] || x <= s[0] then
      [x] + s
    else
      var rest := Insert(x, s[1..]);
      HeadBelowInsert(x, s, rest);
      [s[0]] + rest
  }

  lemma HeadBelowInsert(x: int, s: seq<int>, rest: seq<int>)
    requires Sorted(s) && s != [] && s[0] < x
    requires multiset(rest) == multiset(s[1..]) + multiset{x}
    ensures forall k :: 0 <= k < |rest| ==> s[0] <= rest[k]
    ensures multiset([s[0]] + rest) == multiset(s) + multiset{x}
  {
    forall k | 0 <= k < |rest| ensures s[0] <= rest[k] {
      assert rest[k] in multiset(rest);
      if rest[k] != x {
        assert rest[k] in multiset(s[1..]);
        var j :| 0 <= j < |s[1..]| && s[1..][j] == rest[k];
        assert s[j + 1] == rest[k];
      }
    }
    assert s == [s[0]] + s[1..];
  }

  /** The ascending permutation of `s` (insertion sort). */
  function Sort(s: seq<int>): (r: seq<int>)
    ensures Sorted(r)
    ensures multiset(r) == multiset(s)
    ensures |r| == |s|
  {
    if s == [] then []
    else
      assert s == [s[0]] + s[1..];
      Insert(s[0], Sort(s[1..]))
  }

  /** Two ascending sequences holding the same values are equal. */
  lemma {:induction false} SortedUnique(a: seq<int>, b: seq<int>)
    requires Sorted(a) && Sorted(b)
    requires multiset(a) == multiset(b)
    ensures a == b
  {
    if a != [] {
      assert |b| == |multiset(b)| == |multiset(a)| == |a|;
      assert a[0] in multiset(b);
      assert b[0] in multiset(a);
      assert a[0] == b[0];
      assert a == [a[0]] + a[1..];
      assert b == [b[0]] + b[1..];
      assert multiset(a) == multiset{a[0]} + multiset(a[1..]);
      assert multiset(b) == multiset{b[0]} + multiset(b[1..]);
      assert multiset(a[1..]) == multiset(a) - multiset{a[0]};
      assert multiset(b[1..]) == multiset(b) - multiset{b[0]};
      SortedUnique(a[1..], b[1..]);
    } else {
      assert |b| == |multiset(b)| == 0;
    }
  }

  /** Any sorted permutation of `s` is `Sort(s)`: this is all the models of
      std::sort and std::nth_element rely on. */
  lemma SortedPermIsSort(p: seq<int>, s: seq<int>)
    requires Sorted(p) && multiset(p) == multiset(s)
    ensures p == Sort(s)
  {
    SortedUnique(p, Sort(s));
  }

  /** `m` is the largest element of the non-empty `s`. */
  predicate IsMax(m: int, s: seq<int>) {
    m in s && forall i :: 0 <= i < |s| ==> s[i] <= m
  }

  /** An element not below any element of an ascending sequence extends it
      to an ascending sequence. */
  lemma SortedSnoc(a: seq<int>, x: int)
    requires Sorted(a)
    requires forall i :: 0 <= i < |a| ==> a[i] <= x
    ensures Sorted(a + [x])
  {
    var b := a + [x];
    forall i, j | 0 <= i < j < |b| ensures b[i] <= b[j] {
      assert b[i] == a[i];
      if j < |a| {
        assert b[j] == a[j];
      }
    }
  }

  /** The largest element of a sequence is the last one of its sorted order. */
  lemma MaxIsLastOfSort(m: int, s: seq<int>, last: nat)
    requires IsMax(m, s) && |s| == last + 1
    ensures |Sort(s)| == |s| && Sort(s)[last] == m
  {
    var r := Sort(s);
    var n := |r|;
    assert m in multiset(s);
    assert m in multiset(r);
    var k :| 0 <= k < n && r[k] == m;
    assert r[k] <= r[n - 1];
    assert r[n - 1] in multiset(r);
    assert r[n - 1] in multiset(s);
    var j :| 0 <= j < |s| && s[j] == r[n - 1];
    assert s[j] <= m;
  }

  /** Every element of `Sort(t)` is an element of `t`. */
  lemma SortElement(t: seq<int>, i: nat)
    requires i < |Sort(t)|
    ensures exists j :: 0 <= j < |t| && t[j] == Sort(t)[i]
  {
    assert Sort(t)[i] in multiset(Sort(t));
    assert Sort(t)[i] in multiset(t);
  }

  /** An ascending sequence, a pivot not below it, and an ascending sequence
      not below the pivot, concatenate to an ascending sequence. */
  lemma SortedAround(a: seq<int>, m: int, b: seq<int>)
    requires Sorted(a) && Sorted(b)
    requires forall i :: 0 <= i < |a| ==> a[i] <= m
    requires forall i :: 0 <= i < |b| ==> m <= b[i]
    ensures Sorted(a + [m] + b)
  {
    var q := a + [m] + b;
    forall i, j | 0 <= i < j < |q| ensures q[i] <= q[j] {
      if j < |a| {
        assert q[i] == a[i] && q[j] == a[j];
      } else if i > |a| {
        assert q[i] == b[i - |a| - 1] && q[j] == b[j - |a| - 1];
      } else if i < |a| {
        assert q[i] == a[i];
        assert j > |a| ==> q[j] == b[j - |a| - 1];
      } else {
        assert q[j] == b[j - |a| - 1];
      }
    }
  }

  /** Sorting keeps an upper bound of the elements. */
  lemma SortKeepsUpperBound(t: seq<int>, m: int)
    requires forall i :: 0 <= i < |t| ==> t[i] <= m
    ensures forall i :: 0 <= i < |Sort(t)| ==> Sort(t)[i] <= m
  {
    forall i | 0 <= i < |Sort(t)| ensures Sort(t)[i] <= m {
      SortElement(t, i);
    }
  }

  /** Sorting keeps a lower bound of the elements. */
  lemma SortKeepsLowerBound(t: seq<int>, m: int)
    requires forall i :: 0 <= i < |t| ==> m <= t[i]
    ensures forall i :: 0 <= i < |Sort(t)| ==> m <= Sort(t)[i]
  {
    forall i | 0 <= i < |Sort(t)| ensures m <= Sort(t)[i] {
      SortElement(t, i);
    }
  }

  /** Sorting the two sides of a partitioned permutation of `s` and putting
      the pivot between them gives `Sort(s)`; so the pivot sits at its own
      position of `Sort(s)`, with the largest of the lower side just before. */
  lemma PartitionSort(p: seq<int>, s: seq<int>, mid: nat)
    requires multiset(p) == multiset(s)
    requires mid < |p|
    requires forall i :: 0 <= i < mid ==> p[i] <= p[mid]
    requires forall i :: mid < i < |p| ==> p[mid] <= p[i]
    ensures Sort(s) == Sort(p[..mid]) + [p[mid]] + Sort(p[mid + 1..])
    ensures |Sort(s)| == |p| && Sort(s)[mid] == p[mid]
  {
    var below, above := p[..mid], p[mid + 1..];
    var sb, sa := Sort(below), Sort(above);
    SortKeepsUpperBound(below, p[mid]);
    assert forall i :: 0 <= i < |above| ==> above[i] == p[mid + 1 + i];
    SortKeepsLowerBound(above, p[mid]);
    SortedAround(sb, p[mid], sa);
    PartitionPerm(p, mid);
    SortedPermIsSort(sb + [p[mid]] + sa, s);
    PivotPosition(Sort(s), sb, p[mid], sa, mid, 0);
  }

  lemma PartitionPerm(p: seq<int>, mid: nat)
    requires mid < |p|
    ensures multiset(Sort(p[..mid]) + [p[mid]] + Sort(p[mid + 1..])) == multiset(p)
  {
    assert p == p[..mid] + [p[mid]] + p[mid + 1..];
  }

  lemma PivotPosition(whole: seq<int>, a: seq<int>, m: int, b: seq<int>, k: nat, i: nat)
    requires whole == a + [m] + b && |a| == k
    ensures |whole| == k + 1 + |b| && whole[k] == m
    ensures i < k ==> whole[i] == a[i]
  {
  }

  /** The order statistic at `mid`, read off a partitioned permutation: if
      `p` is a permutation of `s` with nothing larger than `p[mid]` before it
      and nothing smaller after it (the std::nth_element post-condition), then
      `p[mid]` is `Sort(s)[mid]`, and when `mid > 0` the largest element of
      `p[..mid]` is `Sort(s)[mid - 1]`. */
  lemma PartitionedOrderStatistics(p: seq<int>, s: seq<int>, mid: nat, lo: int)
    requires multiset(p) == multiset(s)
    requires mid < |p|
    requires forall i :: 0 <= i < mid ==> p[i] <= p[mid]
    requires forall i :: mid < i < |p| ==> p[mid] <= p[i]
    requires mid > 0 ==> IsMax(lo, p[..mid])
    ensures |Sort(s)| == |p|
    ensures Sort(s)[mid] == p[mid]
    ensures mid > 0 ==> Sort(s)[mid - 1] == lo
  {
    assert |Sort(s)| == |p| && Sort(s)[mid] == p[mid] by {
      PartitionSort(p, s, mid);
    }
    if mid > 0 {
      var last := mid - 1;
      assert Sort(s)[last] == lo by {
        var below := p[..mid];
        PartitionSort(p, s, mid);
        MaxIsLastOfSort(lo, below, last);
        PivotPosition(Sort(s), Sort(below), p[mid], Sort(p[mid + 1..]), mid, last);
      }
    }
  }
}
