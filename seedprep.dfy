/**
 * Deduplication and thinning of the seeds before the tessellation: `np.unique` over the point
 * rows (labels follow their first occurrence), then, above `GLOBAL_SEED_CAP` points, every
 * `step`-th point and label with `step = ceil(n / cap)`.
 */
module SeedPrep {
  import opened Shapes
  import opened Seeds
  import opened SortedUnique

  /** `GLOBAL_SEED_CAP`. */
  const SeedCap: nat := 3000

  lemma PointLessIsStrictTotalOrder()
    ensures IsStrictTotalOrder(PointLess)
  {
  }

  /** Index of the first occurrence of `x` in `s`. */
  function FirstIndex<T(==)>(s: seq<T>, x: T): (i: nat)
    requires x in s
    ensures i < |s| && s[i] == x
    ensures forall j :: 0 <= j < i ==> s[j] != x
  {
    if s[0] == x then 0 else 1 + FirstIndex(s[1..], x)
  }

  /** `np.unique(seed_pts, axis=0, return_index=True)`, then `[seed_labels[i] for i in uniq_idx]`. */
  function Dedup(lists: SeedLists): SeedLists
    requires |lists.points| == |lists.labels|
  {
    PointLessIsStrictTotalOrder();
    UniqueSpec(lists.points, PointLess);
    var u := Unique(lists.points, PointLess);
    SeedLists(Keys(u), seq(|u|, k requires 0 <= k < |u| => assert u[k] in u; lists.labels[u[k].first]))
  }

  /**
   * After deduplication the points strictly increase in lexicographic order, so no point
   * repeats; they are exactly the input points; and each point keeps the label it had at its
   * first occurrence in the input.
   */
  lemma DedupSpec(lists: SeedLists)
    requires |lists.points| == |lists.labels|
    ensures var d := Dedup(lists);
      && |d.points| == |d.labels|
      && StrictlySorted(d.points, PointLess)
      && (forall i, j :: 0 <= i < j < |d.points| ==> d.points[i] != d.points[j])
      && (forall p :: p in d.points <==> p in lists.points)
      && forall k :: 0 <= k < |d.points| ==>
           d.labels[k] == lists.labels[FirstIndex(lists.points, d.points[k])]
  {
    PointLessIsStrictTotalOrder();
    UniqueSpec(lists.points, PointLess);
    UniqueKeysSorted(lists.points, PointLess);
    var u := Unique(lists.points, PointLess);
    var d := Dedup(lists);
    forall k | 0 <= k < |d.points|
      ensures d.labels[k] == lists.labels[FirstIndex(lists.points, d.points[k])]
    {
      assert u[k] in u;
      assert FirstOccurrence(lists.points, u[k]);
      FirstIndexUnique(lists.points, d.points[k], u[k].first);
    }
  }

  /** Any index with the first-occurrence property is the one `FirstIndex` finds. */
  lemma FirstIndexUnique<T>(s: seq<T>, x: T, i: nat)
    requires i < |s| && s[i] == x
    requires forall j :: 0 <= j < i ==> s[j] != x
    ensures FirstIndex(s, x) == i
  {
  }

  /** Every label that survives deduplication was a label before it. */
  lemma DedupLabelsKept(lists: SeedLists, l: string)
    requires |lists.points| == |lists.labels|
    requires l in Dedup(lists).labels
    ensures l in lists.labels
  {
    DedupSpec(lists);
    var d := Dedup(lists);
    var k :| 0 <= k < |d.labels| && d.labels[k] == l;
  }

  /** `ceil(n / d)` for a positive divisor. */
  function CeilDiv(n: nat, d: nat): nat
    requires d > 0
  {
    (n + d - 1) / d
  }

  /** `ceil(n / d)` is the least `q` with `n <= d * q`. */
  lemma CeilDivBounds(n: nat, d: nat)
    requires d > 0
    ensures n <= d * CeilDiv(n, d) < n + d
  {
    var q, r := (n + d - 1) / d, (n + d - 1) % d;
    assert n + d - 1 == d * q + r;
  }

  lemma MulMonotone(a: nat, b: nat, d: nat)
    requires a <= b
    ensures d * a <= d * b
  {
  }

  /** For a positive factor, comparing products compares the other factors. */
  lemma MulLess(a: nat, b: nat, d: nat)
    requires d > 0
    ensures d * a < d * b <==> a < b
  {
    if a < b {
      MulMonotone(a + 1, b, d);
      assert d * (a + 1) == d * a + d;
    } else {
      MulMonotone(b, a, d);
    }
  }

  /** `ceil(n / d)` is the only `x` with `n <= d * x < n + d`. */
  lemma CeilDivUnique(n: nat, d: nat, x: nat)
    requires d > 0
    requires n <= d * x < n + d
    ensures x == CeilDiv(n, d)
  {
    var q := CeilDiv(n, d);
    CeilDivBounds(n, d);
    MulLess(x, q + 1, d);
    MulLess(q, x + 1, d);
    assert d * (q + 1) == d * q + d;
    assert d * (x + 1) == d * x + d;
  }

  /** `s[::step]`: the elements at indices 0, step, 2·step, … */
  function Stride<T>(s: seq<T>, step: nat): seq<T>
    requires step > 0
    decreases |s|
  {
    if s == [] then []
    else if step >= |s| then [s[0]]
    else [s[0]] + Stride(s[step..], step)
  }

  /** `s[::step]` has `ceil(|s| / step)` elements. */
  lemma {:induction false} StrideLength<T>(s: seq<T>, step: nat)
    requires step > 0
    ensures |Stride(s, step)| == CeilDiv(|s|, step)
    decreases |s|
  {
    var n := |s|;
    if s == [] {
      CeilDivUnique(0, step, 0);
    } else if step >= n {
      CeilDivUnique(n, step, 1);
    } else {
      StrideLength(s[step..], step);
      var q := CeilDiv(n - step, step);
      CeilDivBounds(n - step, step);
      assert step * (q + 1) == step * q + step;
      CeilDivUnique(n, step, q + 1);
    }
  }

  /** The `k`-th element of `s[::step]` is `s[k * step]`. */
  lemma {:induction false} StrideAt<T>(s: seq<T>, step: nat, k: nat)
    requires step > 0
    requires k < |Stride(s, step)|
    ensures k * step < |s| && Stride(s, step)[k] == s[k * step]
    decreases |s|
  {
    if k > 0 {
      assert step < |s|;
      StrideAt(s[step..], step, k - 1);
      assert (k - 1) * step + step == k * step;
    }
  }

  /** `s[::step]` keeps exactly the indices 0, step, 2·step, … below `|s|`. */
  lemma StrideSpec<T>(s: seq<T>, step: nat)
    requires step > 0
    ensures |Stride(s, step)| == CeilDiv(|s|, step)
    ensures forall k :: 0 <= k < |Stride(s, step)| ==> k * step < |s| && Stride(s, step)[k] == s[k * step]
  {
    StrideLength(s, step);
    forall k | 0 <= k < |Stride(s, step)| ensures k * step < |s| && Stride(s, step)[k] == s[k * step] {
      StrideAt(s, step, k);
    }
  }

  /**
   * With more points than the cap, `step = ceil(n / cap)` leaves at least one and at most `cap`
   * points: `ceil(n / step) <= cap`.
   */
  lemma StrideFitsCap(n: nat, cap: nat)
    requires n > cap > 0
    ensures CeilDiv(n, cap) > 0
    ensures 0 < CeilDiv(n, CeilDiv(n, cap)) <= cap
  {
    var step := CeilDiv(n, cap);
    CeilDivBounds(n, cap);
    MulLess(0, step, cap);
    var m := CeilDiv(n, step);
    CeilDivBounds(n, step);
    MulLess(0, m, step);
    assert step * cap == cap * step;
    assert step * (m - 1) == step * m - step;
    MulLess(m - 1, cap, step);
  }

  /** The stride cap of lines 80-83: above `cap` points, keep every `step`-th point and label. */
  function Cap(lists: SeedLists, cap: nat): SeedLists
    requires cap > 0
  {
    if |lists.points| > cap then
      var step := CeilDiv(|lists.points|, cap);
      StrideFitsCap(|lists.points|, cap);
      SeedLists(Stride(lists.points, step), Stride(lists.labels, step))
    else lists
  }

  /**
   * At most `cap` points are left nothing changes; above it, the kept entries are exactly those
   * at indices 0, step, 2·step, … of both lists, so points and labels stay paired, and between
   * one and `cap` of them remain.
   */
  lemma CapSpec(lists: SeedLists, cap: nat)
    requires cap > 0
    requires |lists.points| == |lists.labels|
    ensures |lists.points| <= cap ==> Cap(lists, cap) == lists
    ensures |lists.points| > cap ==>
      var c, step := Cap(lists, cap), CeilDiv(|lists.points|, cap);
      && |c.points| == |c.labels| == CeilDiv(|lists.points|, step)
      && 0 < |c.points| <= cap
      && forall k :: 0 <= k < |c.points| ==>
           k * step < |lists.points| && c.points[k] == lists.points[k * step] && c.labels[k] == lists.labels[k * step]
  {
    if |lists.points| > cap {
      var step := CeilDiv(|lists.points|, cap);
      StrideFitsCap(|lists.points|, cap);
      StrideSpec(lists.points, step);
      StrideSpec(lists.labels, step);
    }
  }

  /** Every label that survives the cap was a label before it. */
  lemma CapLabelsKept(lists: SeedLists, cap: nat, l: string)
    requires cap > 0
    requires |lists.points| == |lists.labels|
    requires l in Cap(lists, cap).labels
    ensures l in lists.labels
  {
    CapSpec(lists, cap);
    var c := Cap(lists, cap);
    if |lists.points| > cap {
      var k :| 0 <= k < |c.labels| && c.labels[k] == l;
    }
  }
}
