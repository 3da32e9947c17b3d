/** Per-label reductions over a label map: the sum of an integer image over
    the pixels of each label, and the pixel count (area) of each label. */
module Regions {
  import opened Grid

  /** Sum of values over the first j pixels of row i that carry label v. */
  ghost function RowSum(values: array2<int>, labels: array2<int>, v: int, i: int, j: int): int
    requires values.Length0 == labels.Length0 && values.Length1 == labels.Length1
    requires 0 <= i < labels.Length0 && 0 <= j <= labels.Length1
    reads values, labels
    decreases j
  {
    if j == 0 then 0
    else RowSum(values, labels, v, i, j - 1) + (if labels[i, j - 1] == v then values[i, j - 1] else 0)
  }

  /** Sum of values over the pixels of rows 0..i-1 that carry label v. */
  ghost function BlockSum(values: array2<int>, labels: array2<int>, v: int, i: int): int
    requires values.Length0 == labels.Length0 && values.Length1 == labels.Length1
    requires 0 <= i <= labels.Length0
    reads values, labels
    decreases i
  {
    if i == 0 then 0
    else BlockSum(values, labels, v, i - 1) + RowSum(values, labels, v, i - 1, labels.Length1)
  }

  /** Sum of values over the whole region of label v. */
  ghost function LabelSum(values: array2<int>, labels: array2<int>, v: int): int
    requires values.Length0 == labels.Length0 && values.Length1 == labels.Length1
    reads values, labels
  {
    BlockSum(values, labels, v, labels.Length0)
  }

  /** Number of the first j pixels of row i that carry label v. */
  ghost function RowCount(labels: array2<int>, v: int, i: int, j: int): (c: int)
    requires 0 <= i < labels.Length0 && 0 <= j <= labels.Length1
    reads labels
    ensures 0 <= c <= j
    decreases j
  {
    if j == 0 then 0
    else RowCount(labels, v, i, j - 1) + (if labels[i, j - 1] == v then 1 else 0)
  }

  /** Number of pixels of rows 0..i-1 that carry label v. */
  ghost function BlockCount(labels: array2<int>, v: int, i: int): (c: int)
    requires 0 <= i <= labels.Length0
    reads labels
    ensures 0 <= c
    decreases i
  {
    if i == 0 then 0
    else BlockCount(labels, v, i - 1) + RowCount(labels, v, i - 1, labels.Length1)
  }

  /** The area of label v: the number of pixels that carry it. */
  ghost function Area(labels: array2<int>, v: int): int
    reads labels
  {
    BlockCount(labels, v, labels.Length0)
  }

  /** The masked write `a[labels == v] = x`: sets, in place, every pixel of
      `a` whose label in `labels` is v, and leaves the others unchanged. */
  method AssignWhere<T>(a: array2<T>, labels: array2<int>, v: int, x: T)
    requires a.Length0 == labels.Length0 && a.Length1 == labels.Length1
    modifies a
    ensures forall i, j :: 0 <= i < a.Length0 && 0 <= j < a.Length1 ==>
      a[i, j] == if old(labels[i, j]) == v then x else old(a[i, j])
  {
    for i := 0 to a.Length0
      invariant forall r, c :: 0 <= r < a.Length0 && 0 <= c < a.Length1 ==>
        a[r, c] == if r < i && old(labels[r, c]) == v then x else old(a[r, c])
      invariant forall r, c :: i <= r < a.Length0 && 0 <= c < a.Length1 ==> labels[r, c] == old(labels[r, c])
    {
      for j := 0 to a.Length1
        invariant forall r, c :: (r > i || (r == i && c >= j)) && r < a.Length0 && 0 <= c < a.Length1 ==>
          labels[r, c] == old(labels[r, c])
        invariant forall r, c :: 0 <= r < a.Length0 && 0 <= c < a.Length1 ==>
          a[r, c] == if (r < i || (r == i && c < j)) && old(labels[r, c]) == v then x else old(a[r, c])
      {
        if labels[i, j] == v {
          a[i, j] := x;
        }
      }
    }
  }

  /** Sums `values` over the regions of labels 1..n in one raster pass;
      pixels whose label is outside 1..n are not counted anywhere. */
  method SumByLabel(values: array2<int>, labels: array2<int>, n: nat) returns (sums: seq<int>)
    requires values.Length0 == labels.Length0 && values.Length1 == labels.Length1
    ensures |sums| == n
    ensures forall k :: 0 <= k < n ==> sums[k] == LabelSum(values, labels, k + 1)
  {
    sums := seq(n, _ => 0);
    for i := 0 to labels.Length0
      invariant |sums| == n
      invariant forall k :: 0 <= k < n ==> sums[k] == BlockSum(values, labels, k + 1, i)
    {
      for j := 0 to labels.Length1
        invariant |sums| == n
        invariant forall k :: 0 <= k < n ==>
          sums[k] == BlockSum(values, labels, k + 1, i) + RowSum(values, labels, k + 1, i, j)
      {
        var v := labels[i, j];
        if 1 <= v <= n {
          sums := sums[v - 1 := sums[v - 1] + values[i, j]];
        }
      }
    }
  }

  /** The area of each label 1..n, computed as the sum of the indicator
      image `labels > 0` over each label's region. */
  method Areas(labels: array2<int>, n: nat) returns (areas: seq<int>)
    ensures |areas| == n
    ensures forall k :: 0 <= k < n ==> areas[k] == Area(labels, k + 1)
  {
    var ind := new int[labels.Length0, labels.Length1]((i, j) reads labels =>
      if 0 <= i < labels.Length0 && 0 <= j < labels.Length1 && labels[i, j] > 0 then 1 else 0);
    areas := SumByLabel(ind, labels, n);
    forall k | 0 <= k < n ensures areas[k] == Area(labels, k + 1) {
      IndicatorSum(ind, labels, k + 1);
    }
  }

  /** Over the region of a positive label, the indicator of the foreground
      sums to the region's area. */
  lemma IndicatorSum(ind: array2<int>, labels: array2<int>, v: int)
    requires ind.Length0 == labels.Length0 && ind.Length1 == labels.Length1
    requires v >= 1
    requires forall i, j :: 0 <= i < labels.Length0 && 0 <= j < labels.Length1 ==>
      ind[i, j] == if labels[i, j] > 0 then 1 else 0
    ensures LabelSum(ind, labels, v) == Area(labels, v)
  {
    UniformSum(ind, labels, v, 1);
  }

  /** If every pixel of label v holds the value d, the sum over the region
      is d times its area. */
  lemma UniformSum(values: array2<int>, labels: array2<int>, v: int, d: int)
    requires values.Length0 == labels.Length0 && values.Length1 == labels.Length1
    requires forall r, c :: 0 <= r < labels.Length0 && 0 <= c < labels.Length1 && labels[r, c] == v ==>
      values[r, c] == d
    ensures LabelSum(values, labels, v) == d * Area(labels, v)
  {
    UniformBlockSum(values, labels, v, d, labels.Length0);
  }

  lemma {:induction false} UniformBlockSum(values: array2<int>, labels: array2<int>, v: int, d: int, i: int)
    requires values.Length0 == labels.Length0 && values.Length1 == labels.Length1
    requires 0 <= i <= labels.Length0
    requires forall r, c :: 0 <= r < labels.Length0 && 0 <= c < labels.Length1 && labels[r, c] == v ==>
      values[r, c] == d
    ensures BlockSum(values, labels, v, i) == d * BlockCount(labels, v, i)
    decreases i
  {
    if i > 0 {
      UniformBlockSum(values, labels, v, d, i - 1);
      UniformRowSum(values, labels, v, d, i - 1, labels.Length1);
      Distribute(d, BlockCount(labels, v, i - 1), RowCount(labels, v, i - 1, labels.Length1));
    }
  }

  lemma {:induction false} UniformRowSum(values: array2<int>, labels: array2<int>, v: int, d: int, i: int, j: int)
    requires values.Length0 == labels.Length0 && values.Length1 == labels.Length1
    requires 0 <= i < labels.Length0 && 0 <= j <= labels.Length1
    requires forall r, c :: 0 <= r < labels.Length0 && 0 <= c < labels.Length1 && labels[r, c] == v ==>
      values[r, c] == d
    ensures RowSum(values, labels, v, i, j) == d * RowCount(labels, v, i, j)
    decreases j
  {
    if j > 0 {
      UniformRowSum(values, labels, v, d, i, j - 1);
      Distribute(d, RowCount(labels, v, i, j - 1), if labels[i, j - 1] == v then 1 else 0);
    }
  }

  lemma Distribute(d: int, a: int, b: int)
    ensures d * (a + b) == d * a + d * b
  {
  }

  /** A label carried by some pixel has a positive area. */
  lemma AreaPositive(labels: array2<int>, v: int, p: Pixel)
    requires InBounds(labels.Length0, labels.Length1, p) && labels[p.0, p.1] == v
    ensures Area(labels, v) > 0
  {
    BlockCountPositive(labels, v, p, labels.Length0);
  }

  lemma {:induction false} BlockCountPositive(labels: array2<int>, v: int, p: Pixel, i: int)
    requires InBounds(labels.Length0, labels.Length1, p) && labels[p.0, p.1] == v
    requires p.0 < i <= labels.Length0
    ensures BlockCount(labels, v, i) > 0
    decreases i
  {
    if p.0 < i - 1 {
      BlockCountPositive(labels, v, p, i - 1);
    } else {
      RowCountPositive(labels, v, p, labels.Length1);
    }
  }

  lemma {:induction false} RowCountPositive(labels: array2<int>, v: int, p: Pixel, j: int)
    requires InBounds(labels.Length0, labels.Length1, p) && labels[p.0, p.1] == v
    requires p.1 < j <= labels.Length1
    ensures RowCount(labels, v, p.0, j) > 0
    decreases j
  {
    if p.1 < j - 1 {
      RowCountPositive(labels, v, p, j - 1);
    }
  }
}
