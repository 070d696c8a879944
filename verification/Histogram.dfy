/** Range selectivity of cardinality_estimator.py, over exact reals. */
module Histogram {
  import opened Values

  const DEFAULT_FILTER_SELECTIVITY: real := 0.33

  function Max(a: real, b: real): real {
    if a >= b then a else b
  }

  function Min(a: real, b: real): real {
    if a <= b then a else b
  }

  function Total(counts: seq<nat>): nat {
    if counts == [] then 0 else Total(counts[..|counts| - 1]) + counts[|counts| - 1]
  }

  ghost predicate Increasing(edges: seq<real>) {
    forall i, j :: 0 <= i < j < |edges| ==> edges[i] < edges[j]
  }

  datatype Bins = Bins(edges: seq<real>, counts: seq<nat>) {
    ghost predicate Valid() {
      |edges| == |counts| + 1
    }

    /** The first n bins. */
    function Take(n: nat): Bins
      requires |edges| == |counts| + 1 && n <= |counts|
    {
      Bins(edges[..n + 1], counts[..n])
    }
  }

  // ---- The reference: rows spread evenly inside their bin ----

  /** How much of the bin (a, b) lies below x. */
  function Below(x: real, a: real, b: real): (r: real)
    requires a < b
    ensures 0.0 <= r <= 1.0
    ensures x <= a ==> r == 0.0
    ensures x >= b ==> r == 1.0
  {
    if x <= a then 0.0
    else if x >= b then 1.0
    else
      QuotientRange(x - a, b - a);
      (x - a) / (b - a)
  }

  lemma QuotientRange(n: real, d: real)
    requires 0.0 <= n <= d && d > 0.0
    ensures 0.0 <= n / d <= 1.0
  {}

  lemma QuotientMono(m: real, n: real, d: real)
    requires m <= n && d > 0.0
    ensures m / d <= n / d
  {}

  /** A share p of c rows. */
  function Weight(c: nat, p: real): real {
    c as real * p
  }

  /** A bin's rows below x; a bin without width has none. */
  function BinBelow(x: real, a: real, b: real, count: nat): real {
    if a < b then Weight(count, Below(x, a, b)) else 0.0
  }

  /** Rows below x: the cumulative distribution. */
  ghost function RowsBelow(h: Bins, x: real): real
    requires h.Valid()
    decreases |h.counts|
  {
    if h.counts == [] then 0.0
    else
      var n := |h.counts| - 1;
      RowsBelow(h.Take(n), x) + BinBelow(x, h.edges[n], h.edges[n + 1], h.counts[n])
  }

  lemma BelowMono(x: real, y: real, a: real, b: real)
    requires a < b && x <= y
    ensures Below(x, a, b) <= Below(y, a, b)
  {
    if a < x && y < b {
      QuotientMono(x - a, y - a, b - a);
    }
  }

  lemma WeightMono(c: nat, p: real, q: real)
    requires p <= q
    ensures Weight(c, p) <= Weight(c, q)
  {}

  lemma WeightEnds(c: nat)
    ensures Weight(c, 0.0) == 0.0 && Weight(c, 1.0) == c as real
  {}

  lemma BinBelowMono(x: real, y: real, a: real, b: real, count: nat)
    requires x <= y
    ensures 0.0 <= BinBelow(x, a, b, count) <= BinBelow(y, a, b, count) <= count as real
  {
    hide Below, Weight;
    if a < b {
      BelowMono(x, y, a, b);
      WeightEnds(count);
      WeightMono(count, 0.0, Below(x, a, b));
      WeightMono(count, Below(x, a, b), Below(y, a, b));
      WeightMono(count, Below(y, a, b), 1.0);
    }
  }

  lemma {:induction false} RowsBelowMono(h: Bins, x: real, y: real)
    requires h.Valid() && x <= y
    ensures RowsBelow(h, x) <= RowsBelow(h, y)
    decreases |h.counts|
  {
    hide BinBelow;
    if h.counts != [] {
      var n := |h.counts| - 1;
      RowsBelowMono(h.Take(n), x, y);
      BinBelowMono(x, y, h.edges[n], h.edges[n + 1], h.counts[n]);
    }
  }

  /** Rows in bins that have a width. */
  function WideRows(h: Bins): nat
    requires |h.edges| == |h.counts| + 1
    decreases |h.counts|
  {
    if h.counts == [] then 0
    else
      var n := |h.counts| - 1;
      WideRows(h.Take(n)) + if h.edges[n] < h.edges[n + 1] then h.counts[n] else 0
  }

  lemma BinBelowEnds(x: real, a: real, b: real, count: nat)
    ensures x <= a ==> BinBelow(x, a, b, count) == 0.0
    ensures x >= b ==> BinBelow(x, a, b, count) == if a < b then count as real else 0.0
  {
    hide Weight;
    WeightEnds(count);
  }

  /** No rows below all the edges, all rows in bins with a width above them. */
  lemma {:induction false} RowsBelowEnds(h: Bins, x: real)
    requires h.Valid()
    ensures (forall i :: 0 <= i < |h.edges| ==> x <= h.edges[i]) ==> RowsBelow(h, x) == 0.0
    ensures (forall i :: 0 <= i < |h.edges| ==> h.edges[i] <= x) ==> RowsBelow(h, x) == WideRows(h) as real
    ensures 0.0 <= RowsBelow(h, x) <= Total(h.counts) as real
    decreases |h.counts|
  {
    hide BinBelow;
    if h.counts != [] {
      var n := |h.counts| - 1;
      RowsBelowEnds(h.Take(n), x);
      BinBelowMono(x, x, h.edges[n], h.edges[n + 1], h.counts[n]);
      BinBelowEnds(x, h.edges[n], h.edges[n + 1], h.counts[n]);
      assert forall i :: 0 <= i <= n ==> h.Take(n).edges[i] == h.edges[i];
      assert Total(h.counts) == Total(h.counts[..n]) + h.counts[n];
    }
  }

  /** Every bin with rows has a width. */
  ghost predicate NoPointBins(h: Bins)
    requires h.Valid()
  {
    forall i :: 0 <= i < |h.counts| && h.counts[i] > 0 ==> h.edges[i] < h.edges[i + 1]
  }

  lemma {:induction false} WideRowsIff(h: Bins)
    requires h.Valid()
    ensures WideRows(h) <= Total(h.counts)
    ensures WideRows(h) == Total(h.counts) <==> NoPointBins(h)
    decreases |h.counts|
  {
    if h.counts != [] {
      var n := |h.counts| - 1;
      var init := h.Take(n);
      WideRowsIff(init);
      assert forall i :: 0 <= i < n ==> init.counts[i] == h.counts[i];
      assert forall i :: 0 <= i <= n ==> init.edges[i] == h.edges[i];
    }
  }

  // ---- _histogram_range_selectivity ----

  /** The loop body's contribution of one bin. */
  function Contribution(lo: real, hi: real, a: real, b: real, count: nat): real {
    if b - a <= 0.0 || count == 0 then 0.0
    else if Max(lo, a) >= Min(hi, b) then 0.0
    else Weight(count, (Min(hi, b) - Max(lo, a)) / (b - a))
  }

  lemma QuotientDifference(m: real, n: real, d: real)
    requires d > 0.0
    ensures (n - m) / d == n / d - m / d
  {}

  lemma QuotientSelf(d: real)
    requires d > 0.0
    ensures d / d == 1.0
  {}

  /** A bin's overlap with [lo, hi] is what lies below hi but not below lo. */
  lemma ContributionIs(lo: real, hi: real, a: real, b: real, count: nat)
    requires lo <= hi
    ensures Contribution(lo, hi, a, b, count) == BinBelow(hi, a, b, count) - BinBelow(lo, a, b, count)
  {
    if a < b {
      WideContributionIs(lo, hi, a, b, count);
    }
  }

  lemma WideContributionIs(lo: real, hi: real, a: real, b: real, count: nat)
    requires a < b && lo <= hi
    ensures Contribution(lo, hi, a, b, count) == Weight(count, Below(hi, a, b)) - Weight(count, Below(lo, a, b))
  {
    var d := b - a;
    QuotientSelf(d);
    QuotientDifference(Max(lo, a) - a, Min(hi, b) - a, d);
    QuotientDifference(0.0, d, d);
    Distribute(count, Below(hi, a, b), Below(lo, a, b));
    if Max(lo, a) < Min(hi, b) && count > 0 {
      assert Below(hi, a, b) == (Min(hi, b) - a) / d;
      assert Below(lo, a, b) == (Max(lo, a) - a) / d;
    }
  }

  lemma Distribute(c: nat, p: real, q: real)
    ensures Weight(c, p - q) == Weight(c, p) - Weight(c, q)
  {}

  method HistogramSelectivity(h: Bins, lo: real, hi: real) returns (r: real)
    requires h.Valid() && lo <= hi
    ensures r == if Total(h.counts) == 0 then DEFAULT_FILTER_SELECTIVITY
                 else (RowsBelow(h, hi) - RowsBelow(h, lo)) / Total(h.counts) as real
  {
    hide BinBelow, Total, Weight;
    var total := Total(h.counts);
    if total == 0 {
      return DEFAULT_FILTER_SELECTIVITY;
    }
    var matching := 0.0;
    for i := 0 to |h.counts|
      invariant matching == RowsBelow(h.Take(i), hi) - RowsBelow(h.Take(i), lo)
    {
      ghost var next := h.Take(i + 1);
      assert next.Take(i) == h.Take(i);
      ContributionIs(lo, hi, h.edges[i], h.edges[i + 1], h.counts[i]);
      var low, high, width := h.edges[i], h.edges[i + 1], h.edges[i + 1] - h.edges[i];
      if width <= 0.0 || h.counts[i] == 0 {
        continue;
      }
      var overlapLow, overlapHigh := Max(lo, low), Min(hi, high);
      if overlapLow >= overlapHigh {
        continue;
      }
      matching := matching + Weight(h.counts[i], (overlapHigh - overlapLow) / width);
    }
    assert h.Take(|h.counts|) == h;
    r := matching / total as real;
  }

  /** The estimate as a share of all rows. */
  ghost function Share(h: Bins, lo: real, hi: real): real
    requires h.Valid() && Total(h.counts) > 0
  {
    (RowsBelow(h, hi) - RowsBelow(h, lo)) / Total(h.counts) as real
  }

  /** A probability: between 0 and 1, additive when a range is split, growing with the range; and 1 on a range around
      all edges exactly when no rows are in bins without width. */
  lemma ShareIsMeasure(h: Bins, lo: real, mid: real, hi: real)
    requires h.Valid() && Total(h.counts) > 0 && lo <= mid <= hi
    ensures 0.0 <= Share(h, lo, hi) <= 1.0
    ensures Share(h, lo, mid) + Share(h, mid, hi) == Share(h, lo, hi)
    ensures Share(h, lo, mid) <= Share(h, lo, hi) && Share(h, mid, hi) <= Share(h, lo, hi)
    ensures (forall i :: 0 <= i < |h.edges| ==> lo <= h.edges[i] <= hi) ==>
              (Share(h, lo, hi) == 1.0 <==> NoPointBins(h))
  {
    hide RowsBelow, Total, WideRows, NoPointBins;
    var total := Total(h.counts) as real;
    RowsBelowMono(h, lo, mid);
    RowsBelowMono(h, mid, hi);
    RowsBelowEnds(h, lo);
    RowsBelowEnds(h, hi);
    RowsBelowEnds(h, mid);
    WideRowsIff(h);
    var a, b, c := RowsBelow(h, lo), RowsBelow(h, mid), RowsBelow(h, hi);
    QuotientRange(c - a, total);
    QuotientRange(b - a, total);
    QuotientRange(c - b, total);
    QuotientDifference(a - b, c - b, total);
    assert c - a == (c - b) - (a - b);
    QuotientDifference(b - a, 0.0, total);
    assert (a - b) / total == -((b - a) / total);
    QuotientIsOne(c - a, total);
  }

  lemma QuotientIsOne(n: real, d: real)
    requires d > 0.0
    ensures n / d == 1.0 <==> n == d
  {
    QuotientSelf(d);
    if n / d == 1.0 {
      assert n == n / d * d;
    }
  }

  // ---- range_selectivity ----

  datatype Column = Column(nullFraction: real, minValue: Option<real>, maxValue: Option<real>, rowCount: nat,
                           histogram: Option<Bins>) {
    ghost predicate Valid() {
      0.0 <= nullFraction <= 1.0 && (histogram.Some? ==> histogram.value.Valid())
    }
  }

  /** One row's worth, the least selectivity a range is given. */
  function Floor(rowCount: nat): (r: real)
    ensures 0.0 < r <= 1.0
  {
    var n := (if rowCount > 1 then rowCount else 1) as real;
    QuotientMono(1.0, n, n);
    QuotientSelf(n);
    QuotientPositive(1.0, n);
    1.0 / n
  }

  /** One row's share of the rows, everything where there are fewer than two. */
  lemma FloorMeaning(rowCount: nat)
    ensures rowCount >= 1 ==> Floor(rowCount) * rowCount as real == 1.0
    ensures rowCount <= 1 ==> Floor(rowCount) == 1.0
  {
    if rowCount >= 1 {
      QuotientSelf(rowCount as real);
      assert 1.0 / rowCount as real * rowCount as real == 1.0;
    }
  }

  /** Nulls are in no range. */
  function NonNullOnly(sel: real, nullFraction: real): real {
    sel * (1.0 - nullFraction)
  }

  lemma NonNullOnlyBounds(p: real, q: real, f: real)
    requires 0.0 <= f <= 1.0 && p <= q
    ensures NonNullOnly(p, f) <= NonNullOnly(q, f)
    ensures NonNullOnly(0.0, f) == 0.0 && NonNullOnly(1.0, f) == 1.0 - f
  {}

  /** The bounds after defaulting and clipping to the column's extrema. */
  function Clip(c: Column, low: Option<real>, high: Option<real>): (real, real)
    requires c.minValue.Some? && c.maxValue.Some?
  {
    var lo := if low.Some? then low.value else c.minValue.value;
    var hi := if high.Some? then high.value else c.maxValue.value;
    (Max(lo, c.minValue.value), Min(hi, c.maxValue.value))
  }

  /** The share of non-null rows in [lo, hi]: by histogram if there is one, else as if spread evenly. */
  ghost function NonNullShare(c: Column, lo: real, hi: real): real
    requires c.Valid() && c.minValue.Some? && c.maxValue.Some? && c.minValue.value < c.maxValue.value
  {
    if c.histogram.Some? && |c.histogram.value.counts| > 0 then
      if Total(c.histogram.value.counts) == 0 then DEFAULT_FILTER_SELECTIVITY else Share(c.histogram.value, lo, hi)
    else (hi - lo) / (c.maxValue.value - c.minValue.value)
  }

  ghost function Selectivity(c: Column, low: Option<real>, high: Option<real>): real
    requires c.Valid()
  {
    if c.minValue.None? || c.maxValue.None? || c.maxValue.value - c.minValue.value <= 0.0
    then DEFAULT_FILTER_SELECTIVITY
    else
      var (lo, hi) := Clip(c, low, high);
      if lo >= hi then Floor(c.rowCount)
      else Max(NonNullOnly(NonNullShare(c, lo, hi), c.nullFraction), Floor(c.rowCount))
  }

  method RangeSelectivity(c: Column, low: Option<real>, high: Option<real>) returns (r: real)
    requires c.Valid()
    ensures r == Selectivity(c, low, high)
  {
    hide RowsBelow, Total, NonNullOnly, Floor, Clip;
    if c.minValue.None? || c.maxValue.None? {
      return DEFAULT_FILTER_SELECTIVITY;
    }
    var span := c.maxValue.value - c.minValue.value;
    if span <= 0.0 {
      return DEFAULT_FILTER_SELECTIVITY;
    }
    var (lo, hi) := Clip(c, low, high);
    if lo >= hi {
      return Floor(c.rowCount);
    }
    var sel;
    if c.histogram.Some? && |c.histogram.value.counts| > 0 {
      sel := HistogramSelectivity(c.histogram.value, lo, hi);
    } else {
      sel := (hi - lo) / span;
    }
    sel := NonNullOnly(sel, c.nullFraction);
    r := Max(sel, Floor(c.rowCount));
  }

  /** Without a histogram the share is that of an even spread: all of the span, additive, and the same for ranges of the
      same width wherever they lie, so half of the span up to its middle. */
  lemma EvenSpread(c: Column, lo: real, mid: real, hi: real, shift: real)
    requires c.Valid() && c.minValue.Some? && c.maxValue.Some? && c.minValue.value < c.maxValue.value
    requires c.histogram.None? || c.histogram.value.counts == []
    ensures NonNullShare(c, c.minValue.value, c.maxValue.value) == 1.0
    ensures NonNullShare(c, lo, mid) + NonNullShare(c, mid, hi) == NonNullShare(c, lo, hi)
    ensures NonNullShare(c, lo + shift, hi + shift) == NonNullShare(c, lo, hi)
    ensures NonNullShare(c, c.minValue.value, (c.minValue.value + c.maxValue.value) / 2.0) == 0.5
  {
    var a, b := c.minValue.value, c.maxValue.value;
    QuotientSelf(b - a);
    QuotientDifference(hi - lo, mid - lo, b - a);
    assert hi - mid == (hi - lo) - (mid - lo);
    var h := (b - a) / 2.0;
    QuotientDifference(b - a, h, b - a);
    assert (a + b) / 2.0 - a == h && (b - a) - h == h;
  }

  lemma NonNullShareRange(c: Column, lo: real, hi: real)
    requires c.Valid() && c.minValue.Some? && c.maxValue.Some? && c.minValue.value < c.maxValue.value
    requires c.minValue.value <= lo <= hi <= c.maxValue.value
    ensures 0.0 <= NonNullShare(c, lo, hi) <= 1.0
  {
    hide RowsBelow, Total, Share;
    if c.histogram.Some? && |c.histogram.value.counts| > 0 {
      if Total(c.histogram.value.counts) > 0 {
        ShareIsMeasure(c.histogram.value, lo, lo, hi);
      }
    } else {
      QuotientRange(hi - lo, c.maxValue.value - c.minValue.value);
    }
  }

  lemma NonNullShareGrows(c: Column, lo: real, hi: real, lo2: real, hi2: real)
    requires c.Valid() && c.minValue.Some? && c.maxValue.Some? && c.minValue.value < c.maxValue.value
    requires lo2 <= lo <= hi <= hi2
    ensures NonNullShare(c, lo, hi) <= NonNullShare(c, lo2, hi2)
  {
    hide RowsBelow, Total, Share;
    if c.histogram.Some? && |c.histogram.value.counts| > 0 {
      if Total(c.histogram.value.counts) > 0 {
        ShareIsMeasure(c.histogram.value, lo2, lo, hi);
        ShareIsMeasure(c.histogram.value, lo2, hi, hi2);
      }
    } else {
      QuotientMono(hi - lo, hi2 - lo2, c.maxValue.value - c.minValue.value);
    }
  }

  /** Any range gets at least one row's worth, unless nothing is known of the column, and never more than everything. */
  lemma SelectivityRange(c: Column, low: Option<real>, high: Option<real>)
    requires c.Valid()
    ensures 0.0 < Selectivity(c, low, high) <= 1.0
  {
    hide NonNullShare, NonNullOnly, Floor;
    if c.minValue.Some? && c.maxValue.Some? && c.minValue.value < c.maxValue.value {
      var (lo, hi) := Clip(c, low, high);
      if lo < hi {
        NonNullShareRange(c, lo, hi);
        NonNullOnlyBounds(0.0, NonNullShare(c, lo, hi), c.nullFraction);
        NonNullOnlyBounds(NonNullShare(c, lo, hi), 1.0, c.nullFraction);
      }
    }
  }

  /** The selectivity in figures: 0.33 where nothing is known, one row's share for an empty range, else the share of the
      non-null rows in the range cut down to the extrema, and at least one row's. */
  lemma SelectivityMeaning(c: Column, low: Option<real>, high: Option<real>, lo: real, hi: real)
    requires c.Valid()
    requires c.minValue.Some? && c.maxValue.Some? ==>
               && lo == (if low.Some? && low.value > c.minValue.value then low.value else c.minValue.value)
               && hi == (if high.Some? && high.value < c.maxValue.value then high.value else c.maxValue.value)
    ensures c.minValue.None? || c.maxValue.None? || c.maxValue.value <= c.minValue.value ==>
              Selectivity(c, low, high) == 0.33
    ensures c.minValue.Some? && c.maxValue.Some? && c.minValue.value < c.maxValue.value ==>
              var share := if lo >= hi then 0.0 else NonNullShare(c, lo, hi) * (1.0 - c.nullFraction);
              lo >= hi || share <= Floor(c.rowCount) ==> Selectivity(c, low, high) == Floor(c.rowCount)
    ensures c.minValue.Some? && c.maxValue.Some? && c.minValue.value < c.maxValue.value && lo < hi ==>
              var share := NonNullShare(c, lo, hi) * (1.0 - c.nullFraction);
              share >= Floor(c.rowCount) ==> Selectivity(c, low, high) == share
  {
    hide NonNullShare, Floor;
  }

  /** An absent bound is the widest. */
  predicate Wider(low2: Option<real>, high2: Option<real>, low: Option<real>, high: Option<real>) {
    (low2.Some? ==> low.Some? && low2.value <= low.value) && (high2.Some? ==> high.Some? && high.value <= high2.value)
  }

  lemma ClipWider(c: Column, low: Option<real>, high: Option<real>, low2: Option<real>, high2: Option<real>)
    requires c.minValue.Some? && c.maxValue.Some? && Wider(low2, high2, low, high)
    ensures Clip(c, low2, high2).0 <= Clip(c, low, high).0 && Clip(c, low, high).1 <= Clip(c, low2, high2).1
  {}

  /** Widening a range never lowers its selectivity. */
  lemma SelectivityGrows(c: Column, low: Option<real>, high: Option<real>, low2: Option<real>, high2: Option<real>)
    requires c.Valid() && Wider(low2, high2, low, high)
    ensures Selectivity(c, low, high) <= Selectivity(c, low2, high2)
  {
    hide NonNullShare, NonNullOnly, Floor, Clip;
    if c.minValue.Some? && c.maxValue.Some? && c.minValue.value < c.maxValue.value {
      var (lo, hi) := Clip(c, low, high);
      var (lo2, hi2) := Clip(c, low2, high2);
      ClipWider(c, low, high, low2, high2);
      if lo < hi {
        NonNullShareGrows(c, lo, hi, lo2, hi2);
        NonNullOnlyBounds(NonNullShare(c, lo, hi), NonNullShare(c, lo2, hi2), c.nullFraction);
      }
    }
  }

  /** Without bounds, a histogram over the column's span leaves just the non-null rows. */
  lemma WholeSpan(c: Column)
    requires c.Valid() && c.minValue.Some? && c.maxValue.Some? && c.minValue.value < c.maxValue.value
    requires c.histogram.Some? && |c.histogram.value.counts| > 0 && Total(c.histogram.value.counts) > 0
    requires c.histogram.value.edges[0] == c.minValue.value
    requires c.histogram.value.edges[|c.histogram.value.counts|] == c.maxValue.value
    requires Increasing(c.histogram.value.edges)
    ensures Selectivity(c, None, None) == Max(1.0 - c.nullFraction, Floor(c.rowCount))
  {
    hide RowsBelow, Total, Share;
    ShareIsMeasure(c.histogram.value, c.minValue.value, c.minValue.value, c.maxValue.value);
    NonNullOnlyBounds(0.0, 1.0, c.nullFraction);
  }

  // ---- _histogram_sql ----

  /** Equal steps from the minimum. */
  function Edges(min: real, max: real, bins: nat): (r: seq<real>)
    requires bins > 0
    ensures |r| == bins + 1 && forall i :: 0 <= i <= bins ==> r[i] == min + (max - min) / bins as real * i as real
  {
    seq(bins + 1, i requires 0 <= i <= bins => min + (max - min) / bins as real * i as real)
  }

  lemma StepMono(step: real, i: nat, j: nat)
    requires step > 0.0 && i < j
    ensures step * i as real < step * j as real
  {}

  lemma QuotientPositive(n: real, d: real)
    requires n > 0.0 && d > 0.0
    ensures n / d > 0.0 && n / d * d == n
  {}

  /** The edges increase strictly from the minimum to the maximum. */
  lemma EdgesMeaning(min: real, max: real, bins: nat)
    requires bins > 0 && min < max
    ensures Increasing(Edges(min, max, bins)) && Edges(min, max, bins)[0] == min && Edges(min, max, bins)[bins] == max
  {
    var edges, step := Edges(min, max, bins), (max - min) / bins as real;
    QuotientPositive(max - min, bins as real);
    forall i, j | 0 <= i < j < |edges|
      ensures edges[i] < edges[j]
    {
      StepMono(step, i, j);
    }
  }

  function CountUpTo(values: seq<real>, x: real): (r: nat)
    ensures r <= |values|
  {
    if values == [] then 0
    else CountUpTo(values[..|values| - 1], x) + if values[|values| - 1] <= x then 1 else 0
  }

  /** Values in the half-open bin (lo, hi]. */
  function CountIn(values: seq<real>, lo: real, hi: real): nat {
    if values == [] then 0
    else CountIn(values[..|values| - 1], lo, hi) + if lo < values[|values| - 1] <= hi then 1 else 0
  }

  /** DuckDB's `histogram(v, edges)` in key order: up to the first edge, then one half-open bin per further edge. */
  function Buckets(values: seq<real>, edges: seq<real>): (r: seq<nat>)
    requires edges != []
    ensures |r| == |edges| && r[0] == CountUpTo(values, edges[0])
    ensures forall i :: 0 < i < |edges| ==> r[i] == CountIn(values, edges[i - 1], edges[i])
  {
    seq(|edges|, i requires 0 <= i < |edges| =>
      if i == 0 then CountUpTo(values, edges[0]) else CountIn(values, edges[i - 1], edges[i]))
  }

  /** The bucket at or below the minimum joins the first bin; a map of any other width is given up. */
  function FoldFirst(ordered: seq<nat>, bins: nat): Option<seq<nat>>
    requires bins > 0
  {
    if |ordered| != bins + 1 then None else Some([ordered[0] + ordered[1]] + ordered[2..])
  }

  lemma {:induction false} TotalAppend(a: seq<nat>, b: seq<nat>)
    ensures Total(a + b) == Total(a) + Total(b)
  {
    if b == [] {
      assert a + b == a;
    } else {
      TotalAppend(a, b[..|b| - 1]);
      assert (a + b)[..|a + b| - 1] == a + b[..|b| - 1];
    }
  }

  lemma TotalOne(n: nat)
    ensures Total([n]) == n
  {
    assert [n][..0] == [];
  }

  /** Folding two bins keeps every row. */
  lemma FoldKeepsTotal(ordered: seq<nat>, bins: nat)
    requires bins > 0 && |ordered| == bins + 1
    ensures FoldFirst(ordered, bins).Some? && |FoldFirst(ordered, bins).value| == bins
    ensures Total(FoldFirst(ordered, bins).value) == Total(ordered)
  {
    hide Total;
    var a, b, rest := ordered[0], ordered[1], ordered[2..];
    assert ordered == [a] + ([b] + rest);
    TotalAppend([a], [b] + rest);
    TotalAppend([b], rest);
    TotalAppend([a + b], rest);
    TotalOne(a);
    TotalOne(b);
    TotalOne(a + b);
  }

  lemma {:induction false} CountSplits(values: seq<real>, lo: real, hi: real)
    requires lo <= hi
    ensures CountUpTo(values, lo) + CountIn(values, lo, hi) == CountUpTo(values, hi)
  {
    if values != [] {
      CountSplits(values[..|values| - 1], lo, hi);
    }
  }

  lemma {:induction false} BucketsTelescope(values: seq<real>, edges: seq<real>)
    requires edges != [] && Increasing(edges)
    ensures Total(Buckets(values, edges)) == CountUpTo(values, edges[|edges| - 1])
    decreases |edges|
  {
    hide CountUpTo, CountIn;
    var n := |edges| - 1;
    if n == 0 {
      assert Buckets(values, edges) == [CountUpTo(values, edges[0])];
      TotalOne(CountUpTo(values, edges[0]));
    } else {
      var init := edges[..n];
      BucketsTelescope(values, init);
      assert forall i :: 0 <= i < n ==> init[i] == edges[i];
      assert Buckets(values, edges)[..n] == Buckets(values, init);
      CountSplits(values, edges[n - 1], edges[n]);
    }
  }

  lemma {:induction false} AllUpTo(values: seq<real>, x: real)
    requires forall i :: 0 <= i < |values| ==> values[i] <= x
    ensures CountUpTo(values, x) == |values|
  {
    if values != [] {
      AllUpTo(values[..|values| - 1], x);
    }
  }

  /** The histogram DuckDB is asked for: valid, spanning the column, and holding every sampled value exactly once. */
  lemma SqlHistogram(values: seq<real>, min: real, max: real, bins: nat)
    requires bins > 0 && min < max && forall i :: 0 <= i < |values| ==> values[i] <= max
    ensures var edges := Edges(min, max, bins);
            var counts := FoldFirst(Buckets(values, edges), bins);
            && counts.Some? && Bins(edges, counts.value).Valid() && Increasing(edges)
            && Total(counts.value) == |values|
            && edges[0] == min && edges[bins] == max
  {
    var edges := Edges(min, max, bins);
    EdgesMeaning(min, max, bins);
    FoldKeepsTotal(Buckets(values, edges), bins);
    BucketsTelescope(values, edges);
    AllUpTo(values, max);
  }
}
