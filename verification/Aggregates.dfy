/** aggregation_evaluator.py on one column: the _agg_* functions, and the running totals a grouped pass keeps for
    them. */
module Aggregates {
  import opened Values

  /** An aggregated cell; averages and deviations are real numbers. */
  datatype Out = Scalar(v: Value) | Real(x: real)

  datatype AggFn = CollectFn | CountFn | SumFn | AvgFn | MinFn | MaxFn | SpreadFn(sample: bool)

  /** Standard deviation of some numbers, with or without Bessel's correction. */
  type Spread = (bool, seq<int>) -> real

  // ---- dropna, drop_duplicates ----

  function DropNa(vs: seq<Value>): (r: seq<Value>)
    ensures forall v :: v in r <==> v in vs && !v.Null?
  {
    if vs == [] then []
    else
      var init, last := DropNa(vs[..|vs| - 1]), vs[|vs| - 1];
      assert vs == vs[..|vs| - 1] + [last];
      if last.Null? then init else init + [last]
  }

  predicate Seen(v: Value, s: seq<Value>) {
    exists i :: 0 <= i < |s| && SameValue(s[i], v)
  }

  /** The first of each run of equal values, nulls being equal to each other. */
  function Dedupe(vs: seq<Value>): seq<Value> {
    if vs == [] then []
    else
      var init, last := Dedupe(vs[..|vs| - 1]), vs[|vs| - 1];
      if Seen(last, init) then init else init + [last]
  }

  /** Lists cannot be hashed, so neither deduplicated nor grouped by. */
  predicate Hashable(vs: seq<Value>) {
    forall i :: 0 <= i < |vs| ==> !vs[i].List?
  }

  lemma SeenIgnoresNulls(v: Value, s: seq<Value>)
    requires !v.Null?
    ensures Seen(v, s) <==> Seen(v, DropNa(s))
  {
    if Seen(v, s) {
      var i :| 0 <= i < |s| && SameValue(s[i], v);
      assert s[i] in DropNa(s);
    }
    if Seen(v, DropNa(s)) {
      var i :| 0 <= i < |DropNa(s)| && SameValue(DropNa(s)[i], v);
      assert DropNa(s)[i] in s;
    }
  }

  /** nunique and drop_duplicates().notna() count the same values. */
  lemma {:induction false} DedupeDropNa(vs: seq<Value>)
    ensures DropNa(Dedupe(vs)) == Dedupe(DropNa(vs))
  {
    hide Seen;
    if vs != [] {
      var init, last := vs[..|vs| - 1], vs[|vs| - 1];
      DedupeDropNa(init);
      if !last.Null? {
        SeenIgnoresNulls(last, Dedupe(init));
      }
      if !last.Null? && !Seen(last, Dedupe(init)) {
        var r := Dedupe(init) + [last];
        assert r[..|r| - 1] == Dedupe(init);
      } else if last.Null? && !Seen(last, Dedupe(init)) {
        var r := Dedupe(init) + [last];
        assert r[..|r| - 1] == Dedupe(init);
      }
      if !last.Null? {
        var r := DropNa(init) + [last];
        assert r[..|r| - 1] == DropNa(init);
      }
    }
  }

  // ---- The ungrouped aggregates ----

  /** `a + b` on values: numbers add, text and lists concatenate. */
  function Add(a: Value, b: Value): Res<Value> {
    if a.Numeric() && b.Numeric() then Ok(Int(a.AsInt() + b.AsInt()))
    else match (a, b)
      case (Str(s), Str(t)) => Ok(Str(s + t))
      case (List(xs), List(ys)) => Ok(List(xs + ys))
      case _ => Err
  }

  /** The sum of one or more values. */
  function Total(xs: seq<Value>): Res<Value>
    requires xs != []
  {
    if |xs| == 1 then Ok(if xs[0].Numeric() then Int(xs[0].AsInt()) else xs[0])
    else
      var t :- Total(xs[..|xs| - 1]);
      Add(t, xs[|xs| - 1])
  }

  /** The least, or greatest, of one or more values; the first of equals wins. */
  function Best(xs: seq<Value>, greatest: bool): Res<Value>
    requires xs != []
  {
    if |xs| == 1 then Ok(xs[0])
    else
      var best :- Best(xs[..|xs| - 1], greatest);
      Better(best, xs[|xs| - 1], greatest)
  }

  function Better(best: Value, v: Value, greatest: bool): Res<Value> {
    var less :- if greatest then Less(best, v) else Less(v, best);
    Ok(if less then v else best)
  }

  function Numbers(xs: seq<Value>): Res<seq<int>> {
    if forall i :: 0 <= i < |xs| ==> xs[i].Numeric()
    then Ok(seq(|xs|, i requires 0 <= i < |xs| && xs[i].Numeric() => xs[i].AsInt()))
    else Err
  }

  /** _AGG_OPS: every aggregate but collect ignores nulls, and only count is defined on nothing but nulls. */
  function Aggregate(spread: Spread, fn: AggFn, vs: seq<Value>): Res<Out> {
    var xs := DropNa(vs);
    match fn
    case CollectFn => Ok(Scalar(List(vs)))
    case CountFn => Ok(Scalar(Int(|xs|)))
    case SumFn =>
      if xs == [] then Ok(Scalar(Null))
      else
        var t :- Total(xs);
        if t.Numeric() then Ok(Scalar(t)) else Err
    case AvgFn =>
      if xs == [] then Ok(Scalar(Null))
      else
        var t :- Total(xs);
        Mean(t, |xs|)
    case MinFn => if xs == [] then Ok(Scalar(Null)) else var m :- Best(xs, false); Ok(Scalar(m))
    case MaxFn => if xs == [] then Ok(Scalar(Null)) else var m :- Best(xs, true); Ok(Scalar(m))
    case SpreadFn(sample) =>
      if |xs| < (if sample then 2 else 1) then Ok(Scalar(Null))
      else
        var ns :- Numbers(xs);
        Ok(Real(spread(sample, ns)))
  }

  function Mean(total: Value, n: nat): Res<Out>
    requires n > 0
  {
    if total.Numeric() then Ok(Real(total.AsInt() as real / n as real)) else Err
  }

  /** With the DISTINCT modifier. */
  function AggregateValues(spread: Spread, fn: AggFn, distinct: bool, vs: seq<Value>): Res<Out> {
    if !distinct then Aggregate(spread, fn, vs)
    else if Hashable(vs) then Aggregate(spread, fn, Dedupe(vs))
    else Err
  }

  // ---- What a group's value is in the grouped pass ----

  /** `groupby.sum(min_count=1)`, which unlike _agg_sum does not insist on a number. */
  function GroupedSum(vs: seq<Value>): Res<Out> {
    var xs := DropNa(vs);
    if xs == [] then Ok(Scalar(Null))
    else
      var t :- Total(xs);
      Ok(Scalar(t))
  }

  function GroupedValue(spread: Spread, fn: AggFn, distinct: bool, vs: seq<Value>): Res<Out> {
    if fn.SumFn? && !distinct then GroupedSum(vs) else AggregateValues(spread, fn, distinct, vs)
  }

  /** All text, or all lists, nulls aside, and not all null. */
  predicate TextOnly(vs: seq<Value>) {
    && DropNa(vs) != []
    && ((forall i :: 0 <= i < |vs| ==> vs[i].Null? || vs[i].Str?)
        || (forall i :: 0 <= i < |vs| ==> vs[i].Null? || vs[i].List?))
  }

  lemma {:induction false} TotalKind(xs: seq<Value>)
    requires xs != [] && forall i :: 0 <= i < |xs| ==> !xs[i].Null?
    ensures Total(xs).Ok?
            <==> (forall i :: 0 <= i < |xs| ==> xs[i].Numeric()) || (forall i :: 0 <= i < |xs| ==> xs[i].Str?)
                               || (forall i :: 0 <= i < |xs| ==> xs[i].List?)
    ensures Total(xs).Ok? ==>
              var t := Total(xs).value;
              && (t.Numeric() <==> xs[0].Numeric()) && (t.Str? <==> xs[0].Str?) && (t.List? <==> xs[0].List?)
  {
    if |xs| > 1 {
      var n := |xs| - 1;
      TotalKind(xs[..n]);
      assert xs[..n][0] == xs[0];
      assert forall i :: 0 <= i < |xs| ==> xs[i] == if i < n then xs[..n][i] else xs[n];
    }
  }

  /** The grouped value of a group is the ungrouped one, except that a sum of nothing but text is not refused. */
  lemma GroupedValueIff(spread: Spread, fn: AggFn, distinct: bool, vs: seq<Value>)
    ensures GroupedValue(spread, fn, distinct, vs) == AggregateValues(spread, fn, distinct, vs)
            <==> !(fn.SumFn? && !distinct && TextOnly(vs))
    ensures GroupedValue(spread, fn, distinct, vs).Err? ==> AggregateValues(spread, fn, distinct, vs).Err?
  {
    hide Total, Seen, Dedupe, Best, DropNa;
    var xs := DropNa(vs);
    if fn.SumFn? && !distinct && xs != [] {
      TotalKind(xs);
      assert xs[0] in xs;
      assert forall i :: 0 <= i < |xs| ==> xs[i] in vs;
      assert forall i :: 0 <= i < |vs| && !vs[i].Null? ==> vs[i] in xs;
    }
  }

  /** The grouped plain sum of text, or of lists, puts them one after the other, and nulls change nothing. */
  lemma ConcatenatingSum(spread: Spread, vs: seq<Value>, v: Value)
    requires v.Str? || v.List?
    ensures GroupedValue(spread, SumFn, false, []) == Ok(Scalar(Null))
    ensures GroupedValue(spread, SumFn, false, vs + [Null]) == GroupedValue(spread, SumFn, false, vs)
    ensures var before, after := GroupedValue(spread, SumFn, false, vs), GroupedValue(spread, SumFn, false, vs + [v]);
            match before
            case Ok(Scalar(Null)) => after == Ok(Scalar(v))
            case Ok(Scalar(Str(s))) => after == if v.Str? then Ok(Scalar(Str(s + v.s))) else Err
            case Ok(Scalar(List(xs))) => after == if v.List? then Ok(Scalar(List(xs + v.items))) else Err
            case _ => after == Err
  {
    hide Total;
    var xs := DropNa(vs);
    assert (vs + [Null])[..|vs|] == vs && (vs + [v])[..|vs|] == vs;
    assert DropNa(vs + [v]) == xs + [v];
    TotalStep(xs, v);
    if xs != [] {
      TotalKind(xs);
    }
  }

  lemma TotalStep(xs: seq<Value>, v: Value)
    requires !v.Numeric()
    ensures xs == [] ==> Total(xs + [v]) == Ok(v)
    ensures xs != [] ==> Total(xs + [v]) == if Total(xs).Err? then Err else Add(Total(xs).value, v)
  {
    assert (xs + [v])[..|xs|] == xs;
    assert xs == [] ==> xs + [v] == [v];
  }

  // ---- Running totals ----

  /** The accumulator after the values, in order. */
  function FoldLeft<A>(step: (A, Value) -> A, init: A, vs: seq<Value>): A {
    if vs == [] then init else step(FoldLeft(step, init, vs[..|vs| - 1]), vs[|vs| - 1])
  }

  function CountStep(n: nat, v: Value): nat {
    if v.Null? then n else n + 1
  }

  lemma {:induction false} CountFold(vs: seq<Value>)
    ensures FoldLeft(CountStep, 0, vs) == |DropNa(vs)|
  {
    if vs != [] {
      CountFold(vs[..|vs| - 1]);
    }
  }

  function UniqueStep(s: seq<Value>, v: Value): seq<Value> {
    if v.Null? || Seen(v, s) then s else s + [v]
  }

  lemma {:induction false} UniqueFold(vs: seq<Value>)
    ensures FoldLeft(UniqueStep, [], vs) == Dedupe(DropNa(vs))
  {
    hide Seen;
    if vs != [] {
      var init, last := vs[..|vs| - 1], vs[|vs| - 1];
      UniqueFold(init);
      if !last.Null? {
        var r := DropNa(init) + [last];
        assert r[..|r| - 1] == DropNa(init);
      }
    }
  }

  /** Non-null values so far, and their sum. */
  datatype Running = Running(count: nat, total: Res<Value>)

  function SumStep(a: Running, v: Value): Running {
    if v.Null? then a
    else Running(a.count + 1, if a.count == 0 then Total([v]) else if a.total.Err? then Err else Add(a.total.value, v))
  }

  lemma {:induction false} SumFold(vs: seq<Value>)
    ensures FoldLeft(SumStep, Running(0, Err), vs) ==
            Running(|DropNa(vs)|, if DropNa(vs) == [] then Err else Total(DropNa(vs)))
  {
    if vs != [] {
      var init, last := vs[..|vs| - 1], vs[|vs| - 1];
      SumFold(init);
      if !last.Null? {
        var r := DropNa(init) + [last];
        assert r == DropNa(vs) && r[..|r| - 1] == DropNa(init);
        if DropNa(init) == [] {
          assert r == [last];
        }
      }
    }
  }

  function BestStep(greatest: bool): (Running, Value) -> Running {
    (a: Running, v: Value) =>
      if v.Null? then a
      else
        var best := if a.count == 0 then Ok(v) else if a.total.Err? then Err else Better(a.total.value, v, greatest);
        Running(a.count + 1, best)
  }

  lemma {:induction false} BestFold(vs: seq<Value>, greatest: bool)
    ensures FoldLeft(BestStep(greatest), Running(0, Err), vs) ==
            Running(|DropNa(vs)|, if DropNa(vs) == [] then Err else Best(DropNa(vs), greatest))
  {
    hide Better;
    if vs != [] {
      var init, last := vs[..|vs| - 1], vs[|vs| - 1];
      BestFold(init, greatest);
      if !last.Null? {
        var r := DropNa(init) + [last];
        assert r == DropNa(vs) && r[..|r| - 1] == DropNa(init);
        if DropNa(init) == [] {
          assert r == [last];
        }
      }
    }
  }

  function CollectStep(s: seq<Value>, v: Value): seq<Value> {
    s + [v]
  }

  lemma {:induction false} CollectFold(vs: seq<Value>)
    ensures FoldLeft(CollectStep, [], vs) == vs
  {
    if vs != [] {
      CollectFold(vs[..|vs| - 1]);
    }
  }
}
