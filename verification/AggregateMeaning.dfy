/** What the aggregates of columns, frames and groups are, on the cells of the column by row number. */
module AggregateMeaning {
  import opened Values
  import opened RowSemantics
  import opened ColumnSpec
  import opened QueryLaws
  import opened RowMeaning
  import opened Aggregates
  import opened Grouping
  import opened GroupedAggregation
  import SortedNames

  // ---- The cells that take part ----

  /** The non-null cells, in order. */
  lemma {:induction false} DropNaAt(vs: seq<Value>) returns (ks: seq<nat>)
    ensures Increasing(ks, |vs|) && forall i: nat :: i in ks <==> i < |vs| && vs[i] != Null
    ensures |DropNa(vs)| == |ks| && forall k :: 0 <= k < |ks| ==> DropNa(vs)[k] == vs[ks[k]]
  {
    ks := [];
    if vs != [] {
      var n := |vs| - 1;
      ks := DropNaAt(vs[..n]);
      assert forall i :: 0 <= i < n ==> vs[..n][i] == vs[i];
      if vs[n] != Null {
        ks := ks + [n];
      }
    }
  }

  /** No earlier cell holds an equal value. */
  ghost predicate IsFirstCell(vs: seq<Value>, i: nat) {
    i < |vs| && forall j :: 0 <= j < i ==> Normal(vs[j]) != Normal(vs[i])
  }

  lemma {:induction false} FirstCellOf(vs: seq<Value>, i: nat) returns (j: nat)
    requires i < |vs|
    ensures j <= i && IsFirstCell(vs, j) && Normal(vs[j]) == Normal(vs[i])
  {
    hide Normal;
    if h :| 0 <= h < i && Normal(vs[h]) == Normal(vs[i]) {
      j := FirstCellOf(vs, h);
    } else {
      j := i;
    }
  }

  /** Deduplication keeps the first cell of each value. */
  lemma {:induction false} DedupeAt(vs: seq<Value>) returns (js: seq<nat>)
    ensures Increasing(js, |vs|) && forall i: nat :: i in js <==> IsFirstCell(vs, i)
    ensures |Dedupe(vs)| == |js| && forall k :: 0 <= k < |js| ==> Dedupe(vs)[k] == vs[js[k]]
  {
    hide Normal, Seen;
    js := [];
    if vs != [] {
      var n := |vs| - 1;
      var init := vs[..n];
      js := DedupeAt(init);
      assert forall i :: 0 <= i < n ==> init[i] == vs[i];
      assert forall i: nat :: i < n ==> (IsFirstCell(init, i) <==> IsFirstCell(vs, i));
      SeenIsLater(vs, js);
      if !Seen(vs[n], Dedupe(init)) {
        js := js + [n];
      }
    }
  }

  lemma SeenIsLater(vs: seq<Value>, js: seq<nat>)
    requires vs != [] && Increasing(js, |vs| - 1) && forall i: nat :: i in js <==> IsFirstCell(vs[..|vs| - 1], i)
    requires |Dedupe(vs[..|vs| - 1])| == |js|
    requires forall k :: 0 <= k < |js| ==> Dedupe(vs[..|vs| - 1])[k] == vs[js[k]]
    ensures Seen(vs[|vs| - 1], Dedupe(vs[..|vs| - 1])) <==> !IsFirstCell(vs, |vs| - 1)
  {
    hide Normal, Dedupe, SameValue;
    var n := |vs| - 1;
    var init, kept := vs[..n], Dedupe(vs[..n]);
    if Seen(vs[n], kept) {
      var k :| 0 <= k < |kept| && SameValue(kept[k], vs[n]);
      SameValueMeaning(kept[k], vs[n]);
      assert Normal(vs[js[k]]) == Normal(vs[n]);
    }
    if !IsFirstCell(vs, n) {
      var i :| 0 <= i < n && Normal(vs[i]) == Normal(vs[n]);
      var j := FirstCellOf(init, i);
      assert j in js;
      var k :| 0 <= k < |js| && js[k] == j;
      SameValueMeaning(kept[k], vs[n]);
    }
  }

  /** Cell i is not null and, under DISTINCT, the first with its value. */
  ghost predicate TakesPart(distinct: bool, vs: seq<Value>, i: nat) {
    i < |vs| && vs[i] != Null && (distinct ==> IsFirstCell(vs, i))
  }

  lemma Participants(distinct: bool, vs: seq<Value>) returns (ks: seq<nat>)
    ensures Increasing(ks, |vs|) && forall i: nat :: i in ks <==> TakesPart(distinct, vs, i)
    ensures var xs := DropNa(if distinct then Dedupe(vs) else vs);
            |xs| == |ks| && forall k :: 0 <= k < |ks| ==> xs[k] == vs[ks[k]]
  {
    hide Dedupe, DropNa, IsFirstCell;
    if distinct {
      var js := DedupeAt(vs);
      var ms := DropNaAt(Dedupe(vs));
      ks := seq(|ms|, k requires 0 <= k < |ms| => js[ms[k]]);
      ThroughBoth(vs, Dedupe(vs), js, ms, ks);
    } else {
      ks := DropNaAt(vs);
    }
  }

  lemma ThroughBoth(vs: seq<Value>, us: seq<Value>, js: seq<nat>, ms: seq<nat>, ks: seq<nat>)
    requires Increasing(js, |vs|) && forall i: nat :: i in js <==> IsFirstCell(vs, i)
    requires |us| == |js| && forall k :: 0 <= k < |js| ==> us[k] == vs[js[k]]
    requires Increasing(ms, |us|) && forall i: nat :: i in ms <==> i < |us| && us[i] != Null
    requires |ks| == |ms| && forall k :: 0 <= k < |ms| ==> ks[k] == js[ms[k]]
    ensures Increasing(ks, |vs|) && forall i: nat :: i in ks <==> TakesPart(true, vs, i)
  {
    hide IsFirstCell;
    forall i: nat
      ensures i in ks <==> TakesPart(true, vs, i)
    {
      if TakesPart(true, vs, i) {
        assert IsFirstCell(vs, i) by { FirstOfPart(vs, i); }
        assert i in js;
        var m :| 0 <= m < |js| && js[m] == i;
        assert m in ms;
        var k :| 0 <= k < |ms| && ms[k] == m;
        assert ks[k] == i;
      }
      if i in ks {
        var k :| 0 <= k < |ks| && ks[k] == i;
        assert ms[k] in ms && js[ms[k]] in js;
      }
    }
  }

  lemma FirstOfPart(vs: seq<Value>, i: nat)
    requires TakesPart(true, vs, i)
    ensures IsFirstCell(vs, i)
  {}

  // ---- The aggregates of integers ----

  predicate IntsOrNulls(vs: seq<Value>) {
    forall i :: 0 <= i < |vs| ==> vs[i].Null? || vs[i].Int?
  }

  ghost predicate IntsAt(vs: seq<Value>, ks: seq<nat>) {
    forall k :: 0 <= k < |ks| ==> ks[k] < |vs| && vs[ks[k]].Int?
  }

  function SumAt(vs: seq<Value>, ks: seq<nat>): int
    requires forall k :: 0 <= k < |ks| ==> ks[k] < |vs| && vs[ks[k]].Int?
  {
    if ks == [] then 0 else SumAt(vs, ks[..|ks| - 1]) + vs[ks[|ks| - 1]].n
  }

  function NumbersAt(vs: seq<Value>, ks: seq<nat>): (r: seq<int>)
    requires forall k :: 0 <= k < |ks| ==> ks[k] < |vs| && vs[ks[k]].Int?
    ensures |r| == |ks| && forall k :: 0 <= k < |ks| ==> r[k] == vs[ks[k]].n
  {
    seq(|ks|, k requires 0 <= k < |ks| => vs[ks[k]].n)
  }

  /** The aggregate over the integers in those cells. */
  ghost predicate Means(spread: Spread, fn: AggFn, vs: seq<Value>, ks: seq<nat>, out: Out)
    requires IntsAt(vs, ks)
  {
    match fn
    case CountFn => out == Scalar(Int(|ks|))
    case SumFn => out == Scalar(if ks == [] then Null else Int(SumAt(vs, ks)))
    case AvgFn => if ks == [] then out == Scalar(Null) else out.Real? && out.x * |ks| as real == SumAt(vs, ks) as real
    case MinFn =>
      if ks == [] then out == Scalar(Null)
      else out.Scalar? && out.v.Int? && (exists k :: 0 <= k < |ks| && vs[ks[k]].n == out.v.n)
           && forall k :: 0 <= k < |ks| ==> out.v.n <= vs[ks[k]].n
    case MaxFn =>
      if ks == [] then out == Scalar(Null)
      else out.Scalar? && out.v.Int? && (exists k :: 0 <= k < |ks| && vs[ks[k]].n == out.v.n)
           && forall k :: 0 <= k < |ks| ==> vs[ks[k]].n <= out.v.n
    case SpreadFn(sample) =>
      out == if |ks| < (if sample then 2 else 1) then Scalar(Null) else Real(spread(sample, NumbersAt(vs, ks)))
    case CollectFn => true
  }

  lemma {:induction false} TotalOfInts(vs: seq<Value>, ks: seq<nat>, xs: seq<Value>)
    requires IntsAt(vs, ks) && xs != [] && |xs| == |ks| && forall k :: 0 <= k < |ks| ==> xs[k] == vs[ks[k]]
    ensures Total(xs) == Ok(Int(SumAt(vs, ks)))
  {
    if |xs| > 1 {
      TotalOfInts(vs, ks[..|ks| - 1], xs[..|xs| - 1]);
    } else {
      assert ks[..0] == [];
    }
  }

  lemma {:induction false} BestOfInts(xs: seq<Value>, greatest: bool) returns (k: nat)
    requires xs != [] && forall i :: 0 <= i < |xs| ==> xs[i].Int?
    ensures k < |xs| && Best(xs, greatest) == Ok(xs[k])
    ensures forall i :: 0 <= i < |xs| ==> if greatest then xs[i].n <= xs[k].n else xs[k].n <= xs[i].n
  {
    k := 0;
    if |xs| > 1 {
      var n := |xs| - 1;
      k := BestOfInts(xs[..n], greatest);
      assert forall i :: 0 <= i < n ==> xs[..n][i] == xs[i];
      if if greatest then xs[k].n < xs[n].n else xs[n].n < xs[k].n {
        k := n;
      }
    }
  }

  lemma MeanTimesCount(total: int, n: nat)
    requires n > 0
    ensures total as real / n as real * n as real == total as real
  {}

  lemma HandlerMeaning(spread: Spread, fn: AggFn, vs: seq<Value>, ks: seq<nat>, us: seq<Value>)
    requires IntsAt(vs, ks) && !fn.CollectFn?
    requires |DropNa(us)| == |ks| && forall k :: 0 <= k < |ks| ==> DropNa(us)[k] == vs[ks[k]]
    ensures Aggregate(spread, fn, us).Ok? && Means(spread, fn, vs, ks, Aggregate(spread, fn, us).value)
  {
    hide DropNa, Total, Best, SumAt;
    var xs := DropNa(us);
    if ks != [] {
      TotalOfInts(vs, ks, xs);
      match fn
      case AvgFn => MeanTimesCount(SumAt(vs, ks), |ks|);
      case MinFn => var k := BestOfInts(xs, false);
      case MaxFn => var k := BestOfInts(xs, true);
      case SpreadFn(sample) => assert Numbers(xs).Ok? && Numbers(xs).value == NumbersAt(vs, ks);
      case _ =>
    }
  }

  /** Every null-ignoring aggregate of a column of integers and nulls, grouped or not, is what it is called over the
      cells that are not null, under DISTINCT over the first of each value. */
  lemma AggregateMeaning(spread: Spread, fn: AggFn, distinct: bool, vs: seq<Value>) returns (ks: seq<nat>)
    requires IntsOrNulls(vs) && !fn.CollectFn?
    ensures Increasing(ks, |vs|) && IntsAt(vs, ks) && forall i: nat :: i in ks <==> TakesPart(distinct, vs, i)
    ensures AggregateValues(spread, fn, distinct, vs).Ok?
    ensures Means(spread, fn, vs, ks, AggregateValues(spread, fn, distinct, vs).value)
    ensures GroupedValue(spread, fn, distinct, vs) == AggregateValues(spread, fn, distinct, vs)
  {
    hide Means, Aggregate, Dedupe, IsFirstCell;
    ks := Participants(distinct, vs);
    assert forall k :: 0 <= k < |ks| ==> ks[k] in ks;
    HandlerMeaning(spread, fn, vs, ks, if distinct then Dedupe(vs) else vs);
    GroupedValueIff(spread, fn, distinct, vs);
    NotText(vs);
  }

  lemma NotText(vs: seq<Value>)
    requires IntsOrNulls(vs)
    ensures !TextOnly(vs)
  {
    if DropNa(vs) != [] {
      assert DropNa(vs)[0] in DropNa(vs);
      var i :| 0 <= i < |vs| && vs[i] == DropNa(vs)[0];
      assert !vs[i].Null? && vs[i].Int?;
    }
  }

  // ---- Counting and collecting anything, extremes of text ----

  /** Values of any kind are counted where they are not null; DISTINCT cannot count lists. */
  lemma CountMeaning(spread: Spread, distinct: bool, vs: seq<Value>) returns (ks: seq<nat>)
    ensures Increasing(ks, |vs|) && forall i: nat :: i in ks <==> TakesPart(distinct, vs, i)
    ensures AggregateValues(spread, CountFn, distinct, vs) ==
            if distinct && exists i :: 0 <= i < |vs| && vs[i].List? then Err else Ok(Scalar(Int(|ks|)))
  {
    hide Dedupe, DropNa, TakesPart;
    ks := Participants(distinct, vs);
  }

  /** Collecting keeps nulls; DISTINCT keeps the first of each value. */
  lemma CollectMeaning(spread: Spread, vs: seq<Value>) returns (js: seq<nat>)
    ensures AggregateValues(spread, CollectFn, false, vs) == Ok(Scalar(List(vs)))
    ensures Increasing(js, |vs|) && forall i: nat :: i in js <==> IsFirstCell(vs, i)
    ensures AggregateValues(spread, CollectFn, true, vs) ==
            if exists i :: 0 <= i < |vs| && vs[i].List? then Err
            else Ok(Scalar(List(seq(|js|, k requires 0 <= k < |js| => vs[js[k]]))))
  {
    hide Dedupe, DropNa, IsFirstCell;
    js := DedupeAt(vs);
    assert Dedupe(vs) == seq(|js|, k requires 0 <= k < |js| => vs[js[k]]);
  }

  /** s comes before t: it has the smaller character where they first differ, or ends there. */
  ghost predicate TextBefore(s: string, t: string) {
    exists k: nat :: SmallerAt(s, t, k)
  }

  lemma {:induction false} BestOfTexts(xs: seq<Value>, greatest: bool) returns (k: nat)
    requires xs != [] && forall i :: 0 <= i < |xs| ==> xs[i].Str?
    ensures k < |xs| && Best(xs, greatest) == Ok(xs[k])
    ensures forall i :: 0 <= i < |xs| ==>
              !if greatest then TextBefore(xs[k].s, xs[i].s) else TextBefore(xs[i].s, xs[k].s)
  {
    hide SmallerAt, StringLess;
    k := 0;
    var n := |xs| - 1;
    if n == 0 {
      NotBeforeItself(xs[0].s);
    } else {
      k := BestOfTexts(xs[..n], greatest);
      assert forall i :: 0 <= i < n ==> xs[..n][i] == xs[i];
      var best, last := xs[k].s, xs[n].s;
      StringLessMeaning(best, last);
      StringLessMeaning(last, best);
      NotBeforeItself(last);
      if if greatest then StringLess(best, last) else StringLess(last, best) {
        forall i | 0 <= i < n
          ensures !if greatest then TextBefore(last, xs[i].s) else TextBefore(xs[i].s, last)
        {
          if greatest {
            BeforeThrough(best, last, xs[i].s);
          } else {
            BeforeThrough(xs[i].s, last, best);
          }
        }
        k := n;
      }
    }
  }

  lemma NotBeforeItself(s: string)
    ensures !TextBefore(s, s)
  {
    StringLessMeaning(s, s);
    SortedNames.BeforeIsStrict(s);
  }

  lemma BeforeThrough(s: string, t: string, u: string)
    ensures TextBefore(s, t) && TextBefore(t, u) ==> TextBefore(s, u)
  {
    hide SmallerAt;
    StringLessMeaning(s, t);
    StringLessMeaning(t, u);
    StringLessMeaning(s, u);
    if StringLess(s, t) && StringLess(t, u) {
      SortedNames.StringLessTransitive(s, t, u);
    }
  }

  /** The minimum (maximum) of texts and nulls is one of the texts, and none comes before (after) it. */
  lemma TextExtremes(spread: Spread, fn: AggFn, distinct: bool, vs: seq<Value>) returns (ks: seq<nat>)
    requires (fn.MinFn? || fn.MaxFn?) && forall i :: 0 <= i < |vs| ==> vs[i].Null? || vs[i].Str?
    ensures Increasing(ks, |vs|) && forall i: nat :: i in ks <==> TakesPart(distinct, vs, i)
    ensures ks == [] ==> AggregateValues(spread, fn, distinct, vs) == Ok(Scalar(Null))
    ensures ks != [] ==>
              exists k :: 0 <= k < |ks| && AggregateValues(spread, fn, distinct, vs) == Ok(Scalar(vs[ks[k]]))
                          && vs[ks[k]].Str? && IsExtremeText(vs, ks, vs[ks[k]].s, fn.MaxFn?)
  {
    hide Dedupe, DropNa, IsFirstCell, Best, TextBefore;
    ks := Participants(distinct, vs);
    assert forall k :: 0 <= k < |ks| ==> ks[k] in ks;
    var xs := DropNa(if distinct then Dedupe(vs) else vs);
    forall k | 0 <= k < |ks|
      ensures xs[k] == vs[ks[k]] && xs[k].Str?
    {
      assert TakesPart(distinct, vs, ks[k]);
      assert !vs[ks[k]].Null?;
    }
    if ks != [] {
      var k := BestOfTexts(xs, fn.MaxFn?);
      assert AggregateValues(spread, fn, distinct, vs) == Ok(Scalar(vs[ks[k]]));
    }
  }

  ghost predicate IsExtremeText(vs: seq<Value>, ks: seq<nat>, m: string, greatest: bool)
  {
    forall k :: 0 <= k < |ks| && ks[k] < |vs| && vs[ks[k]].Str? ==>
      !if greatest then TextBefore(m, vs[ks[k]].s) else TextBefore(vs[ks[k]].s, m)
  }

  // ---- Whole frames and groups ----

  /** Without grouping items the one row holds each aggregate over all rows. */
  lemma WholeCellMeaning(h: Host, aggs: seq<AggItem>, f: Frame, t: Table, a: nat, col: seq<Value>)
    returns (ks: seq<nat>)
    requires f.Valid() && WholeTable(h, aggs, f) == Ok(t) && a < |aggs| && aggs[a].a.Lone? && aggs[a].a.call.Call?
    requires !aggs[a].a.call.fn.CollectFn? && Column(h.prims, aggs[a].a.call.arg, f) == Ok(col) && IntsOrNulls(col)
    ensures Increasing(ks, |col|) && IntsAt(col, ks)
    ensures forall i: nat :: i in ks <==> TakesPart(aggs[a].a.call.distinct, col, i)
    ensures |t.columns| == |aggs| && |t.columns[a]| == 1
    ensures Means(h.spread, aggs[a].a.call.fn, col, ks, t.columns[a][0])
  {
    hide Column, Means, TakesPart, AggregateValues;
    var c := aggs[a].a.call;
    ks := AggregateMeaning(h.spread, c.fn, c.distinct, col);
    var outs := seq(|aggs|, k requires 0 <= k < |aggs| => AggregateOver(h, aggs[k].a, f));
    assert outs[a] == AggregateValues(h.spread, c.fn, c.distinct, col);
  }

  /** The value an operand has over the frame: an aggregate's, or a plain expression's in the first row. */
  ghost predicate OperandIs(h: Host, o: Operand, f: Frame, x: Out)
    requires f.Valid()
  {
    match o
    case Aggregated(c) => AggregateOver(h, Lone(c), f) == Ok(x)
    case Plain(e) =>
      var col := Column(h.prims, e, f);
      col.Ok? && x == Scalar(if |col.value| == 0 then Null else col.value[0])
  }

  /** Arithmetic around aggregates: dividing by nothing, zero, false or the empty text gives null, anything else is the
      arithmetic of the two values. */
  lemma WrappedMeaning(h: Host, op: string, l: Operand, r: Operand, f: Frame, x: Out, y: Out)
    requires f.Valid() && OperandIs(h, l, f, x) && OperandIs(h, r, f, y)
    ensures AggregateOver(h, Wrapped(op, l, r), f) ==
            if (op == "/" || op == "%" || op == [0xF7 as char])
               && y in {Scalar(Null), Scalar(Int(0)), Scalar(Bool(false)), Scalar(Str("")), Scalar(List([])), Real(0.0)}
            then Ok(Scalar(Null)) else h.arith(op, x, y)
  {
    hide Column, AggregateValues;
    TruthyMeaning(if y.Scalar? then y.v else Null);
  }

  /** Row i's values of the grouping items equal those in row g of the table. */
  ghost predicate InGroup(cols: seq<seq<Value>>, t: Table, g: nat, i: nat)
    requires |t.columns| >= |cols|
    requires forall k :: 0 <= k < |cols| ==> g < |t.columns[k]| && i < |cols[k]|
  {
    forall k :: 0 <= k < |cols| ==> t.columns[k][g].Scalar? && Normal(cols[k][i]) == Normal(t.columns[k][g].v)
  }

  /** A row's number among the rows a mask keeps. */
  lemma MaskAt(xs: seq<Value>, mask: seq<Value>) returns (at: seq<nat>)
    requires |xs| == |mask|
    ensures Increasing(at, |xs|) && forall i: nat :: i in at <==> i < |xs| && Truthy(mask[i])
    ensures |Select(xs, mask)| == |at| && forall k :: 0 <= k < |at| ==> Select(xs, mask)[k] == xs[at[k]]
  {
    hide Select, Truthy;
    at := TruePositions(mask);
    SelectAt(xs, mask);
    forall i | i in at
      ensures i < |xs| && Truthy(mask[i])
    {
      var k :| 0 <= k < |at| && at[k] == i;
    }
  }

  /** Cell i of the group's rows is not null and, under DISTINCT, the first of the group with its value. */
  ghost predicate TakesPartIn(distinct: bool, vs: seq<Value>, group: set<nat>, i: nat) {
    && i in group && i < |vs| && vs[i] != Null
    && (distinct ==> forall j :: 0 <= j < i && j in group ==> Normal(vs[j]) != Normal(vs[i]))
  }

  /** Aggregating the selected cells is aggregating, among the rows of the group, those that take part. */
  lemma SelectedMeaning(spread: Spread, fn: AggFn, distinct: bool, vs: seq<Value>, mask: seq<Value>, group: set<nat>)
    returns (ks: seq<nat>)
    requires |vs| == |mask| && IntsOrNulls(vs) && !fn.CollectFn?
    requires forall i: nat :: i in group <==> i < |vs| && Truthy(mask[i])
    ensures Increasing(ks, |vs|) && IntsAt(vs, ks)
    ensures forall i: nat :: i in ks <==> TakesPartIn(distinct, vs, group, i)
    ensures GroupedValue(spread, fn, distinct, Select(vs, mask)).Ok?
    ensures Means(spread, fn, vs, ks, GroupedValue(spread, fn, distinct, Select(vs, mask)).value)
  {
    hide Select, Truthy, Means, AggregateValues, GroupedValue, TakesPart, TakesPartIn;
    var at := MaskAt(vs, mask);
    var us := Select(vs, mask);
    var ms := AggregateMeaning(spread, fn, distinct, us);
    ks := seq(|ms|, k requires 0 <= k < |ms| => at[ms[k]]);
    PartsThrough(distinct, vs, group, at, us, ms, ks);
    SameMeaning(spread, fn, vs, ks, us, ms, GroupedValue(spread, fn, distinct, us).value);
  }

  lemma PartsThrough(distinct: bool, vs: seq<Value>, group: set<nat>, at: seq<nat>, us: seq<Value>, ms: seq<nat>,
                     ks: seq<nat>)
    requires Increasing(at, |vs|) && forall i: nat :: i in at <==> i in group
    requires |us| == |at| && forall k :: 0 <= k < |at| ==> us[k] == vs[at[k]]
    requires Increasing(ms, |us|) && forall i: nat :: i in ms <==> TakesPart(distinct, us, i)
    requires |ks| == |ms| && forall k :: 0 <= k < |ms| ==> ks[k] == at[ms[k]]
    ensures Increasing(ks, |vs|) && forall i: nat :: i in ks <==> TakesPartIn(distinct, vs, group, i)
  {
    hide TakesPart, TakesPartIn;
    assert forall m :: 0 <= m < |at| ==> at[m] in at;
    forall i: nat
      ensures i in ks <==> TakesPartIn(distinct, vs, group, i)
    {
      if i in group {
        assert i in at;
        var m :| 0 <= m < |at| && at[m] == i;
        PartAt(distinct, vs, group, at, us, m);
        if m in ms {
          var k :| 0 <= k < |ms| && ms[k] == m;
          assert ks[k] == i;
        }
        if i in ks {
          var k :| 0 <= k < |ks| && ks[k] == i;
          assert at[ms[k]] == at[m];
          assert ms[k] == m;
        }
      } else {
        NotInGroup(distinct, vs, group, i);
      }
    }
  }

  lemma NotInGroup(distinct: bool, vs: seq<Value>, group: set<nat>, i: nat)
    requires i !in group
    ensures !TakesPartIn(distinct, vs, group, i)
  {}

  lemma PartAt(distinct: bool, vs: seq<Value>, group: set<nat>, at: seq<nat>, us: seq<Value>, m: nat)
    requires Increasing(at, |vs|) && forall i: nat :: i in at <==> i in group
    requires |us| == |at| && forall k :: 0 <= k < |at| ==> us[k] == vs[at[k]]
    requires m < |at|
    ensures TakesPart(distinct, us, m) <==> TakesPartIn(distinct, vs, group, at[m])
  {
    hide Normal;
    assert at[m] in at;
    if TakesPart(distinct, us, m) {
      forall j | distinct && 0 <= j < at[m] && j in group
        ensures Normal(vs[j]) != Normal(vs[at[m]])
      {
        assert j in at;
        var k :| 0 <= k < |at| && at[k] == j;
        assert k < m;
      }
    }
    if TakesPartIn(distinct, vs, group, at[m]) {
      forall k | distinct && 0 <= k < m
        ensures Normal(us[k]) != Normal(us[m])
      {
        assert at[k] in at;
      }
    }
  }

  lemma {:induction false} SumThrough(vs: seq<Value>, ks: seq<nat>, us: seq<Value>, ms: seq<nat>)
    requires IntsAt(us, ms) && |ks| == |ms| && forall k :: 0 <= k < |ms| ==> ks[k] < |vs| && vs[ks[k]] == us[ms[k]]
    ensures IntsAt(vs, ks) && SumAt(vs, ks) == SumAt(us, ms) && NumbersAt(vs, ks) == NumbersAt(us, ms)
  {
    if ms != [] {
      SumThrough(vs, ks[..|ks| - 1], us, ms[..|ms| - 1]);
    }
  }

  /** The meaning of an aggregate is in the numbers alone. */
  lemma SameMeaning(spread: Spread, fn: AggFn, vs: seq<Value>, ks: seq<nat>, us: seq<Value>, ms: seq<nat>, out: Out)
    requires IntsAt(us, ms) && |ks| == |ms| && forall k :: 0 <= k < |ms| ==> ks[k] < |vs| && vs[ks[k]] == us[ms[k]]
    requires Means(spread, fn, us, ms, out)
    ensures IntsAt(vs, ks) && Means(spread, fn, vs, ks, out)
  {
    hide SumAt;
    SumThrough(vs, ks, us, ms);
    if (fn.MinFn? || fn.MaxFn?) && ks != [] {
      var k :| 0 <= k < |ms| && us[ms[k]].n == out.v.n;
      assert vs[ks[k]].n == out.v.n;
    }
  }

  // ---- The grouped table ----

  /** The rows of group g. */
  ghost function RowsOf(cols: seq<seq<Value>>, n: nat, t: Table, g: nat): (r: set<nat>)
    requires |t.columns| >= |cols| && forall k :: 0 <= k < |cols| ==> g < |t.columns[k]| && |cols[k]| == n
    ensures forall i: nat :: i in r <==> i < n && InGroup(cols, t, g, i)
  {
    set i: nat | i < n && InGroup(cols, t, g, i)
  }

  /** The evaluated grouping columns, of the frame's length. */
  ghost predicate GroupingColumns(h: Host, items: seq<Item>, f: Frame, cols: seq<seq<Value>>)
    requires f.Valid()
  {
    |cols| == |items| && forall k :: 0 <= k < |items| ==> Column(h.prims, items[k].e, f) == Ok(cols[k])
                                                          && |cols[k]| == f.n
  }

  lemma GroupingColumnsAre(h: Host, items: seq<Item>, aggs: seq<AggItem>, f: Frame, t: Table, cols: seq<seq<Value>>)
    requires f.Valid() && GroupedTable(h, items, aggs, f) == Ok(t) && GroupingColumns(h, items, f, cols)
    ensures HashableColumns(cols) && GroupRows(h, items, aggs, f, cols) == Ok(t)
  {
    hide Column, GroupRows;
    var r := Sequence(Columns(h.prims, items, f));
    forall k | 0 <= k < |items|
      ensures r.value[k] == cols[k]
    {
      assert Columns(h.prims, items, f)[k] == Ok(r.value[k]);
    }
    assert r.value == cols;
  }

  /** The table's skeleton: group g's key cells are those of one of its rows. */
  lemma SkeletonCells(h: Host, items: seq<Item>, aggs: seq<AggItem>, f: Frame, t: Table, cols: seq<seq<Value>>)
    requires f.Valid() && GroupingColumns(h, items, f, cols) && HashableColumns(cols)
    requires GroupRows(h, items, aggs, f, cols) == Ok(t)
    ensures var keys := Keys(cols, f.n); var groups := DistinctKeys(keys);
            && |t.columns| == |items| + |aggs|
            && (forall k :: 0 <= k < |items| ==> |t.columns[k]| == |groups|)
            && (forall g :: 0 <= g < |groups| ==> |groups[g]| == |items|)
            && (forall k, g :: 0 <= k < |items| && 0 <= g < |groups| ==> t.columns[k][g] == Scalar(groups[g][k]))
            && Sequence(ItemColumns(h, aggs, f, keys)).Ok?
            && (forall a :: 0 <= a < |aggs| ==>
                  t.columns[|items| + a] == Sequence(ItemColumns(h, aggs, f, keys)).value[a])
  {
    hide Column, DistinctKeys, ItemColumn, Sequence;
    GroupWidths(Keys(cols, f.n), |cols|);
  }

  /** Row i is in group g exactly when its key is group g's. */
  lemma InGroupIsSameKey(cols: seq<seq<Value>>, n: nat, t: Table, g: nat, i: nat, k: Key)
    requires |t.columns| >= |cols| && i < n && HashableColumns(cols) && |k| == |cols| && Hashable(k)
    requires forall c :: 0 <= c < |cols| ==> |cols[c]| == n && g < |t.columns[c]| && t.columns[c][g] == Scalar(k[c])
    ensures InGroup(cols, t, g, i) <==> SameKey(k, Keys(cols, n)[i])
  {
    var key := Keys(cols, n)[i];
    forall c | 0 <= c < |cols|
      ensures Canonical(k[c]) == Canonical(key[c]) <==> Normal(cols[c][i]) == Normal(t.columns[c][g].v)
    {
      assert !k[c].List? && !cols[c][i].List?;
    }
  }

  /** Every row of the frame is in exactly one group. */
  lemma EveryRowInOneGroup(h: Host, items: seq<Item>, aggs: seq<AggItem>, f: Frame, t: Table, cols: seq<seq<Value>>,
                           i: nat) returns (g: nat)
    requires f.Valid() && items != [] && GroupedTable(h, items, aggs, f) == Ok(t) && GroupingColumns(h, items, f, cols)
    requires i < f.n
    ensures |t.columns| == |items| + |aggs| && forall k :: 0 <= k < |items| ==> |t.columns[k]| == |t.columns[0]|
    ensures g < |t.columns[0]|
    ensures forall j :: 0 <= j < |t.columns[0]| ==> (InGroup(cols, t, j, i) <==> j == g)
  {
    hide Column, DistinctKeys, GroupRows, SameKey, InGroup, GroupedTable;
    GroupingColumnsAre(h, items, aggs, f, t, cols);
    SkeletonCells(h, items, aggs, f, t, cols);
    var keys := Keys(cols, f.n);
    var groups := DistinctKeys(keys);
    var firsts := DistinctKeysMeaning(keys);
    g := GroupOf(keys[i], groups);
    forall j: nat | j < |groups|
      ensures InGroup(cols, t, j, i) <==> j == g
    {
      GroupHashable(cols, f.n, groups, firsts, j);
      InGroupIsSameKey(cols, f.n, t, j, i, groups[j]);
      OnlyOneGroup(groups, g, j, keys[i]);
    }
  }

  lemma GroupHashable(cols: seq<seq<Value>>, n: nat, groups: seq<Key>, firsts: seq<nat>, g: nat)
    requires HashableColumns(cols) && forall c :: 0 <= c < |cols| ==> |cols[c]| == n
    requires FirstRows(Keys(cols, n), groups, firsts) && g < |groups|
    ensures Hashable(groups[g]) && |groups[g]| == |cols|
  {
    FirstRowInRange(Keys(cols, n), groups, firsts, g);
    var i := firsts[g];
    assert groups[g] == Keys(cols, n)[i];
    assert forall c :: 0 <= c < |cols| ==> Hashable(cols[c]) && groups[g][c] == cols[c][i];
  }

  lemma OnlyOneGroup(groups: seq<Key>, g: nat, j: nat, key: Key)
    requires PairwiseDistinct(groups) && g < |groups| && j < |groups| && SameKey(groups[g], key)
    ensures SameKey(groups[j], key) <==> j == g
  {
    if SameKey(groups[j], key) && j != g {
      SameKeySymmetric(groups[j], key);
      SameKeyTransitive(groups[g], key, groups[j]);
      SameKeySymmetric(groups[g], groups[j]);
      assert false;
    }
  }

  /** The grouped table fails when a grouping item does; otherwise exactly when a key holds a list or an aggregate item
      has no column. */
  lemma FailingItemFails(h: Host, items: seq<Item>, aggs: seq<AggItem>, f: Frame, k: nat)
    requires f.Valid() && k < |items| && Column(h.prims, items[k].e, f).Err?
    ensures GroupedTable(h, items, aggs, f).Err?
  {
    hide Column;
    assert Columns(h.prims, items, f)[k].Err?;
  }

  lemma GroupedTableFailsIff(h: Host, items: seq<Item>, aggs: seq<AggItem>, f: Frame, cols: seq<seq<Value>>)
    requires f.Valid() && GroupingColumns(h, items, f, cols)
    ensures GroupedTable(h, items, aggs, f).Err?
            <==> || (exists k, i :: 0 <= k < |cols| && 0 <= i < f.n && cols[k][i].List?)
                 || (exists a :: 0 <= a < |aggs| && ItemColumn(h, aggs[a].a, f, Keys(cols, f.n)).Err?)
  {
    hide Column, ItemColumn, Keys, GroupRows;
    SequenceIs(Columns(h.prims, items, f), cols);
    KeysFailIff(h, items, aggs, f, cols);
    if HashableColumns(cols) {
      assert forall k, i :: 0 <= k < |cols| && 0 <= i < f.n ==> Hashable(cols[k]) && !cols[k][i].List?;
    } else {
      var k :| 0 <= k < |cols| && !Hashable(cols[k]);
      var i :| 0 <= i < |cols[k]| && cols[k][i].List?;
    }
  }

  lemma KeysFailIff(h: Host, items: seq<Item>, aggs: seq<AggItem>, f: Frame, cols: seq<seq<Value>>)
    requires f.Valid() && forall k :: 0 <= k < |cols| ==> |cols[k]| == f.n
    ensures GroupRows(h, items, aggs, f, cols).Err?
            <==> exists a :: 0 <= a < |aggs| && ItemColumn(h, aggs[a].a, f, Keys(cols, f.n)).Err?
  {
    hide ItemColumn, DistinctKeys, Keys;
    var columns := ItemColumns(h, aggs, f, Keys(cols, f.n));
    if a :| 0 <= a < |columns| && columns[a].Err? {
      assert ItemColumn(h, aggs[a].a, f, Keys(cols, f.n)).Err?;
    }
    if a :| 0 <= a < |aggs| && ItemColumn(h, aggs[a].a, f, Keys(cols, f.n)).Err? {
      assert columns[a].Err?;
    }
  }

  /** count(*) and the aggregates of integer columns always have a column. */
  lemma IntegerItemsSucceed(h: Host, a: AggExpr, f: Frame, keys: seq<Key>, col: seq<Value>)
    requires f.Valid() && |keys| == f.n && a.Lone?
    requires a.call.Call? ==> !a.call.fn.CollectFn? && Column(h.prims, a.call.arg, f) == Ok(col) && IntsOrNulls(col)
    ensures ItemColumn(h, a, f, keys).Ok?
  {
    hide Column, DistinctKeys, Select, SameKey, GroupFrame, GroupedValue, TakesPartIn, Means, Truthy, InScope;
    var c, groups := a.call, DistinctKeys(keys);
    if c.Call? {
      ColumnOk(h.prims, c.arg, f);
    }
    forall g | 0 <= g < |groups|
      ensures FastOver(h, c, GroupFrame(f, keys, groups[g])).Ok?
    {
      if c.Call? {
        var mask := KeyMask(keys, groups[g]);
        GroupColumn(h, c, f, keys, groups[g], col);
        var ks := SelectedMeaning(h.spread, c.fn, c.distinct, col, mask,
                                  set i: nat | i < |col| && Truthy(mask[i]));
      }
    }
  }

  /** Without grouping items the row exists exactly when every aggregate does; without aggregates the table exactly when
      every item evaluates, and then it holds their columns. */
  lemma PlainTablesMeaning(h: Host, items: seq<Item>, aggs: seq<AggItem>, f: Frame)
    requires f.Valid()
    ensures WholeTable(h, aggs, f).Err? <==> exists a :: 0 <= a < |aggs| && AggregateOver(h, aggs[a].a, f).Err?
    ensures ProjectedTable(h, items, f).Err? <==> exists k :: 0 <= k < |items| && Column(h.prims, items[k].e, f).Err?
    ensures ProjectedTable(h, items, f).Ok? ==>
              var t := ProjectedTable(h, items, f).value;
              |t.columns| == |items| && forall k, i :: 0 <= k < |items| && 0 <= i < f.n ==>
                |t.columns[k]| == f.n && Column(h.prims, items[k].e, f).Ok?
                && t.columns[k][i] == Scalar(Column(h.prims, items[k].e, f).value[i])
  {
    hide Column, AggregateOver;
    var outs := seq(|aggs|, k requires 0 <= k < |aggs| => AggregateOver(h, aggs[k].a, f));
    if a :| 0 <= a < |aggs| && AggregateOver(h, aggs[a].a, f).Err? {
      assert outs[a].Err?;
    }
    if k :| 0 <= k < |items| && Column(h.prims, items[k].e, f).Err? {
      assert Columns(h.prims, items, f)[k].Err?;
    }
    forall k | 0 <= k < |items| && Column(h.prims, items[k].e, f).Ok?
      ensures |Column(h.prims, items[k].e, f).value| == f.n
    {
      ColumnOk(h.prims, items[k].e, f);
    }
    var r := Sequence(Columns(h.prims, items, f));
    if r.Ok? {
      forall k | 0 <= k < |items|
        ensures Column(h.prims, items[k].e, f) == Ok(r.value[k])
      {
        assert Columns(h.prims, items, f)[k] == Ok(r.value[k]);
      }
    }
  }

  /** The columns are named by the grouping items' aliases and then the aggregates'. */
  lemma AliasesMeaning(h: Host, items: seq<Item>, aggs: seq<AggItem>, f: Frame)
    requires f.Valid()
    ensures GroupedTable(h, items, aggs, f).Ok? ==> Named(items, aggs, GroupedTable(h, items, aggs, f).value)
    ensures WholeTable(h, aggs, f).Ok? ==> Named([], aggs, WholeTable(h, aggs, f).value)
    ensures ProjectedTable(h, items, f).Ok? ==> Named(items, [], ProjectedTable(h, items, f).value)
  {
    hide Column, ItemColumn, AggregateOver, DistinctKeys;
  }

  predicate Named(items: seq<Item>, aggs: seq<AggItem>, t: Table) {
    && |t.aliases| == |items| + |aggs|
    && (forall k :: 0 <= k < |items| ==> t.aliases[k] == items[k].alias)
    && (forall a :: 0 <= a < |aggs| ==> t.aliases[|items| + a] == aggs[a].alias)
  }

  /** In the grouped table, group g's cell of an aggregate is the aggregate over the cells of g's own rows. */
  lemma GroupCellMeaning(h: Host, items: seq<Item>, aggs: seq<AggItem>, f: Frame, t: Table, cols: seq<seq<Value>>,
                         a: nat, col: seq<Value>, g: nat) returns (ks: seq<nat>)
    requires f.Valid() && items != [] && GroupedTable(h, items, aggs, f) == Ok(t) && GroupingColumns(h, items, f, cols)
    requires a < |aggs| && aggs[a].a.Lone? && aggs[a].a.call.Call? && !aggs[a].a.call.fn.CollectFn?
    requires Column(h.prims, aggs[a].a.call.arg, f) == Ok(col) && |col| == f.n && IntsOrNulls(col)
    requires |t.columns| == |items| + |aggs| && forall k :: 0 <= k < |items| ==> g < |t.columns[k]|
    ensures Increasing(ks, f.n) && IntsAt(col, ks)
    ensures forall i: nat :: i in ks <==> TakesPartIn(aggs[a].a.call.distinct, col, RowsOf(cols, f.n, t, g), i)
    ensures g < |t.columns[|items| + a]|
    ensures Means(h.spread, aggs[a].a.call.fn, col, ks, t.columns[|items| + a][g])
  {
    hide Column, DistinctKeys, GroupRows, SameKey, InGroup, GroupedTable, Means, TakesPartIn, GroupedValue, Truthy,
         Select, FastOver;
    GroupingColumnsAre(h, items, aggs, f, t, cols);
    SkeletonCells(h, items, aggs, f, t, cols);
    var c, keys := aggs[a].a.call, Keys(cols, f.n);
    var groups := DistinctKeys(keys);
    assert |t.columns[0]| == |groups|;
    var mask := KeyMask(keys, groups[g]);
    forall i: nat
      ensures i in RowsOf(cols, f.n, t, g) <==> i < f.n && Truthy(mask[i])
    {
      if i < f.n {
        RowInGroup(cols, f.n, t, g, i, groups);
      }
    }
    ks := SelectedMeaning(h.spread, c.fn, c.distinct, col, mask, RowsOf(cols, f.n, t, g));
    GroupColumn(h, c, f, keys, groups[g], col);
    CellOfGroup(h, aggs, f, keys, a, g);
  }

  lemma RowInGroup(cols: seq<seq<Value>>, n: nat, t: Table, g: nat, i: nat, groups: seq<Key>)
    requires HashableColumns(cols) && forall c :: 0 <= c < |cols| ==> |cols[c]| == n
    requires groups == DistinctKeys(Keys(cols, n)) && g < |groups| && i < n && |groups[g]| == |cols|
    requires |t.columns| >= |cols|
    requires forall c :: 0 <= c < |cols| ==> g < |t.columns[c]| && t.columns[c][g] == Scalar(groups[g][c])
    ensures InGroup(cols, t, g, i) <==> Truthy(KeyMask(Keys(cols, n), groups[g])[i])
  {
    hide DistinctKeys, SameKey, InGroup;
    var firsts := DistinctKeysMeaning(Keys(cols, n));
    GroupHashable(cols, n, groups, firsts, g);
    InGroupIsSameKey(cols, n, t, g, i, groups[g]);
  }

  lemma CellOfGroup(h: Host, aggs: seq<AggItem>, f: Frame, keys: seq<Key>, a: nat, g: nat)
    requires f.Valid() && |keys| == f.n && a < |aggs| && aggs[a].a.Lone? && g < |DistinctKeys(keys)|
    requires Sequence(ItemColumns(h, aggs, f, keys)).Ok?
    ensures var column := Sequence(ItemColumns(h, aggs, f, keys)).value[a];
            |column| == |DistinctKeys(keys)|
            && FastOver(h, aggs[a].a.call, GroupFrame(f, keys, DistinctKeys(keys)[g])) == Ok(column[g])
  {
    hide FastOver, DistinctKeys, GroupFrame;
    var column := Sequence(ItemColumns(h, aggs, f, keys)).value[a];
    assert ItemColumns(h, aggs, f, keys)[a] == Ok(column);
    assert FastPerGroup(h, aggs[a].a.call, f, keys)[g] == Ok(column[g]);
  }

  /** count(*) of a group is the number of its rows, and of a frame without grouping items the number of rows. */
  lemma CountStarMeaning(h: Host, items: seq<Item>, aggs: seq<AggItem>, f: Frame, t: Table, cols: seq<seq<Value>>,
                         a: nat, g: nat)
    requires f.Valid() && items != [] && GroupedTable(h, items, aggs, f) == Ok(t) && GroupingColumns(h, items, f, cols)
    requires a < |aggs| && aggs[a].a == Lone(CountStar)
    requires |t.columns| == |items| + |aggs| && forall k :: 0 <= k < |items| ==> g < |t.columns[k]|
    ensures g < |t.columns[|items| + a]|
    ensures t.columns[|items| + a][g] == Scalar(Int(|RowsOf(cols, f.n, t, g)|))
  {
    hide Column, DistinctKeys, GroupRows, SameKey, InGroup, GroupedTable, Truthy, CountTrue;
    GroupingColumnsAre(h, items, aggs, f, t, cols);
    SkeletonCells(h, items, aggs, f, t, cols);
    var keys := Keys(cols, f.n);
    var groups := DistinctKeys(keys);
    assert |t.columns[0]| == |groups|;
    var mask := KeyMask(keys, groups[g]);
    forall i: nat
      ensures i in RowsOf(cols, f.n, t, g) <==> i < f.n && Truthy(mask[i])
    {
      if i < f.n {
        RowInGroup(cols, f.n, t, g, i, groups);
      }
    }
    CountIsSize(mask);
    assert TrueAt(mask) == RowsOf(cols, f.n, t, g);
    CellOfGroup(h, aggs, f, keys, a, g);
    GroupFrameSize(f, keys, groups[g]);
  }

  lemma GroupFrameSize(f: Frame, keys: seq<Key>, k: Key)
    requires f.Valid() && |keys| == f.n
    ensures GroupFrame(f, keys, k).n == CountTrue(KeyMask(keys, k))
  {}
}
