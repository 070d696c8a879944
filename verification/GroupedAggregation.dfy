/** AggregationPlanner.aggregate_items: plain projection, one row over everything, or one row per group. */
module GroupedAggregation {
  import opened Values
  import opened RowSemantics
  import opened ColumnSpec
  import opened QueryLaws
  import opened Aggregates
  import opened Grouping
  import ColumnEvaluator

  // ---- One aggregate item, in one pass ----

  /** The grouped pass over one aggregate call. */
  ghost function GroupedCall(h: Host, c: Call, f: Frame, keys: seq<Key>): Res<seq<Out>>
    requires f.Valid() && |keys| == f.n
  {
    if Resolves(c, f) then Sequence(FastPerGroup(h, c, f, keys)) else Err
  }

  /** A key's rows: evaluating on the group's frame is picking the group's rows from the evaluated column. */
  lemma GroupColumn(h: Host, c: Call, f: Frame, keys: seq<Key>, k: Key, col: seq<Value>)
    requires f.Valid() && |keys| == f.n && c.Call? && Column(h.prims, c.arg, f) == Ok(col)
    ensures |col| == f.n
    ensures FastOver(h, c, GroupFrame(f, keys, k))
            == GroupedValue(h.spread, c.fn, c.distinct, Select(col, KeyMask(keys, k)))
  {
    hide Column, Select, GroupedValue;
    FilterCommutes(h.prims, c.arg, f, KeyMask(keys, k), col);
  }

  /** A row that fails makes its own group fail. */
  lemma FailingGroup(h: Host, c: Call, f: Frame, keys: seq<Key>, codes: seq<nat>)
    requires f.Valid() && |keys| == f.n && Codes(codes, keys, DistinctKeys(keys))
    requires c.Call? && Column(h.prims, c.arg, f).Err? && f.n > 0
    ensures Sequence(FastPerGroup(h, c, f, keys)).Err?
  {
    hide Column, Eval, GroupedValue, DistinctKeys, SameKey;
    var i := FailingRow(h.prims, c.arg, f);
    var groups := DistinctKeys(keys);
    var mask := KeyMask(keys, groups[codes[i]]);
    FilterRows(f, mask);
    assert Truthy(mask[i]);
    var k :| 0 <= k < |TruePositions(mask)| && TruePositions(mask)[k] == i;
    var frame := GroupFrame(f, keys, groups[codes[i]]);
    assert frame.Row(k) == f.Row(i);
    ColumnFails(h.prims, c.arg, frame, k);
    assert FastPerGroup(h, c, f, keys)[codes[i]].Err?;
  }

  function SizeStep(n: nat, v: Value): nat {
    n + 1
  }

  lemma {:induction false} SizeFold(vs: seq<Value>)
    ensures FoldLeft(SizeStep, 0, vs) == |vs|
  {
    if vs != [] {
      SizeFold(vs[..|vs| - 1]);
    }
  }

  /** evaluate_aggregation_grouped. */
  method EvaluateGrouped(h: Host, c: Call, f: Frame, codes: seq<nat>, groups: seq<Key>, ghost keys: seq<Key>)
    returns (r: Res<seq<Out>>)
    requires f.Valid() && |keys| == f.n && groups == DistinctKeys(keys) && Codes(codes, keys, groups)
    ensures r == GroupedCall(h, c, f, keys)
  {
    hide Column, Select, GroupedValue, DistinctKeys, SameKey, InScope, FastOver, Sequence;
    if c.CountStar? {
      r := GroupSizes(h, f, codes, groups, keys);
      return;
    }
    var col := ColumnEvaluator.Evaluate(h.prims, c.arg, f);
    if col.Err? {
      if f.n > 0 {
        FailingGroup(h, c, f, keys, codes);
      }
      return Err;
    }
    ColumnOk(h.prims, c.arg, f);
    r := GroupedColumn(h.spread, c.fn, c.distinct, codes, |groups|, col.value);
    ghost var firsts := DistinctKeysMeaning(keys);
    forall g: nat | g < |groups|
      ensures FastPerGroup(h, c, f, keys)[g] == GroupValues(h.spread, c.fn, c.distinct, codes, |groups|, col.value)[g]
    {
      CodeMaskIsKeyMask(codes, keys, groups, g);
      GroupColumn(h, c, f, keys, groups[g], col.value);
    }
    assert FastPerGroup(h, c, f, keys) == GroupValues(h.spread, c.fn, c.distinct, codes, |groups|, col.value);
  }

  /** `grouped.size()`. */
  method GroupSizes(h: Host, f: Frame, codes: seq<nat>, groups: seq<Key>, ghost keys: seq<Key>)
    returns (r: Res<seq<Out>>)
    requires f.Valid() && |keys| == f.n && groups == DistinctKeys(keys) && Codes(codes, keys, groups)
    ensures r == Sequence(FastPerGroup(h, CountStar, f, keys))
  {
    hide DistinctKeys, SameKey, Select, FoldLeft, Sequence;
    var rows := seq(|codes|, i => Null);
    var sizes: seq<nat> := GroupedFold(codes, |groups|, rows, 0, SizeStep);
    var outs := seq(|groups|, g requires 0 <= g < |groups| => Ok(Scalar(Int(sizes[g]))));
    ghost var firsts := DistinctKeysMeaning(keys);
    forall g: nat | g < |groups|
      ensures outs[g] == FastPerGroup(h, CountStar, f, keys)[g]
    {
      CodeMaskIsKeyMask(codes, keys, groups, g);
      SizeFold(Select(rows, CodeMask(codes, g)));
      SelectAt(rows, CodeMask(codes, g));
    }
    assert outs == FastPerGroup(h, CountStar, f, keys);
    r := Sequence(outs);
  }

  // ---- One aggregate item, group by group ----

  /** One group's filtered frame, evaluated by itself. */
  method EvaluateGroup(h: Host, a: AggExpr, f: Frame, keys: seq<Key>, k: Key) returns (v: Res<Out>)
    requires f.Valid() && |keys| == f.n
    ensures v == AggregateOver(h, a, GroupFrame(f, keys, k))
  {
    hide AggregateOver, KeyMask, Filter;
    var mask := KeyMask(keys, k);
    FilterRows(f, mask);
    v := EvaluateAggregation(h, a, Filter(f, mask));
  }

  /** Every group not still to do has its value in its row. */
  ghost predicate Filled(want: seq<Res<Out>>, cells: seq<Out>, groups: seq<Key>, todo: set<Key>) {
    && |want| == |cells| == |groups|
    && (forall k :: k in todo ==> k in groups)
    && forall g :: 0 <= g < |groups| && groups[g] !in todo ==> want[g] == Ok(cells[g])
  }

  /** The per-group fallback, in whatever order the groups come, writing into the row with the group's key. */
  method EvaluatePerGroup(h: Host, a: AggExpr, f: Frame, groups: seq<Key>, keys: seq<Key>) returns (r: Res<seq<Out>>)
    requires f.Valid() && |keys| == f.n && groups == DistinctKeys(keys)
    ensures r == Sequence(PerGroup(h, a, f, keys))
  {
    hide DistinctKeys, SameKey, AggregateOver, Sequence, GroupFrame, FirstRows, AllKnown, PairwiseDistinct;
    ghost var firsts := DistinctKeysMeaning(keys);
    ghost var want := PerGroup(h, a, f, keys);
    var cells := seq(|groups|, g => Scalar(Null));
    var todo := set k | k in groups;
    while todo != {}
      invariant Filled(want, cells, groups, todo)
      decreases todo
    {
      var k :| k in todo;
      ghost var g :| 0 <= g < |groups| && groups[g] == k;
      var v := EvaluateGroup(h, a, f, keys, k);
      assert v == want[g];
      if v.Err? {
        return Err;
      }
      FilledStep(want, cells, groups, todo, g, v.value);
      cells := WriteMatching(cells, groups, k, g, v.value);
      todo := todo - {k};
    }
    SequenceIs(want, cells);
    r := Ok(cells);
  }

  lemma FilledStep(want: seq<Res<Out>>, cells: seq<Out>, groups: seq<Key>, todo: set<Key>, g: nat, v: Out)
    requires Filled(want, cells, groups, todo) && PairwiseDistinct(groups)
    requires g < |groups| && want[g] == Ok(v)
    ensures Filled(want, cells[g := v], groups, todo - {groups[g]})
  {
    KeysDiffer(groups);
  }

  lemma KeysDiffer(groups: seq<Key>)
    requires PairwiseDistinct(groups)
    ensures forall g, h :: 0 <= g < h < |groups| ==> groups[g] != groups[h]
  {
    hide SameKey;
    forall g, h | 0 <= g < h < |groups|
      ensures groups[g] != groups[h]
    {
      SameKeyReflexive(groups[g]);
    }
  }

  /** `unique_groups.loc[row_mask, alias] = value`: keys are distinct, so exactly one row matches. */
  method WriteMatching(cells: seq<Out>, groups: seq<Key>, k: Key, ghost g: nat, v: Out) returns (r: seq<Out>)
    requires |cells| == |groups| && g < |groups| && groups[g] == k && PairwiseDistinct(groups)
    ensures r == cells[g := v]
  {
    hide SameKey;
    r := cells;
    SameKeyReflexive(k);
    for i := 0 to |groups|
      invariant r == if g < i then cells[g := v] else cells
    {
      SameKeySymmetric(groups[i], k);
      if SameKey(groups[i], k) {
        r := r[i := v];
      }
    }
  }

  lemma SequenceIs<T>(rs: seq<Res<T>>, vs: seq<T>)
    requires |rs| == |vs| && forall i :: 0 <= i < |rs| ==> rs[i] == Ok(vs[i])
    ensures Sequence(rs) == Ok(vs)
  {
    var r := Sequence(rs);
    forall i | 0 <= i < |rs|
      ensures r.value[i] == vs[i]
    {
      assert rs[i] == Ok(r.value[i]);
    }
    assert r.value == vs;
  }

  // ---- Items ----

  datatype Item = Item(alias: string, e: Expr)
  datatype AggItem = AggItem(alias: string, a: AggExpr)
  datatype Table = Table(aliases: seq<string>, columns: seq<seq<Out>>)

  ghost function Columns(p: Primitives, items: seq<Item>, f: Frame): (r: seq<Res<seq<Value>>>)
    requires f.Valid()
    ensures |r| == |items| && forall k :: 0 <= k < |items| ==> r[k] == Column(p, items[k].e, f)
  {
    seq(|items|, k requires 0 <= k < |items| => Column(p, items[k].e, f))
  }

  function Aliases(items: seq<Item>, aggs: seq<AggItem>): seq<string> {
    seq(|items|, k requires 0 <= k < |items| => items[k].alias)
      + seq(|aggs|, k requires 0 <= k < |aggs| => aggs[k].alias)
  }

  function Scalars(vs: seq<Value>): (r: seq<Out>)
    ensures |r| == |vs| && forall i :: 0 <= i < |vs| ==> r[i] == Scalar(vs[i])
  {
    seq(|vs|, i requires 0 <= i < |vs| => Scalar(vs[i]))
  }

  function AllScalars(cols: seq<seq<Value>>): (r: seq<seq<Out>>)
    ensures |r| == |cols| && forall k :: 0 <= k < |cols| ==> r[k] == Scalars(cols[k])
  {
    seq(|cols|, k requires 0 <= k < |cols| => Scalars(cols[k]))
  }

  /** Row i's group key. */
  function Keys(cols: seq<seq<Value>>, n: nat): (r: seq<Key>)
    requires forall k :: 0 <= k < |cols| ==> |cols[k]| == n
    ensures |r| == n && forall i :: 0 <= i < n ==> |r[i]| == |cols|
    ensures forall i, k :: 0 <= i < n && 0 <= k < |cols| ==> r[i][k] == cols[k][i]
  {
    seq(n, i requires 0 <= i < n => seq(|cols|, k requires 0 <= k < |cols| => cols[k][i]))
  }

  /** The skeleton's key columns: one row per group. */
  function KeyColumns(groups: seq<Key>, width: nat): (r: seq<seq<Out>>)
    requires forall g :: 0 <= g < |groups| ==> |groups[g]| == width
    ensures |r| == width
    ensures forall k :: 0 <= k < width ==> |r[k]| == |groups| && forall g :: 0 <= g < |groups| ==>
              r[k][g] == Scalar(groups[g][k])
  {
    seq(width, k requires 0 <= k < width => seq(|groups|, g requires 0 <= g < |groups| => Scalar(groups[g][k])))
  }

  ghost function ItemColumn(h: Host, a: AggExpr, f: Frame, keys: seq<Key>): Res<seq<Out>>
    requires f.Valid() && |keys| == f.n
  {
    if a.Lone? then GroupedCall(h, a.call, f, keys) else Sequence(PerGroup(h, a, f, keys))
  }

  ghost function ItemColumns(h: Host, aggs: seq<AggItem>, f: Frame, keys: seq<Key>): (r: seq<Res<seq<Out>>>)
    requires f.Valid() && |keys| == f.n
    ensures |r| == |aggs| && forall k :: 0 <= k < |aggs| ==> r[k] == ItemColumn(h, aggs[k].a, f, keys)
  {
    seq(|aggs|, k requires 0 <= k < |aggs| => ItemColumn(h, aggs[k].a, f, keys))
  }

  predicate HashableColumns(cols: seq<seq<Value>>) {
    forall k :: 0 <= k < |cols| ==> Hashable(cols[k])
  }

  /** One row per distinct key of the evaluated grouping columns. */
  ghost function GroupRows(h: Host, items: seq<Item>, aggs: seq<AggItem>, f: Frame, cols: seq<seq<Value>>): Res<Table>
    requires f.Valid() && forall k :: 0 <= k < |cols| ==> |cols[k]| == f.n
  {
    var keys := Keys(cols, f.n);
    GroupWidths(keys, |cols|);
    var values :- Sequence(ItemColumns(h, aggs, f, keys));
    Ok(Table(Aliases(items, aggs), KeyColumns(DistinctKeys(keys), |cols|) + values))
  }

  ghost function GroupedTable(h: Host, items: seq<Item>, aggs: seq<AggItem>, f: Frame): Res<Table>
    requires f.Valid()
  {
    var cols :- Sequence(Columns(h.prims, items, f));
    ColumnsAligned(h.prims, items, f, cols);
    if HashableColumns(cols) then GroupRows(h, items, aggs, f, cols) else Err
  }

  lemma ColumnsAligned(p: Primitives, items: seq<Item>, f: Frame, cols: seq<seq<Value>>)
    requires f.Valid() && Sequence(Columns(p, items, f)) == Ok(cols)
    ensures |cols| == |items| && forall k :: 0 <= k < |cols| ==> |cols[k]| == f.n
  {
    hide Column;
    forall k | 0 <= k < |cols|
      ensures |cols[k]| == f.n
    {
      assert Columns(p, items, f)[k] == Ok(cols[k]);
      ColumnOk(p, items[k].e, f);
    }
  }

  lemma GroupWidths(keys: seq<Key>, width: nat)
    requires forall i :: 0 <= i < |keys| ==> |keys[i]| == width
    ensures forall g :: 0 <= g < |DistinctKeys(keys)| ==> |DistinctKeys(keys)[g]| == width
  {
    hide DistinctKeys, SameKey;
    var firsts := DistinctKeysMeaning(keys);
    forall g | 0 <= g < |DistinctKeys(keys)|
      ensures |DistinctKeys(keys)[g]| == width
    {
      assert IsFirst(keys, firsts[g]);
    }
  }

  /** Without grouping items: a single row over the whole frame, however few rows it has. */
  ghost function WholeTable(h: Host, aggs: seq<AggItem>, f: Frame): Res<Table>
    requires f.Valid()
  {
    var values :- Sequence(seq(|aggs|, k requires 0 <= k < |aggs| => AggregateOver(h, aggs[k].a, f)));
    Ok(Table(Aliases([], aggs), seq(|values|, k requires 0 <= k < |values| => [values[k]])))
  }

  ghost function ProjectedTable(h: Host, items: seq<Item>, f: Frame): Res<Table>
    requires f.Valid()
  {
    var cols :- Sequence(Columns(h.prims, items, f));
    Ok(Table(Aliases(items, []), AllScalars(cols)))
  }

  method EvaluateColumns(p: Primitives, items: seq<Item>, f: Frame) returns (r: Res<seq<seq<Value>>>)
    requires f.Valid()
    ensures r == Sequence(Columns(p, items, f))
  {
    hide Column;
    var cols := [];
    for k := 0 to |items|
      invariant |cols| == k && forall j :: 0 <= j < k ==> Column(p, items[j].e, f) == Ok(cols[j])
    {
      var col := ColumnEvaluator.Evaluate(p, items[k].e, f);
      if col.Err? {
        assert Columns(p, items, f)[k].Err?;
        return Err;
      }
      cols := cols + [col.value];
    }
    SequenceIs(Columns(p, items, f), cols);
    r := Ok(cols);
  }

  method EvaluateWhole(h: Host, aggs: seq<AggItem>, f: Frame) returns (r: Res<Table>)
    requires f.Valid()
    ensures r == WholeTable(h, aggs, f)
  {
    hide AggregateOver;
    ghost var want := seq(|aggs|, k requires 0 <= k < |aggs| => AggregateOver(h, aggs[k].a, f));
    var values := [];
    for k := 0 to |aggs|
      invariant |values| == k && forall j :: 0 <= j < k ==> want[j] == Ok(values[j])
    {
      var v := EvaluateAggregation(h, aggs[k].a, f);
      if v.Err? {
        assert want[k].Err?;
        return Err;
      }
      values := values + [v.value];
    }
    SequenceIs(want, values);
    r := Ok(Table(Aliases([], aggs), seq(|values|, k requires 0 <= k < |values| => [values[k]])));
  }

  method EvaluateItems(h: Host, aggs: seq<AggItem>, f: Frame, keys: seq<Key>)
    returns (groups: seq<Key>, r: Res<seq<seq<Out>>>)
    requires f.Valid() && |keys| == f.n
    ensures groups == DistinctKeys(keys) && r == Sequence(ItemColumns(h, aggs, f, keys))
  {
    hide GroupedCall, PerGroup, DistinctKeys, SameKey;
    var codes;
    codes, groups := Factorize(keys);
    var columns := [];
    for k := 0 to |aggs|
      invariant |columns| == k && forall j :: 0 <= j < k ==> ItemColumn(h, aggs[j].a, f, keys) == Ok(columns[j])
    {
      var column;
      if aggs[k].a.Lone? {
        column := EvaluateGrouped(h, aggs[k].a.call, f, codes, groups, keys);
      } else {
        column := EvaluatePerGroup(h, aggs[k].a, f, groups, keys);
      }
      if column.Err? {
        assert ItemColumns(h, aggs, f, keys)[k].Err?;
        return groups, Err;
      }
      columns := columns + [column.value];
    }
    SequenceIs(ItemColumns(h, aggs, f, keys), columns);
    r := Ok(columns);
  }

  ghost predicate NoNullKeys(p: Primitives, items: seq<Item>, f: Frame)
    requires f.Valid()
  {
    forall k :: 0 <= k < |items| && Column(p, items[k].e, f).Ok? ==> Null !in Column(p, items[k].e, f).value
  }

  /** aggregate_items. */
  method AggregateItems(h: Host, items: seq<Item>, aggs: seq<AggItem>, f: Frame) returns (r: Res<Table>)
    requires f.Valid() && (aggs != [] ==> NoNullKeys(h.prims, items, f))
    ensures r == if aggs == [] then ProjectedTable(h, items, f)
                 else if items == [] then WholeTable(h, aggs, f)
                 else GroupedTable(h, items, aggs, f)
  {
    hide Column, DistinctKeys, ItemColumn, AggregateOver;
    if aggs != [] && items == [] {
      r := EvaluateWhole(h, aggs, f);
      return;
    }
    var cols := EvaluateColumns(h.prims, items, f);
    if cols.Err? {
      return Err;
    }
    if aggs == [] {
      return Ok(Table(Aliases(items, []), AllScalars(cols.value)));
    }
    if !HashableColumns(cols.value) {
      return Err;
    }
    ColumnsAligned(h.prims, items, f, cols.value);
    var keys := Keys(cols.value, f.n);
    GroupWidths(keys, |cols.value|);
    var groups, values := EvaluateItems(h, aggs, f, keys);
    r := if values.Err? then Err
         else Ok(Table(Aliases(items, aggs), KeyColumns(groups, |cols.value|) + values.value));
  }

  // ---- The one pass against filtering each group ----

  ghost predicate SomeGroupSumsText(h: Host, c: Call, f: Frame, keys: seq<Key>)
    requires f.Valid() && |keys| == f.n
  {
    exists g :: 0 <= g < |DistinctKeys(keys)| && SumsText(h, c, GroupFrame(f, keys, DistinctKeys(keys)[g]))
  }

  /** The vectorised pass gives what filtering each group and aggregating it alone gives, failures included, exactly
      when the argument's names resolve (a question only on a frame without rows) and either the pass fails or no group
      sums text. */
  lemma OnePassIsPerGroup(h: Host, c: Call, f: Frame, keys: seq<Key>)
    requires f.Valid() && |keys| == f.n
    ensures GroupedCall(h, c, f, keys) == Sequence(PerGroup(h, Lone(c), f, keys))
            <==> Resolves(c, f) && (GroupedCall(h, c, f, keys).Err? || !SomeGroupSumsText(h, c, f, keys))
    ensures Resolves(c, f) && GroupedCall(h, c, f, keys).Err? ==> Sequence(PerGroup(h, Lone(c), f, keys)).Err?
  {
    hide DistinctKeys, FastOver, CallOver, SumsText, GroupFrame;
    var groups := DistinctKeys(keys);
    var fast, slow := FastPerGroup(h, c, f, keys), PerGroup(h, Lone(c), f, keys);
    if !Resolves(c, f) {
      NoRowsNoGroups(keys);
    } else {
      forall g | 0 <= g < |groups|
        ensures fast[g] == slow[g] <==> !SumsText(h, c, GroupFrame(f, keys, groups[g]))
        ensures fast[g].Err? ==> slow[g].Err?
      {
        FastOverIff(h, c, GroupFrame(f, keys, groups[g]));
      }
      if SomeGroupSumsText(h, c, f, keys) {
        var g :| 0 <= g < |groups| && SumsText(h, c, GroupFrame(f, keys, groups[g]));
        assert fast[g] != slow[g];
      } else {
        assert fast == slow;
      }
    }
  }

  lemma NoRowsNoGroups(keys: seq<Key>)
    requires keys == []
    ensures DistinctKeys(keys) == []
  {}

  /** A sum over text fails when there is nothing to group by, and concatenates when there is. */
  lemma TextSumExample(spread: Spread)
    ensures AggregateValues(spread, SumFn, false, [Str("a"), Str("b")]) == Err
    ensures GroupedValue(spread, SumFn, false, [Str("a"), Str("b")]) == Ok(Scalar(Str("ab")))
  {
    var vs := [Str("a"), Str("b")];
    assert vs[..|vs| - 1] == [Str("a")] && [Str("a")][..0] == [];
    assert DropNa([Str("a")]) == [Str("a")];
    assert DropNa(vs) == vs;
    assert Total([Str("a")]) == Ok(Str("a"));
    assert "a" + "b" == "ab";
  }

  function SumOf(ns: seq<nat>): nat {
    if ns == [] then 0 else SumOf(ns[..|ns| - 1]) + ns[|ns| - 1]
  }

  lemma {:induction false} SumOfBump(ns: seq<nat>, g: nat)
    requires g < |ns|
    ensures SumOf(ns[g := ns[g] + 1]) == SumOf(ns) + 1
  {
    var n := |ns| - 1;
    var bumped := ns[g := ns[g] + 1];
    if g < n {
      SumOfBump(ns[..n], g);
      assert bumped[..n] == ns[..n][g := ns[..n][g] + 1];
    } else {
      assert bumped[..n] == ns[..n];
    }
  }

  lemma {:induction false} SumOfZeros(ns: seq<nat>)
    requires forall g :: 0 <= g < |ns| ==> ns[g] == 0
    ensures SumOf(ns) == 0
  {
    if ns != [] {
      SumOfZeros(ns[..|ns| - 1]);
    }
  }

  function Sizes(codes: seq<nat>, m: nat): (r: seq<nat>)
    ensures |r| == m && forall g :: 0 <= g < m ==> r[g] == CountTrue(CodeMask(codes, g))
  {
    seq(m, g requires 0 <= g < m => CountTrue(CodeMask(codes, g)))
  }

  lemma NoSizes(codes: seq<nat>, m: nat)
    requires codes == []
    ensures SumOf(Sizes(codes, m)) == 0
  {
    SumOfZeros(Sizes(codes, m));
  }

  lemma SizeOfLast(codes: seq<nat>, g: nat)
    requires codes != []
    ensures var n := |codes| - 1;
            CountTrue(CodeMask(codes, g)) == CountTrue(CodeMask(codes[..n], g)) + if codes[n] == g then 1 else 0
  {
    var n := |codes| - 1;
    assert CodeMask(codes, g)[..n] == CodeMask(codes[..n], g);
  }

  lemma {:induction false} SizesSum(codes: seq<nat>, m: nat)
    requires forall i :: 0 <= i < |codes| ==> codes[i] < m
    ensures SumOf(Sizes(codes, m)) == |codes|
  {
    hide CountTrue, CodeMask, SumOf;
    if codes == [] {
      NoSizes(codes, m);
    } else {
      var n := |codes| - 1;
      SizesSum(codes[..n], m);
      forall g: nat | g < m
        ensures Sizes(codes, m)[g] == Sizes(codes[..n], m)[g] + if codes[n] == g then 1 else 0
      {
        SizeOfLast(codes, g);
      }
      var before := Sizes(codes[..n], m);
      assert Sizes(codes, m) == before[codes[n] := before[codes[n]] + 1];
      SumOfBump(before, codes[n]);
    }
  }

  ghost function GroupCounts(f: Frame, keys: seq<Key>): (r: seq<nat>)
    requires f.Valid() && |keys| == f.n
    ensures |r| == |DistinctKeys(keys)|
    ensures forall g :: 0 <= g < |r| ==> r[g] == GroupFrame(f, keys, DistinctKeys(keys)[g]).n
  {
    var groups := DistinctKeys(keys);
    seq(|groups|, g requires 0 <= g < |groups| => GroupFrame(f, keys, groups[g]).n)
  }

  lemma GroupOf(k: Key, groups: seq<Key>) returns (g: nat)
    requires KnownKey(k, groups)
    ensures g < |groups| && SameKey(groups[g], k)
  {
    g :| 0 <= g < |groups| && SameKey(groups[g], k);
  }

  lemma GroupNumbers(keys: seq<Key>) returns (codes: seq<nat>)
    ensures Codes(codes, keys, DistinctKeys(keys))
  {
    hide SameKey, DistinctKeys, KnownKey, IsFirst;
    var firsts := DistinctKeysMeaning(keys);
    var groups := DistinctKeys(keys);
    codes := [];
    for i := 0 to |keys|
      invariant |codes| == i && forall j :: 0 <= j < i ==> codes[j] < |groups| && SameKey(groups[codes[j]], keys[j])
    {
      var g := GroupOf(keys[i], groups);
      codes := codes + [g];
    }
  }

  /** The groups partition the frame: their counts add up to its size. */
  lemma CountsSumToFrame(f: Frame, keys: seq<Key>)
    requires f.Valid() && |keys| == f.n
    ensures SumOf(GroupCounts(f, keys)) == f.n
  {
    hide SameKey, DistinctKeys, CountTrue, SumOf;
    var codes := GroupNumbers(keys);
    var firsts := DistinctKeysMeaning(keys);
    var groups := DistinctKeys(keys);
    SizesSum(codes, |groups|);
    forall g: nat | g < |groups|
      ensures GroupCounts(f, keys)[g] == Sizes(codes, |groups|)[g]
    {
      CodeMaskIsKeyMask(codes, keys, groups, g);
    }
    assert GroupCounts(f, keys) == Sizes(codes, |groups|);
  }

  /** Nothing but nulls: nothing is counted, and every other null-ignoring aggregate is null, grouped or not. */
  lemma {:induction false} AllNull(spread: Spread, fn: AggFn, vs: seq<Value>)
    requires forall i :: 0 <= i < |vs| ==> vs[i].Null?
    requires !fn.CollectFn?
    ensures AggregateValues(spread, fn, false, vs) == GroupedValue(spread, fn, false, vs)
            == Ok(Scalar(if fn.CountFn? then Int(0) else Null))
  {
    hide Best, Total, Seen;
    NothingLeft(vs);
  }

  lemma {:induction false} NothingLeft(vs: seq<Value>)
    requires forall i :: 0 <= i < |vs| ==> vs[i].Null?
    ensures DropNa(vs) == []
  {
    if vs != [] {
      NothingLeft(vs[..|vs| - 1]);
    }
  }

  // ---- Null keys: the skeleton drops them, the aggregates do not ----

  predicate HasNull(k: Key) {
    exists i :: 0 <= i < |k| && k[i].Null?
  }

  lemma HasNullMeaning(k: Key)
    ensures HasNull(k) <==> Null in k
  {
    if Null in k {
      var i :| 0 <= i < |k| && k[i] == Null;
      assert k[i].Null?;
    }
  }

  /** `groupby` with its default dropna: rows whose key has a null belong to no group. */
  function NullFree(keys: seq<Key>): (r: seq<Key>)
    ensures |r| <= |keys|
  {
    if keys == [] then []
    else
      var init, last := NullFree(keys[..|keys| - 1]), keys[|keys| - 1];
      if HasNull(last) then init else init + [last]
  }

  lemma {:induction false} NullFreeMembers(keys: seq<Key>)
    ensures forall k :: k in NullFree(keys) <==> k in keys && !HasNull(k)
    ensures |NullFree(keys)| == |keys| <==> forall k :: k in keys ==> !HasNull(k)
  {
    hide HasNull;
    if keys != [] {
      NullFreeMembers(keys[..|keys| - 1]);
      assert keys == keys[..|keys| - 1] + [keys[|keys| - 1]];
    }
  }

  lemma NullFreeKnown(k: Key, groups: seq<Key>)
    requires !HasNull(k)
    ensures KnownKey(k, groups) <==> KnownKey(k, NullFree(groups))
  {
    hide NullFree;
    NullFreeMembers(groups);
    if KnownKey(k, groups) {
      var g :| 0 <= g < |groups| && SameKey(groups[g], k);
      assert !HasNull(groups[g]);
      assert groups[g] in NullFree(groups);
    }
    if KnownKey(k, NullFree(groups)) {
      var g :| 0 <= g < |NullFree(groups)| && SameKey(NullFree(groups)[g], k);
      assert NullFree(groups)[g] in groups;
    }
  }

  lemma {:induction false} NullFreeGroups(keys: seq<Key>)
    ensures DistinctKeys(NullFree(keys)) == NullFree(DistinctKeys(keys))
  {
    hide HasNull, KnownKey;
    if keys != [] {
      var init, last := keys[..|keys| - 1], keys[|keys| - 1];
      NullFreeGroups(init);
      if !HasNull(last) {
        NullFreeKnown(last, DistinctKeys(init));
        assert (NullFree(init) + [last])[..|NullFree(init)|] == NullFree(init);
      }
      if !KnownKey(last, DistinctKeys(init)) {
        assert (DistinctKeys(init) + [last])[..|DistinctKeys(init)|] == DistinctKeys(init);
      }
    }
  }

  /** The skeleton has a row for each aggregated value exactly when no key has a null. */
  lemma SkeletonAlignsIff(keys: seq<Key>)
    ensures |DistinctKeys(NullFree(keys))| == |DistinctKeys(keys)|
            <==> forall i :: 0 <= i < |keys| ==> !HasNull(keys[i])
  {
    hide DistinctKeys, NullFree, KnownKey, IsFirst, SameKey, HasNull;
    NullFreeGroups(keys);
    NullFreeMembers(DistinctKeys(keys));
    var firsts := DistinctKeysMeaning(keys);
    var groups := DistinctKeys(keys);
    if forall k :: k in groups ==> !HasNull(k) {
      forall i | 0 <= i < |keys|
        ensures !HasNull(keys[i])
      {
        var g := GroupOf(keys[i], groups);
        assert groups[g] in groups;
        SameKeyNulls(groups[g], keys[i]);
      }
    } else {
      var k :| k in groups && HasNull(k);
      var g :| 0 <= g < |groups| && groups[g] == k;
      FirstRowInRange(keys, groups, firsts, g);
      assert HasNull(keys[firsts[g]]);
    }
  }

  lemma FirstRowInRange(keys: seq<Key>, groups: seq<Key>, firsts: seq<nat>, g: nat)
    requires FirstRows(keys, groups, firsts) && g < |groups|
    ensures g < |firsts| && firsts[g] < |keys| && keys[firsts[g]] == groups[g]
  {}

  lemma SameKeyNulls(a: Key, b: Key)
    requires SameKey(a, b)
    ensures HasNull(a) <==> HasNull(b)
  {
    if HasNull(a) {
      var i :| 0 <= i < |a| && a[i].Null?;
      assert b[i].Null?;
    }
    if HasNull(b) {
      var i :| 0 <= i < |b| && b[i].Null?;
      assert a[i].Null?;
    }
  }
}
