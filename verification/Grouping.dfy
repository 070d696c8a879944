/** Grouping in one pass (aggregation_planner.py, evaluate_aggregation_grouped) against filtering each group and
    aggregating it alone. */
module Grouping {
  import opened Values
  import opened RowSemantics
  import opened ColumnSpec
  import opened QueryLaws
  import opened Aggregates
  import ColumnEvaluator

  // ---- Groups ----

  /** A row's group key: one value per non-aggregated item. */
  type Key = seq<Value>

  /** What a hash table compares: true and 1 are the same key. */
  function Canonical(v: Value): Value {
    if v.Bool? then Int(v.AsInt()) else v
  }

  predicate SameKey(a: Key, b: Key) {
    |a| == |b| && forall i :: 0 <= i < |a| ==> Canonical(a[i]) == Canonical(b[i])
  }

  /** Group keys are the same exactly when their values compare equal. */
  lemma SameKeyMeaning(a: Key, b: Key)
    requires Hashable(a) && Hashable(b)
    ensures SameKey(a, b) <==> |a| == |b| && forall i :: 0 <= i < |a| ==> SameValue(a[i], b[i])
  {
    if |a| == |b| {
      forall i | 0 <= i < |a|
        ensures Canonical(a[i]) == Canonical(b[i]) <==> SameValue(a[i], b[i])
      {
        assert !a[i].List? && !b[i].List?;
      }
    }
  }

  predicate KnownKey(k: Key, groups: seq<Key>) {
    exists g :: 0 <= g < |groups| && SameKey(groups[g], k)
  }

  /** The distinct keys in first-seen order. */
  function DistinctKeys(keys: seq<Key>): seq<Key> {
    if keys == [] then []
    else
      var init, last := DistinctKeys(keys[..|keys| - 1]), keys[|keys| - 1];
      if KnownKey(last, init) then init else init + [last]
  }

  ghost predicate PairwiseDistinct(groups: seq<Key>) {
    forall g, h :: 0 <= g < h < |groups| ==> !SameKey(groups[g], groups[h])
  }

  /** Row i opens a group: no earlier row has its key. */
  ghost predicate IsFirst(keys: seq<Key>, i: nat) {
    i < |keys| && forall j :: 0 <= j < i ==> !SameKey(keys[j], keys[i])
  }

  ghost predicate AllKnown(keys: seq<Key>, groups: seq<Key>) {
    forall i :: 0 <= i < |keys| ==> KnownKey(keys[i], groups)
  }

  /** The groups' first rows, in order. */
  ghost predicate FirstRows(keys: seq<Key>, groups: seq<Key>, firsts: seq<nat>) {
    && |firsts| == |groups|
    && (forall g :: 0 <= g < |groups| ==> IsFirst(keys, firsts[g]) && groups[g] == keys[firsts[g]])
    && (forall g, h :: 0 <= g < h < |groups| ==> firsts[g] < firsts[h])
  }

  /** Every key has exactly one group, and the groups appear in the order of their first rows. */
  lemma {:induction false} DistinctKeysMeaning(keys: seq<Key>) returns (firsts: seq<nat>)
    ensures PairwiseDistinct(DistinctKeys(keys))
    ensures AllKnown(keys, DistinctKeys(keys))
    ensures FirstRows(keys, DistinctKeys(keys), firsts)
  {
    hide SameKey, KnownKey, IsFirst, FirstRows, AllKnown, PairwiseDistinct;
    firsts := [];
    if keys == [] {
      NoGroups(keys);
    } else {
      var n := |keys| - 1;
      var init, groups := keys[..n], DistinctKeys(keys[..n]);
      firsts := DistinctKeysMeaning(init);
      FirstRowsGrow(keys, groups, firsts);
      KeyKnown(keys, groups);
      if !KnownKey(keys[n], groups) {
        LastOpensGroup(keys, groups);
        NewKeyDistinct(groups, keys[n]);
        FirstRowsAppend(keys, groups, firsts);
        firsts := firsts + [n];
      }
    }
  }

  lemma NoGroups(keys: seq<Key>)
    requires keys == []
    ensures PairwiseDistinct([]) && AllKnown(keys, []) && FirstRows(keys, [], [])
  {}

  lemma FirstRowsAppend(keys: seq<Key>, groups: seq<Key>, firsts: seq<nat>)
    requires keys != [] && FirstRows(keys, groups, firsts) && IsFirst(keys, |keys| - 1)
    requires forall g :: 0 <= g < |firsts| ==> firsts[g] < |keys| - 1
    ensures FirstRows(keys, groups + [keys[|keys| - 1]], firsts + [|keys| - 1])
  {
    hide IsFirst;
  }

  lemma FirstRowsGrow(keys: seq<Key>, groups: seq<Key>, firsts: seq<nat>)
    requires keys != [] && FirstRows(keys[..|keys| - 1], groups, firsts)
    ensures FirstRows(keys, groups, firsts)
    ensures forall g :: 0 <= g < |firsts| ==> firsts[g] < |keys| - 1
  {
    hide SameKey;
    var init := keys[..|keys| - 1];
    forall g | 0 <= g < |groups|
      ensures IsFirst(keys, firsts[g]) && groups[g] == keys[firsts[g]] && firsts[g] < |keys| - 1
    {
      assert IsFirst(init, firsts[g]);
      assert forall j :: 0 <= j <= firsts[g] ==> keys[j] == init[j];
    }
  }

  lemma KeyKnown(keys: seq<Key>, groups: seq<Key>)
    requires keys != [] && AllKnown(keys[..|keys| - 1], groups)
    ensures AllKnown(keys, if KnownKey(keys[|keys| - 1], groups) then groups else groups + [keys[|keys| - 1]])
  {
    hide SameKey;
    var n := |keys| - 1;
    var grown := if KnownKey(keys[n], groups) then groups else groups + [keys[n]];
    forall i | 0 <= i < |keys|
      ensures KnownKey(keys[i], grown)
    {
      if i < n {
        assert keys[..n][i] == keys[i];
        var g :| 0 <= g < |groups| && SameKey(groups[g], keys[i]);
        assert grown[g] == groups[g];
      } else if !KnownKey(keys[n], groups) {
        SameKeyReflexive(keys[n]);
        assert grown[|groups|] == keys[n];
      }
    }
  }

  lemma NewKeyDistinct(groups: seq<Key>, k: Key)
    requires PairwiseDistinct(groups) && !KnownKey(k, groups)
    ensures PairwiseDistinct(groups + [k])
  {
    hide SameKey;
  }

  lemma SameKeyReflexive(k: Key)
    ensures SameKey(k, k)
  {}

  lemma SameKeySymmetric(a: Key, b: Key)
    ensures SameKey(a, b) <==> SameKey(b, a)
  {}

  lemma SameKeyTransitive(a: Key, b: Key, c: Key)
    requires SameKey(a, b) && SameKey(b, c)
    ensures SameKey(a, c)
  {}

  lemma LastOpensGroup(keys: seq<Key>, groups: seq<Key>)
    requires keys != [] && !KnownKey(keys[|keys| - 1], groups) && AllKnown(keys[..|keys| - 1], groups)
    ensures IsFirst(keys, |keys| - 1)
  {
    hide SameKey;
    var n := |keys| - 1;
    forall j | 0 <= j < n
      ensures !SameKey(keys[j], keys[n])
    {
      assert keys[..n][j] == keys[j];
      var g :| 0 <= g < |groups| && SameKey(groups[g], keys[j]);
      if SameKey(keys[j], keys[n]) {
        SameKeyTransitive(groups[g], keys[j], keys[n]);
        assert false;
      }
    }
  }

  /** Each row's group number. */
  ghost predicate Codes(codes: seq<nat>, keys: seq<Key>, groups: seq<Key>) {
    && |codes| == |keys|
    && forall i :: 0 <= i < |keys| ==> codes[i] < |groups| && SameKey(groups[codes[i]], keys[i])
  }

  /** The single pass that numbers the groups in first-seen order. */
  method Factorize(keys: seq<Key>) returns (codes: seq<nat>, groups: seq<Key>)
    ensures groups == DistinctKeys(keys) && Codes(codes, keys, groups)
  {
    hide SameKey;
    codes, groups := [], [];
    for i := 0 to |keys|
      invariant groups == DistinctKeys(keys[..i]) && Codes(codes, keys[..i], groups)
    {
      assert keys[..i + 1][..i] == keys[..i];
      if g: nat :| g < |groups| && SameKey(groups[g], keys[i]) {
        codes := codes + [g];
      } else {
        SameKeyReflexive(keys[i]);
        codes := codes + [|groups|];
        groups := groups + [keys[i]];
      }
    }
    assert keys[..|keys|] == keys;
  }

  /** Which rows have the key. */
  function KeyMask(keys: seq<Key>, k: Key): (r: seq<Value>)
    ensures |r| == |keys| && forall i :: 0 <= i < |keys| ==> r[i] == Bool(SameKey(k, keys[i]))
  {
    seq(|keys|, i requires 0 <= i < |keys| => Bool(SameKey(k, keys[i])))
  }

  function CodeMask(codes: seq<nat>, g: nat): (r: seq<Value>)
    ensures |r| == |codes| && forall i :: 0 <= i < |codes| ==> r[i] == Bool(codes[i] == g)
  {
    seq(|codes|, i requires 0 <= i < |codes| => Bool(codes[i] == g))
  }

  lemma CodeMaskIsKeyMask(codes: seq<nat>, keys: seq<Key>, groups: seq<Key>, g: nat)
    requires Codes(codes, keys, groups) && PairwiseDistinct(groups) && g < |groups|
    ensures CodeMask(codes, g) == KeyMask(keys, groups[g])
  {
    hide SameKey;
    forall i | 0 <= i < |keys|
      ensures codes[i] == g <==> SameKey(groups[g], keys[i])
    {
      var h := codes[i];
      if SameKey(groups[g], keys[i]) && h != g {
        SameKeySymmetric(groups[h], keys[i]);
        SameKeyTransitive(groups[g], keys[i], groups[h]);
        SameKeySymmetric(groups[g], groups[h]);
        assert false;
      }
    }
  }

  // ---- One pass over the rows ----

  /** Every group's accumulator is the fold of its own rows. */
  method GroupedFold<A>(codes: seq<nat>, m: nat, values: seq<Value>, init: A, step: (A, Value) -> A)
    returns (accs: seq<A>)
    requires |codes| == |values| && forall i :: 0 <= i < |codes| ==> codes[i] < m
    ensures |accs| == m
    ensures forall g :: 0 <= g < m ==> accs[g] == FoldLeft(step, init, Select(values, CodeMask(codes, g)))
  {
    hide FoldLeft, Select;
    accs := seq(m, g => init);
    assert values[..0] == [] && codes[..0] == [];
    FoldNothing(step, init);
    forall g: nat | g < m
      ensures Select(values[..0], CodeMask(codes[..0], g)) == []
    {
      SelectNothing(values[..0], CodeMask(codes[..0], g));
    }
    for i := 0 to |codes|
      invariant |accs| == m
      invariant forall g :: 0 <= g < m ==> accs[g] == FoldLeft(step, init, Select(values[..i], CodeMask(codes[..i], g)))
    {
      forall g: nat | g < m
        ensures FoldLeft(step, init, Select(values[..i + 1], CodeMask(codes[..i + 1], g))) ==
                if codes[i] == g then step(accs[g], values[i]) else accs[g]
      {
        FoldOneRow(codes, values, i, g, init, step);
      }
      accs := accs[codes[i] := step(accs[codes[i]], values[i])];
    }
    assert values[..|codes|] == values && codes[..|codes|] == codes;
  }

  lemma FoldNothing<A>(step: (A, Value) -> A, init: A)
    ensures FoldLeft(step, init, []) == init
  {}

  lemma SelectNothing<T>(xs: seq<T>, mask: seq<Value>)
    requires xs == [] && mask == []
    ensures Select(xs, mask) == []
  {}

  lemma FoldOneRow<A>(codes: seq<nat>, values: seq<Value>, i: nat, g: nat, init: A, step: (A, Value) -> A)
    requires |codes| == |values| && i < |codes|
    ensures FoldLeft(step, init, Select(values[..i + 1], CodeMask(codes[..i + 1], g))) ==
            var acc := FoldLeft(step, init, Select(values[..i], CodeMask(codes[..i], g)));
            if codes[i] == g then step(acc, values[i]) else acc
  {
    var vs, mask := values[..i + 1], CodeMask(codes[..i + 1], g);
    assert vs[..i] == values[..i] && mask[..i] == CodeMask(codes[..i], g);
    var chosen := Select(values[..i], CodeMask(codes[..i], g));
    assert Select(vs, mask) == if codes[i] == g then chosen + [values[i]] else chosen;
    if codes[i] == g {
      assert (chosen + [values[i]])[..|chosen|] == chosen;
    }
  }

  /** All the results, or the failure of any of them. */
  function Sequence<T>(rs: seq<Res<T>>): (r: Res<seq<T>>)
    ensures r.Ok? <==> forall i :: 0 <= i < |rs| ==> rs[i].Ok?
    ensures r.Ok? ==> |r.value| == |rs| && forall i :: 0 <= i < |rs| ==> rs[i] == Ok(r.value[i])
  {
    if rs == [] then Ok([])
    else
      var init :- Sequence(rs[..|rs| - 1]);
      var last :- rs[|rs| - 1];
      Ok(init + [last])
  }

  /** Each group's values, aggregated. */
  function GroupValues(spread: Spread, fn: AggFn, distinct: bool, codes: seq<nat>, m: nat, values: seq<Value>)
    : (r: seq<Res<Out>>)
    requires |codes| == |values|
    ensures |r| == m
    ensures forall g :: 0 <= g < m ==> r[g] == GroupedValue(spread, fn, distinct, Select(values, CodeMask(codes, g)))
  {
    seq(m, g requires 0 <= g < m => GroupedValue(spread, fn, distinct, Select(values, CodeMask(codes, g))))
  }

  /** evaluate_aggregation_grouped on an evaluated argument: count and nunique, the native sums, means and extrema, or
      the handler per group. */
  method GroupedColumn(spread: Spread, fn: AggFn, distinct: bool, codes: seq<nat>, m: nat, values: seq<Value>)
    returns (r: Res<seq<Out>>)
    requires |codes| == |values| && forall i :: 0 <= i < |codes| ==> codes[i] < m
    ensures r == Sequence(GroupValues(spread, fn, distinct, codes, m, values))
  {
    hide FoldLeft, Select, GroupedValue, Sequence;
    ghost var want := GroupValues(spread, fn, distinct, codes, m, values);
    var outs;
    if fn.CountFn? {
      outs := GroupedCounts(spread, distinct, codes, m, values);
    } else if !distinct && (fn.SumFn? || fn.AvgFn?) {
      outs := GroupedSums(spread, fn, codes, m, values);
    } else if !distinct && (fn.MinFn? || fn.MaxFn?) {
      outs := GroupedBests(spread, fn, codes, m, values);
    } else {
      outs := GroupedApply(spread, fn, distinct, codes, m, values);
    }
    assert outs == want;
    r := Sequence(outs);
  }

  method GroupedCounts(spread: Spread, distinct: bool, codes: seq<nat>, m: nat, values: seq<Value>)
    returns (outs: seq<Res<Out>>)
    requires |codes| == |values| && forall i :: 0 <= i < |codes| ==> codes[i] < m
    ensures outs == GroupValues(spread, CountFn, distinct, codes, m, values)
  {
    hide FoldLeft, Select, Dedupe, DropNa;
    if distinct {
      // nunique hashes every value
      var seen := GroupedFold(codes, m, values, [], UniqueStep);
      var all := GroupedFold(codes, m, values, [], CollectStep);
      outs := seq(m, g requires 0 <= g < m => if Hashable(all[g]) then Ok(Scalar(Int(|seen[g]|))) else Err);
      forall g: nat | g < m
        ensures outs[g] == GroupedValue(spread, CountFn, distinct, Select(values, CodeMask(codes, g)))
      {
        UniqueFold(Select(values, CodeMask(codes, g)));
        CollectFold(Select(values, CodeMask(codes, g)));
        DedupeDropNa(Select(values, CodeMask(codes, g)));
      }
    } else {
      var counts: seq<nat> := GroupedFold(codes, m, values, 0, CountStep);
      outs := seq(m, g requires 0 <= g < m => Ok(Scalar(Int(counts[g]))));
      forall g: nat | g < m
        ensures outs[g] == GroupedValue(spread, CountFn, distinct, Select(values, CodeMask(codes, g)))
      {
        CountFold(Select(values, CodeMask(codes, g)));
      }
    }
  }

  method GroupedSums(spread: Spread, fn: AggFn, codes: seq<nat>, m: nat, values: seq<Value>)
    returns (outs: seq<Res<Out>>)
    requires fn.SumFn? || fn.AvgFn?
    requires |codes| == |values| && forall i :: 0 <= i < |codes| ==> codes[i] < m
    ensures outs == GroupValues(spread, fn, false, codes, m, values)
  {
    hide FoldLeft, Select, DropNa, Total, Mean;
    var sums := GroupedFold(codes, m, values, Running(0, Err), SumStep);
    outs := seq(m, g requires 0 <= g < m => FinishSum(fn, sums[g]));
    forall g: nat | g < m
      ensures outs[g] == GroupedValue(spread, fn, false, Select(values, CodeMask(codes, g)))
    {
      SumFold(Select(values, CodeMask(codes, g)));
    }
  }

  function FinishSum(fn: AggFn, a: Running): Res<Out> {
    if a.count == 0 then Ok(Scalar(Null))
    else
      var t :- a.total;
      if fn.AvgFn? then Mean(t, a.count) else Ok(Scalar(t))
  }

  method GroupedBests(spread: Spread, fn: AggFn, codes: seq<nat>, m: nat, values: seq<Value>)
    returns (outs: seq<Res<Out>>)
    requires fn.MinFn? || fn.MaxFn?
    requires |codes| == |values| && forall i :: 0 <= i < |codes| ==> codes[i] < m
    ensures outs == GroupValues(spread, fn, false, codes, m, values)
  {
    hide FoldLeft, Select, DropNa, Best;
    var bests := GroupedFold(codes, m, values, Running(0, Err), BestStep(fn.MaxFn?));
    outs := seq(m, g requires 0 <= g < m => FinishBest(bests[g]));
    forall g: nat | g < m
      ensures outs[g] == GroupedValue(spread, fn, false, Select(values, CodeMask(codes, g)))
    {
      BestFold(Select(values, CodeMask(codes, g)), fn.MaxFn?);
    }
  }

  function FinishBest(a: Running): Res<Out> {
    if a.count == 0 then Ok(Scalar(Null))
    else
      var m :- a.total;
      Ok(Scalar(m))
  }

  /** The general case: gather each group's values, then call the handler. */
  method GroupedApply(spread: Spread, fn: AggFn, distinct: bool, codes: seq<nat>, m: nat, values: seq<Value>)
    returns (outs: seq<Res<Out>>)
    requires !(fn.SumFn? && !distinct)
    requires |codes| == |values| && forall i :: 0 <= i < |codes| ==> codes[i] < m
    ensures outs == GroupValues(spread, fn, distinct, codes, m, values)
  {
    hide FoldLeft, Select, AggregateValues;
    var all := GroupedFold(codes, m, values, [], CollectStep);
    outs := seq(m, g requires 0 <= g < m => AggregateValues(spread, fn, distinct, all[g]));
    forall g: nat | g < m
      ensures outs[g] == GroupedValue(spread, fn, distinct, Select(values, CodeMask(codes, g)))
    {
      CollectFold(Select(values, CodeMask(codes, g)));
    }
  }

  // ---- Aggregation items over a frame ----

  datatype Call = CountStar | Call(fn: AggFn, distinct: bool, arg: Expr)

  /** An operand of arithmetic around aggregates: an aggregate, or an expression whose first row counts. */
  datatype Operand = Aggregated(call: Call) | Plain(e: Expr)

  datatype AggExpr = Lone(call: Call) | Wrapped(op: string, left: Operand, right: Operand)

  /** Row functions, arithmetic on aggregated values, and standard deviation. */
  datatype Host = Host(prims: Primitives, arith: (string, Out, Out) -> Res<Out>, spread: Spread)

  ghost function CallOver(h: Host, c: Call, f: Frame): Res<Out>
    requires f.Valid()
  {
    match c
    case CountStar => Ok(Scalar(Int(f.n)))
    case Call(fn, distinct, arg) =>
      var col :- Column(h.prims, arg, f);
      AggregateValues(h.spread, fn, distinct, col)
  }

  ghost function OperandOver(h: Host, o: Operand, f: Frame): Res<Out>
    requires f.Valid()
  {
    match o
    case Aggregated(c) => CallOver(h, c, f)
    case Plain(e) =>
      var col :- Column(h.prims, e, f);
      Ok(Scalar(if col == [] then Null else col[0]))
  }

  predicate IsZeroOrNull(o: Out) {
    match o
    case Scalar(v) => !Truthy(v)
    case Real(x) => x == 0.0
  }

  /** `/`, the division sign (code point F7) and `%`. */
  predicate Divides(op: string) {
    op == "/" || op == "%" || op == [0xF7 as char]
  }

  function ApplyOperator(h: Host, op: string, a: Out, b: Out): Res<Out> {
    if Divides(op) && IsZeroOrNull(b) then Ok(Scalar(Null)) else h.arith(op, a, b)
  }

  /** evaluate_aggregation: one item over all rows of a frame. */
  ghost function AggregateOver(h: Host, a: AggExpr, f: Frame): Res<Out>
    requires f.Valid()
  {
    match a
    case Lone(c) => CallOver(h, c, f)
    case Wrapped(op, l, r) =>
      var x :- OperandOver(h, l, f);
      var y :- OperandOver(h, r, f);
      ApplyOperator(h, op, x, y)
  }

  method EvaluateCall(h: Host, c: Call, f: Frame) returns (r: Res<Out>)
    requires f.Valid()
    ensures r == CallOver(h, c, f)
  {
    hide Column, AggregateValues;
    if c.CountStar? {
      return Ok(Scalar(Int(f.n)));
    }
    var col := ColumnEvaluator.Evaluate(h.prims, c.arg, f);
    r := if col.Err? then Err else AggregateValues(h.spread, c.fn, c.distinct, col.value);
  }

  method EvaluateOperand(h: Host, o: Operand, f: Frame) returns (r: Res<Out>)
    requires f.Valid()
    ensures r == OperandOver(h, o, f)
  {
    hide Column;
    if o.Aggregated? {
      r := EvaluateCall(h, o.call, f);
    } else {
      var col := ColumnEvaluator.Evaluate(h.prims, o.e, f);
      r := if col.Err? then Err else Ok(Scalar(if col.value == [] then Null else col.value[0]));
    }
  }

  method EvaluateAggregation(h: Host, a: AggExpr, f: Frame) returns (r: Res<Out>)
    requires f.Valid()
    ensures r == AggregateOver(h, a, f)
  {
    hide CallOver, OperandOver;
    if a.Lone? {
      r := EvaluateCall(h, a.call, f);
    } else {
      var x := EvaluateOperand(h, a.left, f);
      var y := EvaluateOperand(h, a.right, f);
      r := if x.Err? || y.Err? then Err else ApplyOperator(h, a.op, x.value, y.value);
    }
  }

  // ---- Group by group ----

  /** The frame filtered to one group. */
  ghost function GroupFrame(f: Frame, keys: seq<Key>, k: Key): (r: Frame)
    requires f.Valid() && |keys| == f.n
    ensures r.Valid()
  {
    FilterRows(f, KeyMask(keys, k));
    Filter(f, KeyMask(keys, k))
  }

  /** An item aggregated over each group's own frame. */
  ghost function PerGroup(h: Host, a: AggExpr, f: Frame, keys: seq<Key>): (r: seq<Res<Out>>)
    requires f.Valid() && |keys| == f.n
    ensures |r| == |DistinctKeys(keys)|
    ensures forall g :: 0 <= g < |r| ==> r[g] == AggregateOver(h, a, GroupFrame(f, keys, DistinctKeys(keys)[g]))
  {
    var groups := DistinctKeys(keys);
    seq(|groups|, g requires 0 <= g < |groups| => AggregateOver(h, a, GroupFrame(f, keys, groups[g])))
  }

  /** A group's frame where a plain sum of nothing but text, or of nothing but lists, is taken. */
  ghost predicate SumsText(h: Host, c: Call, f: Frame)
    requires f.Valid()
  {
    && c.Call? && c.fn.SumFn? && !c.distinct
    && Column(h.prims, c.arg, f).Ok? && TextOnly(Column(h.prims, c.arg, f).value)
  }

  /** What the grouped pass gives for the rows of one frame. */
  ghost function FastOver(h: Host, c: Call, f: Frame): Res<Out>
    requires f.Valid()
  {
    match c
    case CountStar => Ok(Scalar(Int(f.n)))
    case Call(fn, distinct, arg) =>
      var col :- Column(h.prims, arg, f);
      GroupedValue(h.spread, fn, distinct, col)
  }

  lemma FastOverIff(h: Host, c: Call, f: Frame)
    requires f.Valid()
    ensures FastOver(h, c, f) == CallOver(h, c, f) <==> !SumsText(h, c, f)
    ensures FastOver(h, c, f).Err? ==> CallOver(h, c, f).Err?
  {
    hide Column, GroupedValue, AggregateValues, TextOnly;
    if c.Call? && Column(h.prims, c.arg, f).Ok? {
      GroupedValueIff(h.spread, c.fn, c.distinct, Column(h.prims, c.arg, f).value);
    }
  }

  ghost function FastPerGroup(h: Host, c: Call, f: Frame, keys: seq<Key>): (r: seq<Res<Out>>)
    requires f.Valid() && |keys| == f.n
    ensures |r| == |DistinctKeys(keys)|
    ensures forall g :: 0 <= g < |r| ==> r[g] == FastOver(h, c, GroupFrame(f, keys, DistinctKeys(keys)[g]))
  {
    var groups := DistinctKeys(keys);
    seq(|groups|, g requires 0 <= g < |groups| => FastOver(h, c, GroupFrame(f, keys, groups[g])))
  }

  /** A frame without rows has no groups, but its argument names are still resolved. */
  ghost predicate Resolves(c: Call, f: Frame) {
    f.n == 0 && c.Call? ==> InScope(c.arg, f.cols.Keys)
  }
}
