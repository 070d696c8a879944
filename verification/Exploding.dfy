/** Flattening rows of lists into one column with row numbers, and regrouping by row number. */
module Exploding {
  import opened Values
  import opened RowSemantics

  /** All groups one after the other. */
  function Flat<T>(groups: seq<seq<T>>): seq<T> {
    if groups == [] then [] else Flat(groups[..|groups| - 1]) + groups[|groups| - 1]
  }

  function Repeat(n: nat, row: nat): (r: seq<nat>)
    ensures |r| == n && forall k :: 0 <= k < n ==> r[k] == row
  {
    seq(n, i => row)
  }

  /** The row number of every element of Flat(groups). */
  function RowNumbers<T>(groups: seq<seq<T>>): (r: seq<nat>)
    ensures |r| == |Flat(groups)|
    ensures forall k :: 0 <= k < |r| ==> r[k] < |groups|
  {
    if groups == [] then []
    else RowNumbers(groups[..|groups| - 1]) + Repeat(|groups[|groups| - 1]|, |groups| - 1)
  }

  /** The values whose row number is `row`, in order. */
  function Pick<T>(rows: seq<nat>, vals: seq<T>, row: nat): seq<T>
    requires |rows| == |vals|
  {
    if rows == [] then []
    else
      var k := |rows| - 1;
      Pick(rows[..k], vals[..k], row) + (if rows[k] == row then [vals[k]] else [])
  }

  lemma {:induction false} PickConcat<T>(r1: seq<nat>, v1: seq<T>, r2: seq<nat>, v2: seq<T>, row: nat)
    requires |r1| == |v1| && |r2| == |v2|
    ensures Pick(r1 + r2, v1 + v2, row) == Pick(r1, v1, row) + Pick(r2, v2, row)
  {
    if r2 == [] {
      assert r1 + r2 == r1 && v1 + v2 == v1;
    } else {
      var k := |r2| - 1;
      PickConcat(r1, v1, r2[..k], v2[..k], row);
      assert (r1 + r2)[..|r1 + r2| - 1] == r1 + r2[..k];
      assert (v1 + v2)[..|v1 + v2| - 1] == v1 + v2[..k];
    }
  }

  lemma {:induction false} PickRepeat<T>(vals: seq<T>, r: nat, row: nat)
    ensures Pick(Repeat(|vals|, r), vals, row) == if r == row then vals else []
  {
    if vals != [] {
      var k := |vals| - 1;
      PickRepeat(vals[..k], r, row);
      assert Repeat(|vals|, r)[..k] == Repeat(k, r);
      assert vals[..k] + [vals[k]] == vals;
    }
  }

  /** Regrouping a flattening by row number gives every group back, in its original order. */
  lemma {:induction false} PickOfFlat<T>(groups: seq<seq<T>>, row: nat)
    ensures Pick(RowNumbers(groups), Flat(groups), row) == if row < |groups| then groups[row] else []
  {
    if groups != [] {
      var k := |groups| - 1;
      PickOfFlat(groups[..k], row);
      PickConcat(RowNumbers(groups[..k]), Flat(groups[..k]), Repeat(|groups[k]|, k), groups[k], row);
      PickRepeat(groups[k], k, row);
    }
  }

  /** `per_row[ridx].append(val)` for every flattened pair. */
  method Regroup<T>(n: nat, rows: seq<nat>, vals: seq<T>, ghost groups: seq<seq<T>>) returns (perRow: seq<seq<T>>)
    requires n == |groups| && rows == RowNumbers(groups) && vals == Flat(groups)
    ensures perRow == groups
  {
    perRow := seq(n, i => []);
    for k := 0 to |rows|
      invariant |perRow| == n
      invariant forall i :: 0 <= i < n ==> perRow[i] == Pick(rows[..k], vals[..k], i)
    {
      assert rows[..k + 1][..k] == rows[..k] && vals[..k + 1][..k] == vals[..k];
      perRow := perRow[rows[k] := perRow[rows[k]] + [vals[k]]];
    }
    assert rows[..|rows|] == rows && vals[..|rows|] == vals;
    forall i | 0 <= i < n
      ensures perRow[i] == groups[i]
    {
      PickOfFlat(groups, i);
    }
  }

  // ---- Evaluation and selection distribute over flattening ----

  lemma EachConcat(p: Primitives, e: Expr, a: seq<Env>, b: seq<Env>)
    ensures var r, ra, rb := EvalEach(p, e, a + b), EvalEach(p, e, a), EvalEach(p, e, b);
            if ra.Ok? && rb.Ok? then r == Ok(ra.value + rb.value) else r.Err?
  {
    hide Eval, EvalEach;
    var r, ra, rb := EvalEach(p, e, a + b), EvalEach(p, e, a), EvalEach(p, e, b);
    assert forall i :: 0 <= i < |a| ==> (a + b)[i] == a[i];
    assert forall i :: 0 <= i < |b| ==> (a + b)[|a| + i] == b[i];
    if r.Ok? && ra.Ok? && rb.Ok? {
      forall k | 0 <= k < |a + b|
        ensures r.value[k] == (ra.value + rb.value)[k]
      {
        assert Eval(p, e, (a + b)[k]) == Ok(r.value[k]);
        if k >= |a| {
          assert Eval(p, e, b[k - |a|]) == Ok(rb.value[k - |a|]);
        }
      }
      assert r.value == ra.value + rb.value;
    }
  }

  lemma EachNone(p: Primitives, e: Expr)
    ensures EvalEach(p, e, []) == Ok([])
  {}

  /** Evaluating a flattened frame is evaluating every group, concatenated. */
  lemma {:induction false} EachFlat(p: Primitives, e: Expr, groups: seq<seq<Env>>)
    ensures var r := EvalEach(p, e, Flat(groups));
            && (r.Err? <==> exists i :: 0 <= i < |groups| && EvalEach(p, e, groups[i]).Err?)
            && (r.Ok? ==> r.value == Flat(EachValues(p, e, groups)))
  {
    hide Eval, EvalEach;
    if groups == [] {
      assert EvalEach(p, e, Flat(groups)) == Ok([]) by { EachNone(p, e); }
    } else {
      var k := |groups| - 1;
      EachFlat(p, e, groups[..k]);
      EachConcat(p, e, Flat(groups[..k]), groups[k]);
      if EvalEach(p, e, Flat(groups)).Ok? {
        var vals := EachValues(p, e, groups);
        assert vals[..k] == EachValues(p, e, groups[..k]);
        assert vals[k] == EvalEach(p, e, groups[k]).value;
      }
    }
  }

  /** The value column of every group (empty for a group that fails). */
  function EachValues(p: Primitives, e: Expr, groups: seq<seq<Env>>): (r: seq<seq<Value>>)
    ensures |r| == |groups|
    ensures forall i :: 0 <= i < |groups| && EvalEach(p, e, groups[i]).Ok? ==> r[i] == EvalEach(p, e, groups[i]).value
  {
    seq(|groups|, i requires 0 <= i < |groups| =>
      var r := EvalEach(p, e, groups[i]); if r.Ok? then r.value else [])
  }

  lemma {:induction false} SelectConcat<T>(xs: seq<T>, ks: seq<Value>, ys: seq<T>, ls: seq<Value>)
    requires |xs| == |ks| && |ys| == |ls|
    ensures Select(xs + ys, ks + ls) == Select(xs, ks) + Select(ys, ls)
  {
    if ys == [] {
      assert xs + ys == xs && ks + ls == ks;
    } else {
      var k := |ys| - 1;
      SelectConcat(xs, ks, ys[..k], ls[..k]);
      assert (xs + ys)[..|xs + ys| - 1] == xs + ys[..k];
      assert (ks + ls)[..|ks + ls| - 1] == ks + ls[..k];
    }
  }

  ghost predicate SameShape<S, T>(a: seq<seq<S>>, b: seq<seq<T>>) {
    |a| == |b| && forall i :: 0 <= i < |a| ==> |a[i]| == |b[i]|
  }

  function Selections<T>(groups: seq<seq<T>>, keeps: seq<seq<Value>>): (r: seq<seq<T>>)
    requires SameShape(groups, keeps)
    ensures |r| == |groups| && forall i :: 0 <= i < |r| ==> r[i] == Select(groups[i], keeps[i])
  {
    seq(|groups|, i requires 0 <= i < |groups| => Select(groups[i], keeps[i]))
  }

  lemma {:induction false} SameShapeFlat<S, T>(a: seq<seq<S>>, b: seq<seq<T>>)
    requires SameShape(a, b)
    ensures |Flat(a)| == |Flat(b)| && RowNumbers(a) == RowNumbers(b)
  {
    if a != [] {
      SameShapeFlat(a[..|a| - 1], b[..|b| - 1]);
    }
  }

  lemma {:induction false} SelectRepeat<T>(n: nat, row: nat, xs: seq<T>, keep: seq<Value>)
    requires |xs| == |keep| == n
    ensures Select(Repeat(n, row), keep) == Repeat(|Select(xs, keep)|, row)
  {
    if n > 0 {
      SelectRepeat(n - 1, row, xs[..n - 1], keep[..n - 1]);
      assert Repeat(n, row)[..n - 1] == Repeat(n - 1, row);
    }
  }

  /** Selecting from the flat column, and from its row numbers, selects inside every group. */
  lemma {:induction false} SelectFlat<T>(groups: seq<seq<T>>, keeps: seq<seq<Value>>)
    requires SameShape(groups, keeps)
    ensures |Flat(groups)| == |Flat(keeps)| == |RowNumbers(groups)|
    ensures Select(Flat(groups), Flat(keeps)) == Flat(Selections(groups, keeps))
    ensures Select(RowNumbers(groups), Flat(keeps)) == RowNumbers(Selections(groups, keeps))
  {
    SameShapeFlat(groups, keeps);
    if groups != [] {
      var k := |groups| - 1;
      SelectFlat(groups[..k], keeps[..k]);
      SameShapeFlat(groups[..k], keeps[..k]);
      SelectConcat(Flat(groups[..k]), Flat(keeps[..k]), groups[k], keeps[k]);
      SelectConcat(RowNumbers(groups[..k]), Flat(keeps[..k]), Repeat(|groups[k]|, k), keeps[k]);
      SelectRepeat(|groups[k]|, k, groups[k], keeps[k]);
      assert Selections(groups, keeps)[..k] == Selections(groups[..k], keeps[..k]);
    }
  }
}
