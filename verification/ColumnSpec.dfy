/** Frames, and what evaluating an expression over a whole frame must return. */
module ColumnSpec {
  import opened Values
  import opened RowSemantics

  /** A binding table: equally long columns, and its row count. */
  datatype Frame = Frame(cols: map<string, seq<Value>>, n: nat) {
    ghost predicate Valid() {
      forall c :: c in cols ==> |cols[c]| == n
    }

    function Row(i: nat): (r: Env)
      requires forall c :: c in cols ==> |cols[c]| == n
      requires i < n
      ensures r.Keys == cols.Keys
      ensures forall c :: c in cols ==> r[c] == cols[c][i]
    {
      map c | c in cols :: cols[c][i]
    }
  }

  function Rows(f: Frame): (r: seq<Env>)
    requires f.Valid()
    ensures |r| == f.n && forall i :: 0 <= i < f.n ==> r[i] == f.Row(i)
  {
    seq(f.n, i requires 0 <= i < f.n => f.Row(i))
  }

  /** Every row evaluated alone. A frame without rows only has its names resolved. */
  ghost function Column(p: Primitives, e: Expr, f: Frame): (r: Res<seq<Value>>)
    requires f.Valid()
    ensures r.Ok? ==> |r.value| == f.n && forall i :: 0 <= i < f.n ==> Eval(p, e, f.Row(i)) == Ok(r.value[i])
    ensures r.Err? && f.n > 0 ==> exists i :: 0 <= i < f.n && Eval(p, e, f.Row(i)).Err?
    ensures f.n == 0 ==> (r.Ok? <==> InScope(e, f.cols.Keys))
  {
    if f.n == 0 then (if InScope(e, f.cols.Keys) then Ok([]) else Err)
    else
      var r := EvalEach(p, e, Rows(f));
      assert r.Err? ==> exists i :: 0 <= i < f.n && Eval(p, e, Rows(f)[i]).Err?;
      r
  }

  lemma ColumnIs(p: Primitives, e: Expr, f: Frame, col: seq<Value>)
    requires f.Valid() && |col| == f.n
    requires forall i :: 0 <= i < f.n ==> Eval(p, e, f.Row(i)) == Ok(col[i])
    requires f.n == 0 ==> InScope(e, f.cols.Keys)
    ensures Column(p, e, f) == Ok(col)
  {
    hide Eval, InScope;
    var r := Column(p, e, f);
    if f.n > 0 {
      assert r.Ok?;
      forall i | 0 <= i < f.n
        ensures r.value[i] == col[i]
      {
        assert Eval(p, e, f.Row(i)) == Ok(r.value[i]);
      }
    }
    assert r.value == col;
  }

  lemma ColumnFails(p: Primitives, e: Expr, f: Frame, i: nat)
    requires f.Valid() && i < f.n
    requires Eval(p, e, f.Row(i)).Err?
    ensures Column(p, e, f).Err?
  {}

  lemma ColumnOk(p: Primitives, e: Expr, f: Frame)
    requires f.Valid() && Column(p, e, f).Ok?
    ensures |Column(p, e, f).value| == f.n
    ensures forall i :: 0 <= i < f.n ==> Eval(p, e, f.Row(i)) == Ok(Column(p, e, f).value[i])
    ensures f.n == 0 ==> InScope(e, f.cols.Keys)
  {}

  /** A failing column has a failing row, or no rows and an unresolved name. */
  lemma FailingRow(p: Primitives, e: Expr, f: Frame) returns (i: nat)
    requires f.Valid() && Column(p, e, f).Err?
    ensures f.n == 0 ==> !InScope(e, f.cols.Keys)
    ensures f.n > 0 ==> i < f.n && Eval(p, e, f.Row(i)).Err?
  {
    i := 0;
    if f.n > 0 {
      i :| 0 <= i < f.n && Eval(p, e, f.Row(i)).Err?;
    }
  }

  /** Operators are strict: a failing operand fails the whole column. */
  lemma OperandFails(p: Primitives, e: Expr, x: Expr, f: Frame)
    requires f.Valid() && Column(p, x, f).Err?
    requires forall env :: Eval(p, x, env).Err? ==> Eval(p, e, env).Err?
    requires forall names :: InScope(e, names) ==> InScope(x, names)
    ensures Column(p, e, f).Err?
  {
    hide Eval, InScope, Column;
    var i := FailingRow(p, x, f);
    if f.n > 0 {
      ColumnFails(p, e, f, i);
    }
  }
}
