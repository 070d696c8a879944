/** BindingExpressionEvaluator.evaluate and its collection, boolean and comparison helpers: one pass per column. */
module ColumnEvaluator {
  import opened Values
  import opened RowSemantics
  import opened ColumnSpec
  import opened Exploding

  // ---- Elementwise column primitives ----

  function ZipRes(op: (Value, Value) -> Res<Value>, a: seq<Value>, b: seq<Value>): (r: Res<seq<Value>>)
    requires |a| == |b|
    ensures r.Ok? ==> |r.value| == |a| && forall i :: 0 <= i < |a| ==> op(a[i], b[i]) == Ok(r.value[i])
    ensures r.Err? ==> exists i :: 0 <= i < |a| && op(a[i], b[i]).Err?
  {
    if a == [] then Ok([])
    else
      var k := |a| - 1;
      var vs :- ZipRes(op, a[..k], b[..k]);
      var v :- op(a[k], b[k]);
      Ok(vs + [v])
  }

  function Broadcast(v: Value, n: nat): (r: seq<Value>)
    ensures |r| == n && forall i :: 0 <= i < n ==> r[i] == v
  {
    seq(n, i => v)
  }

  function KleeneColumns(op: BoolOp, a: seq<Value>, b: seq<Value>): (r: seq<Value>)
    requires |a| == |b|
    ensures |r| == |a| && forall i :: 0 <= i < |a| ==> r[i] == Kleene(op, a[i], b[i])
  {
    seq(|a|, i requires 0 <= i < |a| => Kleene(op, a[i], b[i]))
  }

  // ---- Dispatch ----

  method Evaluate(p: Primitives, e: Expr, f: Frame) returns (r: Res<seq<Value>>)
    requires f.Valid()
    ensures r == Column(p, e, f)
    decreases e, 2
  {
    hide Column;
    match e
    case Var(name) =>
      if name !in f.cols {
        if f.n > 0 {
          ColumnFails(p, e, f, 0);
        }
        return Err;
      }
      r := Ok(f.cols[name]);
      ColumnIs(p, e, f, r.value);
    case Lit(v) =>
      r := Ok(Broadcast(v, f.n));
      ColumnIs(p, e, f, r.value);
    case ListLit(_) =>
      r := EvaluateListLiteral(p, e, f);
    case Apply(_, _) =>
      r := EvaluateApply(p, e, f);
    case Comparison(op, x, y) =>
      r := EvaluateBinary(p, e, x, y, (a, b) => Compare(op, a, b), f);
    case Index(x, y) =>
      r := EvaluateBinary(p, e, x, y, IndexOne, f);
    case IsNull(x) =>
      r := EvaluateUnary(p, e, x, (v: Value) => Bool(v.Null?), f);
    case IsNotNull(x) =>
      r := EvaluateUnary(p, e, x, (v: Value) => Bool(!v.Null?), f);
    case Not(x) =>
      r := EvaluateUnary(p, e, x, KNot, f);
    case BoolChain(_, _) =>
      r := EvaluateBoolChain(p, e, f);
    case Case(_, _, _) =>
      r := EvaluateCase(p, e, f);
    case Slicing(_, _, _) =>
      r := EvaluateSlicing(p, e, f);
    case ListComp(_, _, _, _) =>
      r := EvaluateListComprehension(p, e, f);
    case Quantifier(_, _, _, _) =>
      r := EvaluateQuantifier(p, e, f);
    case Reduce(_, _, _, _, _) =>
      r := EvaluateReduce(p, e, f);
  }

  method EvaluateUnary(p: Primitives, e: Expr, x: Expr, op: Value -> Value, f: Frame) returns (r: Res<seq<Value>>)
    requires f.Valid() && x < e
    requires forall env :: Eval(p, e, env) == if Eval(p, x, env).Err? then Err else Ok(op(Eval(p, x, env).value))
    requires forall names :: InScope(e, names) <==> InScope(x, names)
    ensures r == Column(p, e, f)
    decreases e, 1
  {
    hide Column, Eval, InScope;
    var col := Evaluate(p, x, f);
    if col.Err? {
      OperandFails(p, e, x, f);
      return Err;
    }
    r := Ok(MapSeq(op, col.value));
    ColumnOk(p, x, f);
    ColumnIs(p, e, f, r.value);
  }

  /** e applies op to the values of x and y, and fails when either does. */
  ghost predicate Binary(p: Primitives, e: Expr, x: Expr, y: Expr, op: (Value, Value) -> Res<Value>) {
    && (forall env :: Eval(p, e, env) == (if Eval(p, x, env).Err? || Eval(p, y, env).Err? then Err
                                          else op(Eval(p, x, env).value, Eval(p, y, env).value)))
    && (forall names :: InScope(e, names) <==> InScope(x, names) && InScope(y, names))
  }

  lemma BinaryFails(p: Primitives, e: Expr, x: Expr, y: Expr, op: (Value, Value) -> Res<Value>, f: Frame)
    requires f.Valid() && Binary(p, e, x, y, op)
    requires Column(p, x, f).Err? || Column(p, y, f).Err?
    ensures Column(p, e, f).Err?
  {
    hide Eval, InScope, Column;
    if Column(p, x, f).Err? {
      OperandFails(p, e, x, f);
    } else {
      OperandFails(p, e, y, f);
    }
  }

  lemma BinaryColumn(p: Primitives, e: Expr, x: Expr, y: Expr, op: (Value, Value) -> Res<Value>, f: Frame,
                     left: seq<Value>, right: seq<Value>)
    requires f.Valid() && Binary(p, e, x, y, op)
    requires Column(p, x, f) == Ok(left) && Column(p, y, f) == Ok(right)
    requires |left| == f.n == |right|
    ensures Column(p, e, f) == ZipRes(op, left, right)
  {
    hide Eval, InScope, Column, ZipRes;
    ColumnOk(p, x, f);
    ColumnOk(p, y, f);
    var r := ZipRes(op, left, right);
    if r.Err? {
      var i :| 0 <= i < f.n && op(left[i], right[i]).Err?;
      assert Eval(p, e, f.Row(i)).Err?;
      ColumnFails(p, e, f, i);
    } else {
      ColumnIs(p, e, f, r.value);
    }
  }

  method EvaluateBinary(p: Primitives, e: Expr, x: Expr, y: Expr, op: (Value, Value) -> Res<Value>, f: Frame)
    returns (r: Res<seq<Value>>)
    requires f.Valid() && x < e && y < e && Binary(p, e, x, y, op)
    ensures r == Column(p, e, f)
    decreases e, 1
  {
    hide Column, Eval, InScope, Binary, ZipRes;
    var left := Evaluate(p, x, f);
    if left.Err? {
      BinaryFails(p, e, x, y, op, f);
      return Err;
    }
    var right := Evaluate(p, y, f);
    if right.Err? {
      BinaryFails(p, e, x, y, op, f);
      return Err;
    }
    ColumnOk(p, x, f);
    ColumnOk(p, y, f);
    r := ZipRes(op, left.value, right.value);
    BinaryColumn(p, e, x, y, op, f, left.value, right.value);
  }

  // ---- Operand lists ----

  /** Every operand's column, turned into one list of operand values per row. */
  method EvaluateAll(p: Primitives, es: seq<Expr>, f: Frame) returns (r: Res<seq<seq<Value>>>, ghost failed: nat)
    requires f.Valid()
    ensures r.Err? ==> failed < |es| && Column(p, es[failed], f).Err?
    ensures r.Ok? ==> |r.value| == f.n && forall i :: 0 <= i < f.n ==> EvalAll(p, es, f.Row(i)) == Ok(r.value[i])
    ensures r.Ok? && f.n == 0 ==> forall j :: 0 <= j < |es| ==> InScope(es[j], f.cols.Keys)
    decreases es, 3
  {
    hide Column, Eval, InScope, EvalAll;
    var columns: seq<seq<Value>> := [];
    failed := 0;
    for k := 0 to |es|
      invariant |columns| == k
      invariant forall j :: 0 <= j < k ==> Column(p, es[j], f) == Ok(columns[j]) && |columns[j]| == f.n
    {
      var column := Evaluate(p, es[k], f);
      if column.Err? {
        failed := k;
        return Err, failed;
      }
      ColumnOk(p, es[k], f);
      columns := columns + [column.value];
    }
    var rows := seq(f.n, i requires 0 <= i < f.n => seq(|es|, j requires 0 <= j < |es| => columns[j][i]));
    forall i | 0 <= i < f.n
      ensures EvalAll(p, es, f.Row(i)) == Ok(rows[i])
    {
      forall j | 0 <= j < |es|
        ensures Eval(p, es[j], f.Row(i)) == Ok(rows[i][j])
      {
        ColumnOk(p, es[j], f);
      }
      AllIs(p, es, f.Row(i), rows[i]);
    }
    forall j | 0 <= j < |es| && f.n == 0
      ensures InScope(es[j], f.cols.Keys)
    {
      ColumnOk(p, es[j], f);
    }
    r := Ok(rows);
  }

  lemma AllIs(p: Primitives, es: seq<Expr>, env: Env, vs: seq<Value>)
    requires |vs| == |es| && forall j :: 0 <= j < |es| ==> Eval(p, es[j], env) == Ok(vs[j])
    ensures EvalAll(p, es, env) == Ok(vs)
  {
    hide Eval, EvalAll;
    var r := EvalAll(p, es, env);
    assert r.Ok?;
    forall j | 0 <= j < |es|
      ensures r.value[j] == vs[j]
    {
      assert Eval(p, es[j], env) == Ok(r.value[j]);
    }
    assert r.value == vs;
  }

  function ApplyRows(p: Primitives, fn: string, args: seq<seq<Value>>): (r: Res<seq<Value>>)
    ensures r.Ok? ==> |r.value| == |args| && forall i :: 0 <= i < |args| ==> p(fn, args[i]) == Ok(r.value[i])
    ensures r.Err? ==> exists i :: 0 <= i < |args| && p(fn, args[i]).Err?
  {
    if args == [] then Ok([])
    else
      var k := |args| - 1;
      var vs :- ApplyRows(p, fn, args[..k]);
      var v :- p(fn, args[k]);
      Ok(vs + [v])
  }

  /** A list literal zips its element columns into one list per row. */
  method EvaluateListLiteral(p: Primitives, e: Expr, f: Frame) returns (r: Res<seq<Value>>)
    requires f.Valid() && e.ListLit?
    ensures r == Column(p, e, f)
    decreases e, 1
  {
    hide Column, EvalAll;
    var args, failed := EvaluateAll(p, e.elements, f);
    if args.Err? {
      OperandFails(p, e, e.elements[failed], f);
      return Err;
    }
    r := Ok(seq(f.n, i requires 0 <= i < f.n => List(args.value[i])));
    ColumnIs(p, e, f, r.value);
  }

  method EvaluateApply(p: Primitives, e: Expr, f: Frame) returns (r: Res<seq<Value>>)
    requires f.Valid() && e.Apply?
    ensures r == Column(p, e, f)
    decreases e, 1
  {
    hide Column, EvalAll;
    var args, failed := EvaluateAll(p, e.args, f);
    if args.Err? {
      OperandFails(p, e, e.args[failed], f);
      return Err;
    }
    r := ApplyRows(p, e.fn, args.value);
    if r.Err? {
      ghost var i :| 0 <= i < f.n && p(e.fn, args.value[i]).Err?;
      ColumnFails(p, e, f, i);
    } else {
      ColumnIs(p, e, f, r.value);
    }
  }

  /** evaluate_and, evaluate_or, evaluate_xor: a left fold of whole columns. */
  method EvaluateBoolChain(p: Primitives, e: Expr, f: Frame) returns (r: Res<seq<Value>>)
    requires f.Valid() && e.BoolChain?
    ensures r == Column(p, e, f)
    decreases e, 1
  {
    hide Column, EvalAll, KleeneFold;
    var op, es := e.bop, e.operands;
    if es == [] {
      r := Ok(Broadcast(Bool(op.AndOp?), f.n));
      assert forall env :: Eval(p, e, env) == Ok(Bool(op.AndOp?)) by { EmptyChain(p, e); }
      ColumnIs(p, e, f, r.value);
      return;
    }
    var first := Evaluate(p, es[0], f);
    if first.Err? {
      OperandFails(p, e, es[0], f);
      return Err;
    }
    var result := first.value;
    ColumnOk(p, es[0], f);
    FirstOperand(p, op, es, f, result);
    for k := 1 to |es|
      invariant ChainUpTo(p, op, es, k, f, result)
    {
      var operand := Evaluate(p, es[k], f);
      if operand.Err? {
        OperandFails(p, e, es[k], f);
        return Err;
      }
      ColumnOk(p, es[k], f);
      NextOperand(p, op, es, k, f, result, operand.value);
      result := KleeneColumns(op, result, operand.value);
    }
    assert es[..|es|] == es;
    ColumnIs(p, e, f, result);
    r := Ok(result);
  }

  ghost predicate ChainUpTo(p: Primitives, op: BoolOp, es: seq<Expr>, k: nat, f: Frame, result: seq<Value>)
    requires f.Valid() && k <= |es|
  {
    && |result| == f.n
    && (forall i :: 0 <= i < f.n ==> EvalAll(p, es[..k], f.Row(i)).Ok?
                                     && result[i] == KleeneFold(op, EvalAll(p, es[..k], f.Row(i)).value))
    && (f.n == 0 ==> forall j :: 0 <= j < k ==> InScope(es[j], f.cols.Keys))
  }

  lemma EmptyChain(p: Primitives, e: Expr)
    requires e.BoolChain? && e.operands == []
    ensures forall env :: Eval(p, e, env) == Ok(Bool(e.bop.AndOp?))
  {}

  lemma FirstOperand(p: Primitives, op: BoolOp, es: seq<Expr>, f: Frame, result: seq<Value>)
    requires f.Valid() && |es| > 0 && Column(p, es[0], f) == Ok(result)
    ensures ChainUpTo(p, op, es, 1, f, result)
  {
    hide Eval, InScope, Column, EvalAll;
    ColumnOk(p, es[0], f);
    forall i | 0 <= i < f.n
      ensures EvalAll(p, es[..1], f.Row(i)) == Ok([result[i]])
    {
      AllIs(p, es[..1], f.Row(i), [result[i]]);
    }
  }

  lemma NextOperand(p: Primitives, op: BoolOp, es: seq<Expr>, k: nat, f: Frame, result: seq<Value>, operand: seq<Value>)
    requires f.Valid() && 1 <= k < |es| && Column(p, es[k], f) == Ok(operand)
    requires |operand| == f.n
    requires ChainUpTo(p, op, es, k, f, result)
    ensures ChainUpTo(p, op, es, k + 1, f, KleeneColumns(op, result, operand))
  {
    hide Eval, InScope, Column;
    ColumnOk(p, es[k], f);
    assert es[..k + 1][..k] == es[..k] && es[..k + 1][k] == es[k];
    forall i | 0 <= i < f.n
      ensures EvalAll(p, es[..k + 1], f.Row(i)).Ok?
      ensures KleeneColumns(op, result, operand)[i] == KleeneFold(op, EvalAll(p, es[..k + 1], f.Row(i)).value)
    {
      var vs := EvalAll(p, es[..k], f.Row(i)).value;
      assert EvalAll(p, es[..k + 1], f.Row(i)) == Ok(vs + [operand[i]]);
      assert (vs + [operand[i]])[..k] == vs;
    }
  }

  // ---- Slicing and CASE ----

  method EvaluateOption(p: Primitives, o: Option<Expr>, f: Frame) returns (r: Res<seq<Value>>)
    requires f.Valid()
    ensures r.Err? ==> o.Some? && Column(p, o.value, f).Err?
    ensures r.Ok? ==> |r.value| == f.n && forall i :: 0 <= i < f.n ==> EvalOption(p, o, f.Row(i)) == Ok(r.value[i])
    ensures r.Ok? && f.n == 0 && o.Some? ==> InScope(o.value, f.cols.Keys)
    decreases o, 3
  {
    hide Column, Eval, InScope;
    match o
    case None =>
      r := Ok(Broadcast(Null, f.n));
    case Some(e) =>
      r := Evaluate(p, e, f);
      if r.Ok? {
        ColumnOk(p, e, f);
      }
  }

  function SliceColumn(coll: seq<Value>, from: seq<Value>, to: seq<Value>): (r: Res<seq<Value>>)
    requires |coll| == |from| == |to|
    ensures r.Ok? ==> |r.value| == |coll| && forall i :: 0 <= i < |coll| ==>
              SliceOne(coll[i], from[i], to[i]) == Ok(r.value[i])
    ensures r.Err? ==> exists i :: 0 <= i < |coll| && SliceOne(coll[i], from[i], to[i]).Err?
  {
    if coll == [] then Ok([])
    else
      var k := |coll| - 1;
      var vs :- SliceColumn(coll[..k], from[..k], to[..k]);
      var v :- SliceOne(coll[k], from[k], to[k]);
      Ok(vs + [v])
  }

  method EvaluateSlicing(p: Primitives, e: Expr, f: Frame) returns (r: Res<seq<Value>>)
    requires f.Valid() && e.Slicing?
    ensures r == Column(p, e, f)
    decreases e, 1
  {
    hide Column, SliceOne;
    var coll := Evaluate(p, e.coll, f);
    if coll.Err? {
      OperandFails(p, e, e.coll, f);
      return Err;
    }
    var from := EvaluateOption(p, e.from, f);
    if from.Err? {
      OperandFails(p, e, e.from.value, f);
      return Err;
    }
    var to := EvaluateOption(p, e.to, f);
    if to.Err? {
      OperandFails(p, e, e.to.value, f);
      return Err;
    }
    ColumnOk(p, e.coll, f);
    r := SliceColumn(coll.value, from.value, to.value);
    if r.Err? {
      ghost var i :| 0 <= i < f.n && SliceOne(coll.value[i], from.value[i], to.value[i]).Err?;
      assert Eval(p, e.coll, f.Row(i)) == Ok(coll.value[i]);
      ColumnFails(p, e, f, i);
    } else {
      ColumnIs(p, e, f, r.value);
    }
  }

  /** Where each row's WHEN condition holds. */
  function HitColumn(disc: Option<seq<Value>>, cond: seq<Value>): (r: Res<seq<bool>>)
    requires disc.Some? ==> |disc.value| == |cond|
    ensures r.Ok? ==> |r.value| == |cond| && forall i :: 0 <= i < |cond| ==>
              Matches(DiscAt(disc, i), cond[i]) == Ok(r.value[i])
    ensures r.Err? ==> exists i :: 0 <= i < |cond| && Matches(DiscAt(disc, i), cond[i]).Err?
    decreases cond
  {
    if cond == [] then Ok([])
    else
      var k := |cond| - 1;
      var vs :- HitColumn(if disc.Some? then Some(disc.value[..k]) else None, cond[..k]);
      var v :- Matches(DiscAt(disc, k), cond[k]);
      Ok(vs + [v])
  }

  function DiscAt(disc: Option<seq<Value>>, i: nat): Option<Value>
    requires disc.Some? ==> i < |disc.value|
  {
    if disc.Some? then Some(disc.value[i]) else None
  }

  function Where(then_: seq<Value>, cond: seq<bool>, result: seq<Value>): (r: seq<Value>)
    requires |then_| == |cond| == |result|
    ensures |r| == |then_| && forall i :: 0 <= i < |r| ==> r[i] == if cond[i] then then_[i] else result[i]
  {
    seq(|then_|, i requires 0 <= i < |then_| => if cond[i] then then_[i] else result[i])
  }

  /** The WHENs from k on have been applied, last first. */
  ghost predicate CaseFrom(p: Primitives, whens: seq<When>, k: nat, disc: Option<seq<Value>>, other: seq<Value>,
                           f: Frame, result: seq<Value>)
    requires f.Valid() && k <= |whens|
  {
    && |result| == f.n == |other| && (disc.Some? ==> |disc.value| == f.n)
    && (forall i :: 0 <= i < f.n ==> EvalWhens(p, whens[k..], DiscAt(disc, i), other[i], f.Row(i)) == Ok(result[i]))
    && (f.n == 0 ==> forall j :: k <= j < |whens| ==>
          InScope(whens[j].condition, f.cols.Keys) && InScope(whens[j].result, f.cols.Keys))
  }

  /** One failing WHEN fails the whole expression. */
  lemma {:induction false} WhensFail(p: Primitives, whens: seq<When>, k: nat, disc: Option<Value>, other: Value,
                                     env: Env)
    requires k < |whens| && EvalWhen(p, whens[k], disc, env).Err?
    ensures EvalWhens(p, whens, disc, other, env).Err?
  {
    hide EvalWhen;
    if k > 0 {
      WhensFail(p, whens[1..], k - 1, disc, other, env);
    }
  }

  /** ELSE and discriminant columns of a CASE expression. */
  ghost predicate CaseInputs(p: Primitives, e: Expr, disc: Option<seq<Value>>, other: seq<Value>, f: Frame)
    requires f.Valid()
  {
    && e.Case? && |other| == f.n
    && (disc.Some? <==> e.discriminant.Some?) && (disc.Some? ==> |disc.value| == f.n)
    && (forall i :: 0 <= i < f.n ==> EvalOption(p, e.otherwise, f.Row(i)) == Ok(other[i]))
    && (disc.Some? ==> forall i :: 0 <= i < f.n ==> EvalOption(p, e.discriminant, f.Row(i)) == Ok(disc.value[i]))
    && (f.n == 0 && e.otherwise.Some? ==> InScope(e.otherwise.value, f.cols.Keys))
    && (f.n == 0 && e.discriminant.Some? ==> InScope(e.discriminant.value, f.cols.Keys))
  }

  lemma CaseRow(p: Primitives, e: Expr, disc: Option<seq<Value>>, other: seq<Value>, f: Frame, i: nat)
    requires f.Valid() && CaseInputs(p, e, disc, other, f) && i < f.n
    ensures Eval(p, e, f.Row(i)) == EvalWhens(p, e.whens, DiscAt(disc, i), other[i], f.Row(i))
  {
    hide EvalWhens;
  }

  lemma CaseFails(p: Primitives, e: Expr, k: nat, disc: Option<seq<Value>>, other: seq<Value>, f: Frame, i: nat)
    requires f.Valid() && CaseInputs(p, e, disc, other, f) && i < f.n && k < |e.whens|
    requires EvalWhen(p, e.whens[k], DiscAt(disc, i), f.Row(i)).Err?
    ensures Column(p, e, f).Err?
  {
    hide EvalWhens, EvalOption, EvalWhen, Eval, Column;
    CaseRow(p, e, disc, other, f, i);
    WhensFail(p, e.whens, k, DiscAt(disc, i), other[i], f.Row(i));
    ColumnFails(p, e, f, i);
  }

  /** One WHEN over the whole frame: its result column and where it matches. */
  method EvaluateWhen(p: Primitives, e: Expr, k: nat, disc: Option<seq<Value>>, ghost other: seq<Value>, f: Frame)
    returns (then_: seq<Value>, hits: Res<seq<bool>>)
    requires f.Valid() && e.Case? && CaseInputs(p, e, disc, other, f) && k < |e.whens|
    ensures hits.Err? ==> Column(p, e, f).Err?
    ensures hits.Ok? ==> |then_| == f.n == |hits.value|
    ensures hits.Ok? ==> forall i :: 0 <= i < f.n ==>
                           EvalWhen(p, e.whens[k], DiscAt(disc, i), f.Row(i)) == Ok((hits.value[i], then_[i]))
    ensures hits.Ok? && f.n == 0 ==>
              InScope(e.whens[k].condition, f.cols.Keys) && InScope(e.whens[k].result, f.cols.Keys)
    decreases e.whens, 1
  {
    hide Column, EvalWhens, CaseInputs, Eval, InScope;
    then_, hits := [], Err;
    CaseShapes(p, e, disc, other, f);
    var clause := e.whens[k];
    var thenColumn := EvaluateClausePart(p, clause, clause.result, f);
    if thenColumn.Err? {
      ClauseFails(p, e, k, disc, other, clause.result, f);
      return;
    }
    var cond := EvaluateClausePart(p, clause, clause.condition, f);
    if cond.Err? {
      ClauseFails(p, e, k, disc, other, clause.condition, f);
      return;
    }
    ColumnOk(p, clause.result, f);
    ColumnOk(p, clause.condition, f);
    then_ := thenColumn.value;
    hits := HitColumn(disc, cond.value);
    if hits.Err? {
      ghost var i :| 0 <= i < f.n && Matches(DiscAt(disc, i), cond.value[i]).Err?;
      assert Eval(p, clause.condition, f.Row(i)) == Ok(cond.value[i]);
      CaseFails(p, e, k, disc, other, f, i);
    }
  }

  method EvaluateClausePart(p: Primitives, clause: When, part: Expr, f: Frame) returns (r: Res<seq<Value>>)
    requires f.Valid() && part < clause
    ensures r == Column(p, part, f)
    decreases clause, 0
  {
    r := Evaluate(p, part, f);
  }

  lemma CaseShapes(p: Primitives, e: Expr, disc: Option<seq<Value>>, other: seq<Value>, f: Frame)
    requires f.Valid() && CaseInputs(p, e, disc, other, f)
    ensures e.Case? && |other| == f.n && (disc.Some? ==> |disc.value| == f.n)
  {}

  lemma ClauseFails(p: Primitives, e: Expr, k: nat, disc: Option<seq<Value>>, other: seq<Value>, part: Expr, f: Frame)
    requires f.Valid() && e.Case? && CaseInputs(p, e, disc, other, f) && k < |e.whens|
    requires part == e.whens[k].result || part == e.whens[k].condition
    requires Column(p, part, f).Err?
    ensures Column(p, e, f).Err?
  {
    hide EvalWhens, Eval, Column, InScope, CaseInputs;
    CaseShapes(p, e, disc, other, f);
    var i := FailingRow(p, part, f);
    if f.n > 0 {
      CaseFails(p, e, k, disc, other, f, i);
    } else {
      CaseScope(p, e, k, f);
    }
  }

  lemma CaseScope(p: Primitives, e: Expr, k: nat, f: Frame)
    requires f.Valid() && e.Case? && k < |e.whens| && f.n == 0
    requires !InScope(e.whens[k].condition, f.cols.Keys) || !InScope(e.whens[k].result, f.cols.Keys)
    ensures Column(p, e, f).Err?
  {
    hide Eval;
  }

  lemma CaseStart(p: Primitives, e: Expr, disc: Option<seq<Value>>, other: seq<Value>, f: Frame)
    requires f.Valid() && CaseInputs(p, e, disc, other, f)
    ensures CaseFrom(p, e.whens, |e.whens|, disc, other, f, other)
  {
    hide Eval, InScope, EvalOption;
  }

  lemma CaseStep(p: Primitives, whens: seq<When>, k: nat, disc: Option<seq<Value>>, other: seq<Value>, f: Frame,
                 result: seq<Value>, then_: seq<Value>, hits: seq<bool>)
    requires f.Valid() && k < |whens| && CaseFrom(p, whens, k + 1, disc, other, f, result)
    requires |then_| == f.n == |hits|
    requires forall i :: 0 <= i < f.n ==> EvalWhen(p, whens[k], DiscAt(disc, i), f.Row(i)) == Ok((hits[i], then_[i]))
    requires f.n == 0 ==> InScope(whens[k].condition, f.cols.Keys) && InScope(whens[k].result, f.cols.Keys)
    ensures |result| == f.n && CaseFrom(p, whens, k, disc, other, f, Where(then_, hits, result))
  {
    hide Eval, InScope, EvalWhen;
    assert whens[k..][1..] == whens[k + 1..] && whens[k..][0] == whens[k];
    forall i | 0 <= i < f.n
      ensures EvalWhens(p, whens[k..], DiscAt(disc, i), other[i], f.Row(i)) == Ok(Where(then_, hits, result)[i])
    {
      assert EvalWhens(p, whens[k + 1..], DiscAt(disc, i), other[i], f.Row(i)) == Ok(result[i]);
    }
  }

  lemma CaseEnd(p: Primitives, e: Expr, disc: Option<seq<Value>>, other: seq<Value>, f: Frame, result: seq<Value>)
    requires f.Valid() && CaseInputs(p, e, disc, other, f)
    requires CaseFrom(p, e.whens, 0, disc, other, f, result)
    ensures Column(p, e, f) == Ok(result)
  {
    hide Eval, EvalWhens, EvalOption, Column;
    assert e.whens[0..] == e.whens;
    forall i | 0 <= i < f.n
      ensures Eval(p, e, f.Row(i)) == Ok(result[i])
    {
      CaseRow(p, e, disc, other, f, i);
    }
    ColumnIs(p, e, f, result);
  }

  method EvaluateCase(p: Primitives, e: Expr, f: Frame) returns (r: Res<seq<Value>>)
    requires f.Valid() && e.Case?
    ensures r == Column(p, e, f)
    decreases e, 1
  {
    hide Column, EvalWhens, EvalWhen, CaseFrom;
    var whens := e.whens;
    var other := EvaluateOption(p, e.otherwise, f);
    if other.Err? {
      OperandFails(p, e, e.otherwise.value, f);
      return Err;
    }
    var d := EvaluateOption(p, e.discriminant, f);
    if d.Err? {
      OperandFails(p, e, e.discriminant.value, f);
      return Err;
    }
    var disc := if e.discriminant.Some? then Some(d.value) else None;
    var result := other.value;
    CaseStart(p, e, disc, other.value, f);
    for k := |whens| downto 0
      invariant CaseFrom(p, whens, k, disc, other.value, f, result)
    {
      var then_, hits := EvaluateWhen(p, e, k, disc, other.value, f);
      if hits.Err? {
        return Err;
      }
      CaseStep(p, whens, k, disc, other.value, f, result, then_, hits.value);
      result := Where(then_, hits.value, result);
    }
    r := Ok(result);
    CaseEnd(p, e, disc, other.value, f, result);
  }

  // ---- Exploding rows of lists ----

  predicate IsNullRawList(v: Value) {
    v.Null? || (v.List? && v.items == [])
  }

  /** All (row index, element) pairs of a list column. */
  method Explode(column: seq<Value>)
    returns (ok: bool, rowIndices: seq<nat>, elements: seq<Value>, ghost lists: seq<seq<Value>>, ghost failed: nat)
    ensures !ok ==> failed < |column| && Items(column[failed]).Err?
    ensures ok ==> |lists| == |column| && forall i :: 0 <= i < |column| ==> Items(column[i]) == Ok(lists[i])
    ensures ok ==> elements == Flat(lists) && rowIndices == RowNumbers(lists)
    ensures ok <==> forall i :: 0 <= i < |column| ==> Items(column[i]).Ok?
    ensures ok ==> |rowIndices| == |elements| && forall i: nat :: i < |column| ==>
              Ok(Pick(rowIndices, elements, i)) == Items(column[i])
  {
    rowIndices, elements, lists, failed := [], [], [], 0;
    for rowIdx := 0 to |column|
      invariant |lists| == rowIdx && forall i :: 0 <= i < rowIdx ==> Items(column[i]) == Ok(lists[i])
      invariant elements == Flat(lists) && rowIndices == RowNumbers(lists)
    {
      ghost var before, beforeRows := elements, rowIndices;
      var items: seq<Value> := [];
      if !IsNullRawList(column[rowIdx]) {
        var r := Items(column[rowIdx]);
        if r.Err? {
          ok, failed := false, rowIdx;
          return;
        }
        items := r.value;
        for k := 0 to |items|
          invariant elements == before + items[..k] && rowIndices == beforeRows + Repeat(k, rowIdx)
        {
          rowIndices := rowIndices + [rowIdx];
          elements := elements + [items[k]];
          assert items[..k + 1] == items[..k] + [items[k]];
          assert Repeat(k + 1, rowIdx) == Repeat(k, rowIdx) + [rowIdx];
        }
        assert items[..|items|] == items;
      } else {
        assert Repeat(0, rowIdx) == [];
      }
      assert (lists + [items])[..rowIdx] == lists;
      lists := lists + [items];
    }
    ok := true;
    forall i: nat | i < |column|
      ensures Ok(Pick(rowIndices, elements, i)) == Items(column[i])
    {
      PickOfFlat(lists, i);
    }
  }

  /** The rows that exploding gives to each original row. */
  function Groups(envs: seq<Env>, name: string, lists: seq<seq<Value>>): (r: seq<seq<Env>>)
    requires |envs| == |lists|
    ensures SameShape(lists, r)
    ensures forall i :: 0 <= i < |lists| ==> r[i] == Bind(envs[i], name, lists[i])
  {
    seq(|lists|, i requires 0 <= i < |lists| => Bind(envs[i], name, lists[i]))
  }

  lemma {:induction false} FlatGroups(envs: seq<Env>, name: string, lists: seq<seq<Value>>)
    requires |envs| == |lists|
    ensures var g, rows, xs := Flat(Groups(envs, name, lists)), RowNumbers(lists), Flat(lists);
            |g| == |xs| && forall k :: 0 <= k < |g| ==> g[k] == envs[rows[k]][name := xs[k]]
  {
    if lists != [] {
      var n := |lists| - 1;
      FlatGroups(envs[..n], name, lists[..n]);
      assert Groups(envs, name, lists)[..n] == Groups(envs[..n], name, lists[..n]);
    }
  }

  /** One evaluation over the exploded frame is one evaluation per original row, concatenated. */
  lemma ExplodedColumn(p: Primitives, w: Expr, ff: Frame, groups: seq<seq<Env>>)
    requires ff.Valid() && ff.n > 0 && Rows(ff) == Flat(groups)
    ensures var r, vals := Column(p, w, ff), EachValues(p, w, groups);
            && (r.Err? ==> exists i :: 0 <= i < |groups| && EvalEach(p, w, groups[i]).Err?)
            && (r.Ok? ==> r.value == Flat(vals) && SameShape(groups, vals)
                          && forall i :: 0 <= i < |groups| ==> EvalEach(p, w, groups[i]) == Ok(vals[i]))
  {
    hide Eval, EvalEach;
    EachFlat(p, w, groups);
  }

  /** The flat frame of a comprehension: one column, no outer variables. */
  lemma FlatFrameRows(name: string, lists: seq<seq<Value>>)
    ensures var ff := Frame(map[name := Flat(lists)], |Flat(lists)|);
            ff.Valid() && Rows(ff) == Flat(Groups(seq(|lists|, i => map[]), name, lists))
  {
    var envs: seq<Env> := seq(|lists|, i => map[]);
    FlatGroups(envs, name, lists);
    var ff := Frame(map[name := Flat(lists)], |Flat(lists)|);
    forall k | 0 <= k < ff.n
      ensures Rows(ff)[k] == Flat(Groups(envs, name, lists))[k]
    {
      assert ff.Row(k) == map[name := Flat(lists)[k]];
    }
  }

  /** Phase 2: WHERE once over all elements, and the positions that survive. */
  method FilterFlat(p: Primitives, e: Expr, n: nat, rowIndices: seq<nat>, elements: seq<Value>,
                    ghost lists: seq<seq<Value>>)
    returns (ok: bool, rows: seq<nat>, survivors: seq<Value>, ghost kept: seq<seq<Value>>, ghost failed: nat)
    requires e.ListComp? && |lists| == n && elements == Flat(lists) && rowIndices == RowNumbers(lists) && elements != []
    ensures !ok ==> failed < n && Survivors(p, e, lists[failed]).Err?
    ensures ok ==> |kept| == n && forall i :: 0 <= i < n ==> Survivors(p, e, lists[i]) == Ok(kept[i])
    ensures ok ==> rows == RowNumbers(kept) && survivors == Flat(kept)
    ensures ok <==> forall i :: 0 <= i < n ==> Survivors(p, e, lists[i]).Ok?
    ensures ok ==> |rows| == |survivors| && forall i: nat :: i < n ==>
              Ok(Pick(rows, survivors, i)) == Survivors(p, e, lists[i])
    decreases e, 0
  {
    hide Column, Eval, EvalEach, Pick;
    rows, survivors, kept, failed, ok := rowIndices, elements, lists, 0, true;
    if e.where.Some? {
      var w := e.where.value;
      var flat := Frame(map[e.variable := elements], |elements|);
      ghost var groups := Groups(seq(n, i => map[]), e.variable, lists);
      FlatFrameRows(e.variable, lists);
      ExplodedColumn(p, w, flat, groups);
      var keep := Evaluate(p, w, flat);
      if keep.Err? {
        ok := false;
        failed :| 0 <= failed < n && EvalEach(p, w, groups[failed]).Err?;
        return;
      }
      ghost var keeps := EachValues(p, w, groups);
      SelectFlat(lists, keeps);
      rows, survivors := Select(rowIndices, keep.value), Select(elements, keep.value);
      kept := Selections(lists, keeps);
    }
    PickKept(p, e, lists, kept);
  }

  lemma PickKept(p: Primitives, e: Expr, lists: seq<seq<Value>>, kept: seq<seq<Value>>)
    requires e.ListComp? && |kept| == |lists|
    requires forall i :: 0 <= i < |lists| ==> Survivors(p, e, lists[i]) == Ok(kept[i])
    ensures forall i: nat :: i < |lists| ==> Ok(Pick(RowNumbers(kept), Flat(kept), i)) == Survivors(p, e, lists[i])
  {
    hide Survivors, Pick, RowNumbers, Flat;
    forall i: nat | i < |lists|
      ensures Ok(Pick(RowNumbers(kept), Flat(kept), i)) == Survivors(p, e, lists[i])
    {
      PickOfFlat(kept, i);
    }
  }

  /** Phase 3: the map expression once over the survivors. */
  method MapFlat(p: Primitives, e: Expr, n: nat, survivors: seq<Value>, ghost kept: seq<seq<Value>>)
    returns (ok: bool, mapped: seq<Value>, ghost outs: seq<seq<Value>>, ghost failed: nat)
    requires e.ListComp? && |kept| == n && survivors == Flat(kept)
    ensures !ok ==>
              failed < n && e.mapped.Some?
              && EvalEach(p, e.mapped.value, Bind(map[], e.variable, kept[failed])).Err?
    ensures ok ==> SameShape(kept, outs) && mapped == Flat(outs)
    ensures ok ==> forall i :: 0 <= i < n ==>
                     if e.mapped.Some?
                     then EvalEach(p, e.mapped.value, Bind(map[], e.variable, kept[i])) == Ok(outs[i])
                     else outs[i] == kept[i]
    ensures ok <==> forall i :: 0 <= i < n && e.mapped.Some? ==>
              EvalEach(p, e.mapped.value, Bind(map[], e.variable, kept[i])).Ok?
    ensures ok ==> |mapped| == |survivors|
    decreases e, 0
  {
    hide Column, Eval, EvalEach;
    mapped, outs, failed, ok := survivors, kept, 0, true;
    if e.mapped.Some? {
      var m := e.mapped.value;
      if survivors != [] {
        var flat := Frame(map[e.variable := survivors], |survivors|);
        ghost var groups := Groups(seq(n, i => map[]), e.variable, kept);
        FlatFrameRows(e.variable, kept);
        ExplodedColumn(p, m, flat, groups);
        var column := Evaluate(p, m, flat);
        if column.Err? {
          ok := false;
          failed :| 0 <= failed < n && EvalEach(p, m, groups[failed]).Err?;
          return;
        }
        mapped, outs := column.value, EachValues(p, m, groups);
        SameShapeFlat(kept, outs);
      } else {
        EmptyGroups(kept);
        EachNone(p, m);
      }
    }
  }

  lemma {:induction false} EmptyGroups<T>(groups: seq<seq<T>>)
    requires Flat(groups) == []
    ensures forall i :: 0 <= i < |groups| ==> groups[i] == []
  {
    if groups != [] {
      EmptyGroups(groups[..|groups| - 1]);
    }
  }

  method EvaluateListComprehension(p: Primitives, e: Expr, f: Frame) returns (r: Res<seq<Value>>)
    requires f.Valid() && e.ListComp?
    ensures r == Column(p, e, f)
    decreases e, 1
  {
    hide Column, EvalEach, Survivors, Comprehend, Pick, Flat, RowNumbers, Items;
    var listSeries := Evaluate(p, e.list, f);
    if listSeries.Err? {
      OperandFails(p, e, e.list, f);
      return Err;
    }
    ColumnOk(p, e.list, f);
    var nRows := f.n;
    var ok, rowIndices, elements, lists, failed := Explode(listSeries.value);
    if !ok {
      ColumnFails(p, e, f, failed);
      return Err;
    }
    if elements == [] {
      EmptyGroups(lists);
      NothingToComprehend(p, e);
      r := Ok(Broadcast(List([]), nRows));
      ColumnIs(p, e, f, r.value);
      return;
    }
    var rows, survivors;
    ghost var kept;
    ok, rows, survivors, kept, failed := FilterFlat(p, e, nRows, rowIndices, elements, lists);
    if !ok {
      ComprehendFails(p, e, lists[failed]);
      ColumnFails(p, e, f, failed);
      return Err;
    }
    var mapped;
    ghost var outs;
    ok, mapped, outs, failed := MapFlat(p, e, nRows, survivors, kept);
    if !ok {
      ComprehendMapFails(p, e, lists[failed], kept[failed]);
      ColumnFails(p, e, f, failed);
      return Err;
    }
    SameShapeFlat(kept, outs);
    var perRow := Regroup(nRows, rows, mapped, outs);
    forall i | 0 <= i < nRows
      ensures Comprehend(p, e, lists[i]) == Ok(outs[i])
    {
      ComprehendIs(p, e, lists[i], kept[i], outs[i]);
    }
    r := Ok(seq(nRows, i requires 0 <= i < nRows => List(perRow[i])));
    ColumnIs(p, e, f, r.value);
  }

  lemma NothingToComprehend(p: Primitives, e: Expr)
    requires e.ListComp?
    ensures Comprehend(p, e, []) == Ok([])
  {}

  lemma ComprehendFails(p: Primitives, e: Expr, xs: seq<Value>)
    requires e.ListComp? && Survivors(p, e, xs).Err?
    ensures Comprehend(p, e, xs).Err?
  {}

  lemma ComprehendMapFails(p: Primitives, e: Expr, xs: seq<Value>, kept: seq<Value>)
    requires e.ListComp? && Survivors(p, e, xs) == Ok(kept) && e.mapped.Some?
    requires EvalEach(p, e.mapped.value, Bind(map[], e.variable, kept)).Err?
    ensures Comprehend(p, e, xs).Err?
  {
    hide EvalEach, Survivors;
  }

  lemma ComprehendIs(p: Primitives, e: Expr, xs: seq<Value>, kept: seq<Value>, out: seq<Value>)
    requires e.ListComp? && Survivors(p, e, xs) == Ok(kept)
    requires if e.mapped.Some? then EvalEach(p, e.mapped.value, Bind(map[], e.variable, kept)) == Ok(out)
             else out == kept
    ensures Comprehend(p, e, xs) == Ok(out)
  {
    hide EvalEach, Survivors;
  }

  // ---- Quantifiers ----

  /** Rows picked by index, then the loop variable's column added or replaced. */
  function ExplodedFrame(f: Frame, rows: seq<nat>, name: string, elements: seq<Value>): (r: Frame)
    requires f.Valid() && |rows| == |elements| && forall k :: 0 <= k < |rows| ==> rows[k] < f.n
    ensures r.Valid() && r.n == |rows|
    ensures forall k :: 0 <= k < r.n ==> r.Row(k) == f.Row(rows[k])[name := elements[k]]
  {
    var picked := map c | c in f.cols :: seq(|rows|, k requires 0 <= k < |rows| => f.cols[c][rows[k]]);
    var r := Frame(picked[name := elements], |rows|);
    assert forall k :: 0 <= k < r.n ==> r.Row(k) == f.Row(rows[k])[name := elements[k]];
    r
  }

  /** The verdict on a null or empty list. */
  function EmptyVerdict(kind: QuantKind): (r: bool)
    ensures r == Verdict(kind, 0, 0)
  {
    match kind
    case Any => false
    case All => true
    case None_ => true
    case Single => false
    case Unknown => false
  }

  lemma QuantifierRow(p: Primitives, e: Expr, env: Env, v: Value, xs: seq<Value>, ks: seq<Value>)
    requires e.Quantifier? && Eval(p, e.list, env) == Ok(v) && Items(v) == Ok(xs)
    requires EvalEach(p, e.pred, Bind(env, e.variable, xs)) == Ok(ks)
    ensures Eval(p, e, env) == Ok(Bool(Verdict(e.kind, CountTrue(ks), |ks|)))
  {
    hide EvalEach;
  }

  lemma QuantifierRowFails(p: Primitives, e: Expr, env: Env, v: Value, xs: seq<Value>)
    requires e.Quantifier? && Eval(p, e.list, env) == Ok(v) && Items(v) == Ok(xs)
    requires EvalEach(p, e.pred, Bind(env, e.variable, xs)).Err?
    ensures Eval(p, e, env).Err?
  {
    hide EvalEach;
  }

  /** The predicate once over the exploded frame, its results regrouped by row. */
  method MatchesPerRow(p: Primitives, e: Expr, f: Frame, rowIndices: seq<nat>, elements: seq<Value>,
                       ghost lists: seq<seq<Value>>)
    returns (ok: bool, rowMatches: seq<seq<Value>>, ghost failed: nat)
    requires f.Valid() && e.Quantifier? && |lists| == f.n
    requires elements == Flat(lists) && rowIndices == RowNumbers(lists)
    ensures !ok ==> failed < f.n && EvalEach(p, e.pred, Bind(f.Row(failed), e.variable, lists[failed])).Err?
    ensures ok ==> SameShape(lists, rowMatches)
    ensures ok ==> forall i :: 0 <= i < f.n ==>
                     EvalEach(p, e.pred, Bind(f.Row(i), e.variable, lists[i])) == Ok(rowMatches[i])
    decreases e, 0
  {
    hide Column, Eval, EvalEach;
    ok, failed := true, 0;
    ghost var groups := Groups(Rows(f), e.variable, lists);
    FlatGroups(Rows(f), e.variable, lists);
    SameShapeFlat(lists, groups);
    if elements == [] {
      EmptyGroups(lists);
      EachNone(p, e.pred);
      rowMatches := seq(f.n, i => []);
      return;
    }
    var exploded := ExplodedFrame(f, rowIndices, e.variable, elements);
    assert Rows(exploded) == Flat(groups);
    ExplodedColumn(p, e.pred, exploded, groups);
    var where_ := Evaluate(p, e.pred, exploded);
    if where_.Err? {
      ok, rowMatches := false, [];
      failed :| 0 <= failed < f.n && EvalEach(p, e.pred, groups[failed]).Err?;
      return;
    }
    ghost var vals := EachValues(p, e.pred, groups);
    SameShapeFlat(groups, vals);
    rowMatches := Regroup(f.n, rowIndices, where_.value, vals);
  }

  /** Phases 2 to 4: null and empty lists first, then the counted rows, then the defaults. */
  method Verdicts(kind: QuantKind, column: seq<Value>, rowMatches: seq<seq<Value>>) returns (results: seq<Value>)
    requires |column| == |rowMatches|
    requires forall i :: 0 <= i < |column| && IsNullRawList(column[i]) ==> rowMatches[i] == []
    ensures |results| == |column|
    ensures forall i :: 0 <= i < |column| ==>
              results[i] == Bool(Verdict(kind, CountTrue(rowMatches[i]), |rowMatches[i]|))
  {
    hide Verdict;
    results := [];
    for i := 0 to |column|
      invariant |results| == i
      invariant forall j :: 0 <= j < i ==> results[j] == Bool(Verdict(kind, CountTrue(rowMatches[j]), |rowMatches[j]|))
    {
      var result: Option<bool> := if IsNullRawList(column[i]) then Some(EmptyVerdict(kind)) else None;
      if rowMatches[i] != [] {
        result := Some(Verdict(kind, CountTrue(rowMatches[i]), |rowMatches[i]|));
      }
      if result.None? {
        result := Some(EmptyVerdict(kind));
      }
      results := results + [Bool(result.value)];
    }
  }

  method EvaluateQuantifier(p: Primitives, e: Expr, f: Frame) returns (r: Res<seq<Value>>)
    requires f.Valid() && e.Quantifier?
    ensures r == Column(p, e, f)
    decreases e, 1
  {
    hide Column, EvalEach, Eval, Verdict, Pick, Flat, RowNumbers;
    var listValues := Evaluate(p, e.list, f);
    if listValues.Err? {
      QuantifierStrict(p, e);
      OperandFails(p, e, e.list, f);
      return Err;
    }
    ColumnOk(p, e.list, f);
    var ok, rowIndices, elements, lists, failed := Explode(listValues.value);
    if !ok {
      QuantifierBadList(p, e, f.Row(failed));
      ColumnFails(p, e, f, failed);
      return Err;
    }
    var rowMatches;
    ok, rowMatches, failed := MatchesPerRow(p, e, f, rowIndices, elements, lists);
    if !ok {
      QuantifierRowFails(p, e, f.Row(failed), listValues.value[failed], lists[failed]);
      ColumnFails(p, e, f, failed);
      return Err;
    }
    var results := Verdicts(e.kind, listValues.value, rowMatches);
    forall i | 0 <= i < f.n
      ensures Eval(p, e, f.Row(i)) == Ok(results[i])
    {
      QuantifierRow(p, e, f.Row(i), listValues.value[i], lists[i], rowMatches[i]);
    }
    ColumnIs(p, e, f, results);
    r := Ok(results);
  }

  lemma QuantifierStrict(p: Primitives, e: Expr)
    requires e.Quantifier?
    ensures forall env :: Eval(p, e.list, env).Err? ==> Eval(p, e, env).Err?
    ensures forall names :: InScope(e, names) ==> InScope(e.list, names)
  {}

  lemma QuantifierBadList(p: Primitives, e: Expr, env: Env)
    requires e.Quantifier? && Eval(p, e.list, env).Ok? && Items(Eval(p, e.list, env).value).Err?
    ensures Eval(p, e, env).Err?
  {}

  // ---- REDUCE ----

  /** The list each row folds over: null counts as empty. */
  method ListsOf(column: seq<Value>) returns (ok: bool, lists: seq<seq<Value>>, ghost failed: nat)
    ensures !ok ==> failed < |column| && Items(column[failed]).Err?
    ensures ok ==> |lists| == |column| && forall i :: 0 <= i < |column| ==> Items(column[i]) == Ok(lists[i])
  {
    lists, failed := [], 0;
    for i := 0 to |column|
      invariant |lists| == i && forall j :: 0 <= j < i ==> Items(column[j]) == Ok(lists[j])
    {
      if IsNullRawList(column[i]) {
        lists := lists + [[]];
      } else {
        var items := Items(column[i]);
        if items.Err? {
          ok, failed := false, i;
          return;
        }
        lists := lists + [items.value];
      }
    }
    ok := true;
  }

  /** The indices of the rows that still have an element at this step, in order. */
  function Active(lists: seq<seq<Value>>, step: nat, n: nat): (r: seq<nat>)
    requires n <= |lists|
    ensures forall j :: 0 <= j < |r| ==> r[j] < n && step < |lists[r[j]]|
    ensures forall i :: 0 <= i < n && step < |lists[i]| ==> i in r
    ensures forall j, k :: 0 <= j < k < |r| ==> r[j] < r[k]
  {
    if n == 0 then []
    else Active(lists, step, n - 1) + (if step < |lists[n - 1]| then [n - 1] else [])
  }

  function Longest(lists: seq<seq<Value>>): (r: nat)
    ensures forall i :: 0 <= i < |lists| ==> |lists[i]| <= r
    ensures r > 0 ==> exists i :: 0 <= i < |lists| && |lists[i]| == r
  {
    if lists == [] then 0
    else
      var rest, last := Longest(lists[..|lists| - 1]), |lists[|lists| - 1]|;
      if last > rest then last else rest
  }

  /** One step's frame: accumulator, loop variable, and the outer columns they do not hide. */
  function StepFrame(e: Expr, f: Frame, active: seq<nat>, accs: seq<Value>, elements: seq<Value>): (r: Frame)
    requires f.Valid() && e.Reduce? && |active| == |accs| == |elements|
    requires forall j :: 0 <= j < |active| ==> active[j] < f.n
    ensures r.Valid() && r.n == |active|
  {
    var step := map[e.accumulator := accs][e.variable := elements];
    var outer := map c | c in f.cols && c !in step ::
      seq(|active|, j requires 0 <= j < |active| => f.cols[c][active[j]]);
    Frame(outer + step, |active|)
  }

  lemma StepRow(e: Expr, f: Frame, active: seq<nat>, accs: seq<Value>, elements: seq<Value>, j: nat)
    requires f.Valid() && e.Reduce? && |active| == |accs| == |elements|
    requires forall k :: 0 <= k < |active| ==> active[k] < f.n
    requires j < |active|
    ensures StepFrame(e, f, active, accs, elements).Row(j) ==
            f.Row(active[j])[e.accumulator := accs[j]][e.variable := elements[j]]
  {
    var got := StepFrame(e, f, active, accs, elements).Row(j);
    var want := f.Row(active[j])[e.accumulator := accs[j]][e.variable := elements[j]];
    assert got.Keys == want.Keys;
    forall c | c in want
      ensures got[c] == want[c]
    {}
  }

  function Prefix(xs: seq<Value>, k: nat): seq<Value> {
    if k <= |xs| then xs[..k] else xs
  }

  /** After `step` steps every row has folded that much of its own list. */
  ghost predicate FoldedTo(p: Primitives, e: Expr, f: Frame, lists: seq<seq<Value>>, inits: seq<Value>, step: nat,
                           accs: seq<Value>)
    requires f.Valid() && e.Reduce?
  {
    && |lists| == |inits| == |accs| == f.n
    && forall i :: 0 <= i < f.n ==> Fold(p, e, Prefix(lists[i], step), inits[i], f.Row(i)) == Ok(accs[i])
  }

  method EvaluateReduce(p: Primitives, e: Expr, f: Frame) returns (r: Res<seq<Value>>)
    requires f.Valid() && e.Reduce?
    ensures r == Column(p, e, f)
    decreases e, 1
  {
    hide Column, Fold, Eval, FoldedTo;
    ReduceStrict(p, e);
    var listValues := Evaluate(p, e.list, f);
    if listValues.Err? {
      OperandFails(p, e, e.list, f);
      return Err;
    }
    var initial := Evaluate(p, e.initial, f);
    if initial.Err? {
      OperandFails(p, e, e.initial, f);
      return Err;
    }
    ColumnOk(p, e.list, f);
    ColumnOk(p, e.initial, f);
    var ok, lists, failed := ListsOf(listValues.value);
    if !ok {
      ReduceBadList(p, e, f.Row(failed));
      ColumnFails(p, e, f, failed);
      return Err;
    }
    var accumulators := initial.value;
    FoldStart(p, e, f, lists, accumulators);
    var maxLen := Longest(lists);
    for step := 0 to maxLen
      invariant |accumulators| == f.n
      invariant FoldedTo(p, e, f, lists, initial.value, step, accumulators)
    {
      ok, accumulators, failed := ReduceStep(p, e, f, lists, initial.value, step, accumulators);
      if !ok {
        FoldFails(p, e, lists[failed], initial.value[failed], f.Row(failed), step + 1);
        ReduceRow(p, e, f.Row(failed), listValues.value[failed], lists[failed], initial.value[failed]);
        ColumnFails(p, e, f, failed);
        return Err;
      }
    }
    r := Ok(accumulators);
    forall i | 0 <= i < f.n
      ensures Eval(p, e, f.Row(i)) == Ok(accumulators[i])
    {
      FoldEnd(p, e, f, lists, initial.value, maxLen, accumulators, i);
      ReduceRow(p, e, f.Row(i), listValues.value[i], lists[i], initial.value[i]);
    }
    ColumnIs(p, e, f, accumulators);
  }

  /** `accumulators[row_idx] = new_accs[j]` for every active row. */
  method Scatter(accs: seq<Value>, active: seq<nat>, newAccs: seq<Value>) returns (r: seq<Value>)
    requires |active| == |newAccs| && forall j :: 0 <= j < |active| ==> active[j] < |accs|
    requires forall j, k :: 0 <= j < k < |active| ==> active[j] < active[k]
    ensures |r| == |accs|
    ensures forall i :: 0 <= i < |accs| && i !in active ==> r[i] == accs[i]
    ensures forall k :: 0 <= k < |active| ==> r[active[k]] == newAccs[k]
  {
    r := accs;
    for j := 0 to |active|
      invariant |r| == |accs|
      invariant forall i :: 0 <= i < |accs| && i !in active[..j] ==> r[i] == accs[i]
      invariant forall k :: 0 <= k < j ==> r[active[k]] == newAccs[k]
    {
      r := r[active[j] := newAccs[j]];
      assert active[..j + 1] == active[..j] + [active[j]];
    }
    assert active[..|active|] == active;
  }

  /** The body once for all rows that are still active. */
  method ReduceStep(p: Primitives, e: Expr, f: Frame, lists: seq<seq<Value>>, ghost inits: seq<Value>, step: nat,
                    accs: seq<Value>)
    returns (ok: bool, accs': seq<Value>, ghost failed: nat)
    requires f.Valid() && e.Reduce? && FoldedTo(p, e, f, lists, inits, step, accs)
             && |lists| == |accs| == f.n == |inits|
    requires exists i :: 0 <= i < f.n && step < |lists[i]|
    ensures |accs'| == f.n
    ensures !ok ==> failed < f.n && Fold(p, e, Prefix(lists[failed], step + 1), inits[failed], f.Row(failed)).Err?
    ensures ok ==> FoldedTo(p, e, f, lists, inits, step + 1, accs')
    decreases e, 0
  {
    hide Column, Fold, Eval, FoldedTo, StepFrame, Active, Prefix;
    ok, accs', failed := true, accs, 0;
    var active := Active(lists, step, f.n);
    var elements := seq(|active|, j requires 0 <= j < |active| => lists[active[j]][step]);
    var current := seq(|active|, j requires 0 <= j < |active| => accs[active[j]]);
    var stepFrame := StepFrame(e, f, active, current, elements);
    var newAccs := Evaluate(p, e.body, stepFrame);
    if newAccs.Err? {
      ghost var j := FailingRow(p, e.body, stepFrame);
      ok, failed := false, active[j];
      StepRow(e, f, active, current, elements, j);
      FoldStep(p, e, f, lists, inits, step, accs, failed);
      return;
    }
    ColumnOk(p, e.body, stepFrame);
    accs' := Scatter(accs, active, newAccs.value);
    StepKeepsFold(p, e, f, lists, inits, step, accs, active, current, elements, newAccs.value, accs');
  }

  lemma StepKeepsFold(p: Primitives, e: Expr, f: Frame, lists: seq<seq<Value>>, inits: seq<Value>, step: nat,
                      accs: seq<Value>, active: seq<nat>, current: seq<Value>, elements: seq<Value>,
                      newAccs: seq<Value>, accs': seq<Value>)
    requires f.Valid() && e.Reduce? && FoldedTo(p, e, f, lists, inits, step, accs)
    requires |lists| == |accs| == f.n == |inits| == |accs'|
    requires active == Active(lists, step, f.n) && |active| == |current| == |elements| == |newAccs|
    requires forall j :: 0 <= j < |active| ==> current[j] == accs[active[j]] && elements[j] == lists[active[j]][step]
    requires var sf := StepFrame(e, f, active, current, elements);
             forall j :: 0 <= j < |active| ==> Eval(p, e.body, sf.Row(j)) == Ok(newAccs[j])
    requires forall i :: 0 <= i < f.n && i !in active ==> accs'[i] == accs[i]
    requires forall k :: 0 <= k < |active| ==> accs'[active[k]] == newAccs[k]
    ensures FoldedTo(p, e, f, lists, inits, step + 1, accs')
  {
    hide Column, Fold, Eval, FoldedTo, StepFrame, Active, Prefix;
    forall i | 0 <= i < f.n
      ensures Fold(p, e, Prefix(lists[i], step + 1), inits[i], f.Row(i)) == Ok(accs'[i])
    {
      FoldStep(p, e, f, lists, inits, step, accs, i);
      if step < |lists[i]| {
        var k :| 0 <= k < |active| && active[k] == i;
        StepRow(e, f, active, current, elements, k);
      } else {
        assert i !in active;
      }
    }
    MakeFolded(p, e, f, lists, inits, step + 1, accs');
  }

  lemma MakeFolded(p: Primitives, e: Expr, f: Frame, lists: seq<seq<Value>>, inits: seq<Value>, step: nat,
                   accs: seq<Value>)
    requires f.Valid() && e.Reduce? && |lists| == |inits| == |accs| == f.n
    requires forall i :: 0 <= i < f.n ==> Fold(p, e, Prefix(lists[i], step), inits[i], f.Row(i)) == Ok(accs[i])
    ensures FoldedTo(p, e, f, lists, inits, step, accs)
  {}

  lemma FoldStart(p: Primitives, e: Expr, f: Frame, lists: seq<seq<Value>>, inits: seq<Value>)
    requires f.Valid() && e.Reduce? && |lists| == |inits| == f.n
    ensures FoldedTo(p, e, f, lists, inits, 0, inits)
  {
    hide Eval;
  }

  /** One more element for row i: the body on that row's own accumulator and element, or nothing. */
  lemma FoldStep(p: Primitives, e: Expr, f: Frame, lists: seq<seq<Value>>, inits: seq<Value>, step: nat,
                 accs: seq<Value>, i: nat)
    requires f.Valid() && e.Reduce? && FoldedTo(p, e, f, lists, inits, step, accs) && i < f.n
    requires |lists| == |inits| == |accs| == f.n
    ensures Fold(p, e, Prefix(lists[i], step + 1), inits[i], f.Row(i)) ==
            if step < |lists[i]| then
              Eval(p, e.body, f.Row(i)[e.accumulator := accs[i]][e.variable := lists[i][step]])
            else Ok(accs[i])
  {
    hide Eval;
    var xs := lists[i];
    if step < |xs| {
      assert xs[..step + 1][..step] == xs[..step];
      assert Fold(p, e, xs[..step], inits[i], f.Row(i)) == Ok(accs[i]);
    } else {
      assert Prefix(xs, step + 1) == Prefix(xs, step);
    }
  }

  lemma FoldEnd(p: Primitives, e: Expr, f: Frame, lists: seq<seq<Value>>, inits: seq<Value>, step: nat,
                accs: seq<Value>, i: nat)
    requires f.Valid() && e.Reduce? && FoldedTo(p, e, f, lists, inits, step, accs) && i < f.n
    requires |lists| == |inits| == |accs| == f.n && |lists[i]| <= step
    ensures Fold(p, e, lists[i], inits[i], f.Row(i)) == Ok(accs[i])
  {
    hide Eval, Fold;
    assert Prefix(lists[i], step) == lists[i];
  }

  /** A fold that fails on a prefix fails on the whole list. */
  lemma {:induction false} FoldFails(p: Primitives, e: Expr, xs: seq<Value>, init: Value, env: Env, k: nat)
    requires e.Reduce? && Fold(p, e, Prefix(xs, k), init, env).Err?
    ensures Fold(p, e, xs, init, env).Err?
    decreases |xs|
  {
    hide Eval;
    if k < |xs| {
      var ys := xs[..|xs| - 1];
      assert Prefix(ys, k) == Prefix(xs, k);
      FoldFails(p, e, ys, init, env, k);
    } else {
      assert Prefix(xs, k) == xs;
    }
  }

  lemma ReduceRow(p: Primitives, e: Expr, env: Env, v: Value, xs: seq<Value>, init: Value)
    requires e.Reduce? && Eval(p, e.list, env) == Ok(v) && Items(v) == Ok(xs) && Eval(p, e.initial, env) == Ok(init)
    ensures Eval(p, e, env) == Fold(p, e, xs, init, env)
  {
    hide Fold;
  }

  lemma ReduceStrict(p: Primitives, e: Expr)
    requires e.Reduce?
    ensures forall env :: Eval(p, e.list, env).Err? || Eval(p, e.initial, env).Err? ==> Eval(p, e, env).Err?
    ensures forall names :: InScope(e, names) ==> InScope(e.list, names) && InScope(e.initial, names)
  {}

  lemma ReduceBadList(p: Primitives, e: Expr, env: Env)
    requires e.Reduce? && Eval(p, e.list, env).Ok? && Items(Eval(p, e.list, env).value).Err?
    ensures Eval(p, e, env).Err?
  {}
}
