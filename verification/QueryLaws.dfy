/** What the row interpreter's answers mean, and laws of column evaluation. */
module QueryLaws {
  import opened Values
  import opened RowSemantics
  import opened ColumnSpec
  import opened Exploding

  // ---- Kleene chains ----

  predicate IsFalse(v: Value) {
    !v.Null? && !Truthy(v)
  }

  /** AND of two or more operands: false beats null, null beats true, whatever the order. */
  lemma {:induction false} AndMeaning(vs: seq<Value>)
    requires |vs| >= 2
    ensures KleeneFold(AndOp, vs) ==
            if exists i :: 0 <= i < |vs| && IsFalse(vs[i]) then Bool(false)
            else if exists i :: 0 <= i < |vs| && vs[i].Null? then Null
            else Bool(true)
  {
    var n := |vs| - 1;
    var init := vs[..n];
    assert forall i :: 0 <= i < n ==> init[i] == vs[i];
    if n == 1 {
      assert KleeneFold(AndOp, init) == vs[0];
    } else {
      AndMeaning(init);
    }
    assert KleeneFold(AndOp, vs) == KAnd(KleeneFold(AndOp, init), vs[n]);
  }

  lemma {:induction false} OrMeaning(vs: seq<Value>)
    requires |vs| >= 2
    ensures KleeneFold(OrOp, vs) ==
            if exists i :: 0 <= i < |vs| && Truthy(vs[i]) then Bool(true)
            else if exists i :: 0 <= i < |vs| && vs[i].Null? then Null
            else Bool(false)
  {
    var n := |vs| - 1;
    var init := vs[..n];
    assert forall i :: 0 <= i < n ==> init[i] == vs[i];
    if n == 1 {
      assert KleeneFold(OrOp, init) == vs[0];
    } else {
      OrMeaning(init);
    }
    assert KleeneFold(OrOp, vs) == KOr(KleeneFold(OrOp, init), vs[n]);
  }

  /** XOR: one null makes the chain null, otherwise the parity of the true operands decides. */
  lemma {:induction false} XorMeaning(vs: seq<Value>)
    requires |vs| >= 2
    ensures KleeneFold(XorOp, vs) ==
            if exists i :: 0 <= i < |vs| && vs[i].Null? then Null else Bool(CountTrue(vs) % 2 == 1)
  {
    var n := |vs| - 1;
    var init := vs[..n];
    assert forall i :: 0 <= i < n ==> init[i] == vs[i];
    if n == 1 {
      assert KleeneFold(XorOp, init) == vs[0];
      assert init[..0] == [];
      assert CountTrue(init) == if Truthy(vs[0]) then 1 else 0;
    } else {
      XorMeaning(init);
    }
    assert KleeneFold(XorOp, vs) == KXor(KleeneFold(XorOp, init), vs[n]);
  }

  function NegateAll(vs: seq<Value>): (r: seq<Value>)
    ensures |r| == |vs| && forall i :: 0 <= i < |vs| ==> r[i] == KNot(vs[i])
  {
    seq(|vs|, i requires 0 <= i < |vs| => KNot(vs[i]))
  }

  /** De Morgan over a whole chain of any length. */
  lemma DeMorgan(vs: seq<Value>)
    ensures KNot(KleeneFold(AndOp, vs)) == KNot(KNot(KleeneFold(OrOp, NegateAll(vs))))
  {
    var ns := NegateAll(vs);
    if |vs| >= 2 {
      AndMeaning(vs);
      OrMeaning(ns);
      if i :| 0 <= i < |vs| && IsFalse(vs[i]) {
        assert Truthy(ns[i]);
      } else if i :| 0 <= i < |vs| && vs[i].Null? {
        assert ns[i].Null?;
      }
    }
  }

  // ---- CASE ----

  /** The first matching WHEN decides; with none, the ELSE value. */
  lemma {:induction false} FirstMatchWins(p: Primitives, whens: seq<When>, disc: Option<Value>, other: Value, env: Env,
                                          hits: seq<bool>, thens: seq<Value>, k: nat)
    requires |hits| == |thens| == |whens| && k <= |whens|
    requires forall i :: 0 <= i < |whens| ==> EvalWhen(p, whens[i], disc, env) == Ok((hits[i], thens[i]))
    requires forall i :: 0 <= i < k ==> !hits[i]
    requires k < |whens| ==> hits[k]
    ensures EvalWhens(p, whens, disc, other, env) == Ok(if k < |whens| then thens[k] else other)
  {
    hide EvalWhen;
    if whens != [] {
      if k > 0 {
        FirstMatchWins(p, whens[1..], disc, other, env, hits[1..], thens[1..], k - 1);
      } else {
        AllWhensOk(p, whens[1..], disc, other, env, hits[1..], thens[1..]);
      }
    }
  }

  lemma {:induction false} AllWhensOk(p: Primitives, whens: seq<When>, disc: Option<Value>, other: Value, env: Env,
                                      hits: seq<bool>, thens: seq<Value>)
    requires |hits| == |thens| == |whens|
    requires forall i :: 0 <= i < |whens| ==> EvalWhen(p, whens[i], disc, env) == Ok((hits[i], thens[i]))
    ensures EvalWhens(p, whens, disc, other, env).Ok?
  {
    hide EvalWhen;
    if whens != [] {
      AllWhensOk(p, whens[1..], disc, other, env, hits[1..], thens[1..]);
    }
  }

  // ---- Quantifier verdicts ----

  /** Entry i is true and no other is. */
  ghost predicate OnlyTrueAt(ks: seq<Value>, i: nat) {
    i < |ks| && Truthy(ks[i]) && forall j :: 0 <= j < |ks| && j != i ==> !Truthy(ks[j])
  }

  lemma {:induction false} CountTrueExtremes(ks: seq<Value>)
    ensures CountTrue(ks) == 0 <==> forall i :: 0 <= i < |ks| ==> !Truthy(ks[i])
    ensures CountTrue(ks) == |ks| <==> forall i :: 0 <= i < |ks| ==> Truthy(ks[i])
  {
    if ks != [] {
      var init := ks[..|ks| - 1];
      CountTrueExtremes(init);
      assert forall i :: 0 <= i < |ks| - 1 ==> init[i] == ks[i];
    }
  }

  lemma {:induction false} CountTrueOnce(ks: seq<Value>)
    ensures CountTrue(ks) == 1 <==> exists i: nat :: OnlyTrueAt(ks, i)
  {
    if ks != [] {
      var n := |ks| - 1;
      var init := ks[..n];
      assert forall i :: 0 <= i < n ==> init[i] == ks[i];
      CountTrueExtremes(init);
      CountTrueOnce(init);
      if CountTrue(ks) == 1 {
        if Truthy(ks[n]) {
          assert OnlyTrueAt(ks, n);
        } else {
          var i: nat :| OnlyTrueAt(init, i);
          assert OnlyTrueAt(ks, i);
        }
      } else if i: nat :| OnlyTrueAt(ks, i) {
        if i < n {
          assert OnlyTrueAt(init, i);
        }
        assert false;
      }
    }
  }

  /** ANY, ALL, NONE and SINGLE say what they are called; a null predicate is a non-match. */
  lemma VerdictMeaning(ks: seq<Value>)
    ensures Verdict(Any, CountTrue(ks), |ks|) <==> exists i :: 0 <= i < |ks| && Truthy(ks[i])
    ensures Verdict(All, CountTrue(ks), |ks|) <==> forall i :: 0 <= i < |ks| ==> Truthy(ks[i])
    ensures Verdict(None_, CountTrue(ks), |ks|) <==> forall i :: 0 <= i < |ks| ==> !Truthy(ks[i])
    ensures Verdict(Single, CountTrue(ks), |ks|) <==> exists i: nat :: OnlyTrueAt(ks, i)
  {
    hide OnlyTrueAt, CountTrue;
    CountTrueExtremes(ks);
    CountTrueOnce(ks);
  }

  // ---- Filtering ----

  /** Positions of the true mask entries. */
  function TruePositions(mask: seq<Value>): (r: seq<nat>)
    ensures forall k :: 0 <= k < |r| ==> r[k] < |mask| && Truthy(mask[r[k]])
    ensures forall j, k :: 0 <= j < k < |r| ==> r[j] < r[k]
    ensures forall i :: 0 <= i < |mask| && Truthy(mask[i]) ==> i in r
  {
    if mask == [] then []
    else TruePositions(mask[..|mask| - 1]) + (if Truthy(mask[|mask| - 1]) then [|mask| - 1] else [])
  }

  /** Selection keeps exactly the true positions, in order. */
  lemma {:induction false} SelectAt<T>(xs: seq<T>, mask: seq<Value>)
    requires |xs| == |mask|
    ensures |Select(xs, mask)| == |TruePositions(mask)| == CountTrue(mask)
    ensures forall k :: 0 <= k < |Select(xs, mask)| ==> Select(xs, mask)[k] == xs[TruePositions(mask)[k]]
  {
    if xs != [] {
      SelectAt(xs[..|xs| - 1], mask[..|xs| - 1]);
    }
  }

  /** BindingFrame.filter. */
  function Filter(f: Frame, mask: seq<Value>): (r: Frame)
    requires f.Valid() && |mask| == f.n
  {
    Frame(map c | c in f.cols :: Select(f.cols[c], mask), CountTrue(mask))
  }

  lemma FilterRows(f: Frame, mask: seq<Value>)
    requires f.Valid() && |mask| == f.n
    ensures Filter(f, mask).Valid() && Filter(f, mask).n == |TruePositions(mask)|
    ensures forall k :: 0 <= k < Filter(f, mask).n ==> Filter(f, mask).Row(k) == f.Row(TruePositions(mask)[k])
  {
    var r := Filter(f, mask);
    SelectAt(mask, mask);
    forall c | c in f.cols
      ensures |r.cols[c]| == r.n
      ensures forall k :: 0 <= k < r.n ==> r.cols[c][k] == f.cols[c][TruePositions(mask)[k]]
    {
      SelectAt(f.cols[c], mask);
    }
    forall k | 0 <= k < r.n
      ensures r.Row(k) == f.Row(TruePositions(mask)[k])
    {
      var want := f.Row(TruePositions(mask)[k]);
      assert r.Row(k).Keys == want.Keys;
    }
  }

  /** A row that evaluates has all the names that are looked up without rows. */
  lemma {:induction false} OkInScope(p: Primitives, e: Expr, env: Env)
    requires Eval(p, e, env).Ok?
    ensures InScope(e, env.Keys)
    decreases e, 1
  {
    hide Compare, IndexOne, SliceOne, Comprehend, Fold, EvalEach, EvalWhens, KleeneFold, Items, Verdict;
    match e
    case Var(name) =>
    case Lit(_) =>
    case ListLit(es) => AllOkInScope(p, es, env);
    case Apply(_, es) => AllOkInScope(p, es, env);
    case Comparison(_, l, r) => OkInScope(p, l, env); OkInScope(p, r, env);
    case IsNull(x) => OkInScope(p, x, env);
    case IsNotNull(x) => OkInScope(p, x, env);
    case BoolChain(_, es) => AllOkInScope(p, es, env);
    case Not(x) => OkInScope(p, x, env);
    case Case(d, whens, o) =>
      if d.Some? { OkInScope(p, d.value, env); }
      if o.Some? { OkInScope(p, o.value, env); }
      WhensOkInScope(p, whens, if d.Some? then Some(Eval(p, d.value, env).value) else None,
                     if o.Some? then Eval(p, o.value, env).value else Null, env);
    case Index(c, i) => OkInScope(p, c, env); OkInScope(p, i, env);
    case Slicing(c, f, t) =>
      OkInScope(p, c, env);
      if f.Some? { OkInScope(p, f.value, env); }
      if t.Some? { OkInScope(p, t.value, env); }
    case ListComp(_, l, _, _) => OkInScope(p, l, env);
    case Quantifier(_, _, l, _) => OkInScope(p, l, env);
    case Reduce(_, i, _, l, _) => OkInScope(p, i, env); OkInScope(p, l, env);
  }

  lemma {:induction false} AllOkInScope(p: Primitives, es: seq<Expr>, env: Env)
    requires EvalAll(p, es, env).Ok?
    ensures forall i :: 0 <= i < |es| ==> InScope(es[i], env.Keys)
    decreases es, 0
  {
    hide Eval;
    forall i | 0 <= i < |es|
      ensures InScope(es[i], env.Keys)
    {
      OkInScope(p, es[i], env);
    }
  }

  lemma {:induction false} WhensOkInScope(p: Primitives, whens: seq<When>, disc: Option<Value>, other: Value, env: Env)
    requires EvalWhens(p, whens, disc, other, env).Ok?
    ensures forall i :: 0 <= i < |whens| ==>
              InScope(whens[i].condition, env.Keys) && InScope(whens[i].result, env.Keys)
    decreases whens, 0
  {
    hide Eval, InScope;
    if whens != [] {
      WhensOkInScope(p, whens[1..], disc, other, env);
      WhenOkInScope(p, whens[0], disc, env);
      forall i | 0 <= i < |whens|
        ensures InScope(whens[i].condition, env.Keys) && InScope(whens[i].result, env.Keys)
      {
        if i > 0 {
          assert whens[i] == whens[1..][i - 1];
        }
      }
    }
  }

  lemma WhenOkInScope(p: Primitives, when: When, disc: Option<Value>, env: Env)
    requires EvalWhen(p, when, disc, env).Ok?
    ensures InScope(when.condition, env.Keys) && InScope(when.result, env.Keys)
    decreases when, 0
  {
    hide Eval, InScope;
    OkInScope(p, when.condition, env);
    OkInScope(p, when.result, env);
  }

  /** Evaluating after a filter is filtering the evaluated column. */
  lemma FilterCommutes(p: Primitives, e: Expr, f: Frame, mask: seq<Value>, col: seq<Value>)
    requires f.Valid() && |mask| == f.n && Column(p, e, f) == Ok(col)
    ensures Filter(f, mask).Valid()
    ensures |col| == f.n && Column(p, e, Filter(f, mask)) == Ok(Select(col, mask))
  {
    hide Eval, InScope, Column;
    ColumnOk(p, e, f);
    FilterRows(f, mask);
    SelectAt(col, mask);
    assert Filter(f, mask).cols.Keys == f.cols.Keys;
    if f.n > 0 {
      OkInScope(p, e, f.Row(0));
      assert f.Row(0).Keys == f.cols.Keys;
    }
    ColumnIs(p, e, Filter(f, mask), Select(col, mask));
  }

  lemma UnboundEverywhere(p: Primitives, x: string, y: string, xs: seq<Value>)
    requires x != y
    ensures EvalEach(p, Var(y), Bind(map[], x, xs)).Ok? <==> xs == []
  {
    hide EvalEach;
    var rows := Bind(map[], x, xs);
    if xs != [] {
      assert Eval(p, Var(y), rows[0]).Err?;
    }
  }

  /** A comprehension body does not see outer variables: with y bound in the row, a non-empty list makes it fail ... */
  lemma ComprehensionHidesOuter(p: Primitives, x: string, y: string, xs: seq<Value>, env: Env)
    requires x != y && y in env
    ensures Eval(p, ListComp(x, Lit(List(xs)), Some(Var(y)), None), env).Err? <==> xs != []
  {
    hide EvalEach;
    var e := ListComp(x, Lit(List(xs)), Some(Var(y)), None);
    UnboundEverywhere(p, x, y, xs);
    assert Eval(p, e.list, env) == Ok(List(xs)) && Items(List(xs)) == Ok(xs);
    assert Survivors(p, e, xs).Ok? <==> xs == [];
  }

  lemma BoundEverywhere(p: Primitives, x: string, y: string, xs: seq<Value>, env: Env)
    requires x != y && y in env
    ensures EvalEach(p, Var(y), Bind(env, x, xs)) == Ok(seq(|xs|, i => env[y]))
  {
    hide EvalEach;
    var rows := Bind(env, x, xs);
    assert forall i :: 0 <= i < |xs| ==> Eval(p, Var(y), rows[i]) == Ok(env[y]);
    var r := EvalEach(p, Var(y), rows);
    assert r.Ok?;
    forall i | 0 <= i < |xs|
      ensures r.value[i] == env[y]
    {
      assert Eval(p, Var(y), rows[i]) == Ok(r.value[i]);
    }
    assert r.value == seq(|xs|, i => env[y]);
  }

  /** ... while a quantifier over the same list does see it. */
  lemma QuantifierSeesOuter(p: Primitives, x: string, y: string, xs: seq<Value>, env: Env)
    requires x != y && y in env
    ensures Eval(p, Quantifier(All, x, Lit(List(xs)), Var(y)), env) == Ok(Bool(xs == [] || Truthy(env[y])))
  {
    hide EvalEach, CountTrue;
    var e := Quantifier(All, x, Lit(List(xs)), Var(y));
    BoundEverywhere(p, x, y, xs, env);
    var ks := seq(|xs|, i => env[y]);
    CountTrueExtremes(ks);
    assert Eval(p, e.list, env) == Ok(List(xs)) && Items(List(xs)) == Ok(xs);
    if xs != [] {
      assert ks[0] == env[y];
    }
  }

  /** No comprehension sees the row but through its list: two rows with the same list value get the same result. */
  lemma ComprehensionReadsOnlyItsList(p: Primitives, e: Expr, env: Env, other: Env)
    requires e.ListComp? && Eval(p, e.list, env) == Eval(p, e.list, other)
    ensures Eval(p, e, env) == Eval(p, e, other)
  {
    hide Comprehend;
  }

  /** The predicate is true of x in the row itself, the loop variable bound on top of the row. */
  ghost predicate Holds(p: Primitives, e: Expr, env: Env, x: Value)
    requires e.Quantifier?
  {
    var r := Eval(p, e.pred, env[e.variable := x]);
    r.Ok? && Truthy(r.value)
  }

  /** The predicate holds of element i and of no other. */
  ghost predicate OnlyHoldsAt(p: Primitives, e: Expr, env: Env, xs: seq<Value>, i: nat)
    requires e.Quantifier? && i < |xs|
  {
    Holds(p, e, env, xs[i]) && forall j :: 0 <= j < |xs| && j != i ==> !Holds(p, e, env, xs[j])
  }

  /** Every quantifier says of its list what it is called, its predicate reading the whole row. */
  lemma QuantifierMeaning(p: Primitives, e: Expr, env: Env, xs: seq<Value>)
    requires e.Quantifier? && Eval(p, e.list, env).Ok? && Items(Eval(p, e.list, env).value) == Ok(xs)
    requires forall i :: 0 <= i < |xs| ==> Eval(p, e.pred, env[e.variable := xs[i]]).Ok?
    ensures Eval(p, e, env).Ok? && Eval(p, e, env).value.Bool?
    ensures e.kind == Any ==> (Eval(p, e, env).value.b <==> exists i :: 0 <= i < |xs| && Holds(p, e, env, xs[i]))
    ensures e.kind == All ==> (Eval(p, e, env).value.b <==> forall i :: 0 <= i < |xs| ==> Holds(p, e, env, xs[i]))
    ensures e.kind == None_ ==> (Eval(p, e, env).value.b <==> forall i :: 0 <= i < |xs| ==> !Holds(p, e, env, xs[i]))
    ensures e.kind == Single ==> (Eval(p, e, env).value.b <==>
              exists i :: 0 <= i < |xs| && OnlyHoldsAt(p, e, env, xs, i))
  {
    hide EvalEach, Verdict, CountTrue;
    var r := EvalEach(p, e.pred, Bind(env, e.variable, xs));
    assert r.Ok?;
    var ks := r.value;
    forall i | 0 <= i < |xs|
      ensures Holds(p, e, env, xs[i]) <==> Truthy(ks[i])
    {
      assert Bind(env, e.variable, xs)[i] == env[e.variable := xs[i]];
    }
    assert Eval(p, e, env) == Ok(Bool(Verdict(e.kind, CountTrue(ks), |xs|)));
    hide Eval, Holds;
    VerdictMeaning(ks);
    if e.kind == Single {
      SameSingle(p, e, env, xs, ks);
    }
  }

  lemma SameSingle(p: Primitives, e: Expr, env: Env, xs: seq<Value>, ks: seq<Value>)
    requires e.Quantifier? && |xs| == |ks| && forall i :: 0 <= i < |xs| ==> (Holds(p, e, env, xs[i]) <==> Truthy(ks[i]))
    ensures (exists i: nat :: OnlyTrueAt(ks, i)) <==>
            exists i :: 0 <= i < |xs| && OnlyHoldsAt(p, e, env, xs, i)
  {
    hide Holds;
    if i: nat :| OnlyTrueAt(ks, i) {
      assert OnlyHoldsAt(p, e, env, xs, i);
    }
    if i :| 0 <= i < |xs| && OnlyHoldsAt(p, e, env, xs, i) {
      assert OnlyTrueAt(ks, i);
    }
  }
}
