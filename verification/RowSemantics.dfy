/** The expression language and its meaning on one row: the specification the column evaluators refine. */
module RowSemantics {
  import opened Values

  type Env = map<string, Value>

  /** Scalar functions and arithmetic: a row's result is a function of that row's arguments. */
  type Primitives = (string, seq<Value>) -> Res<Value>

  datatype BoolOp = AndOp | OrOp | XorOp
  datatype QuantKind = Any | All | None_ | Single | Unknown

  datatype When = When(condition: Expr, result: Expr)

  datatype Expr =
    | Var(name: string)
    | Lit(value: Value)
    | ListLit(elements: seq<Expr>)
    | Apply(fn: string, args: seq<Expr>)
    | Comparison(op: CmpOp, left: Expr, right: Expr)
    | IsNull(operand: Expr)
    | IsNotNull(operand: Expr)
    | BoolChain(bop: BoolOp, operands: seq<Expr>)
    | Not(operand: Expr)
    | Case(discriminant: Option<Expr>, whens: seq<When>, otherwise: Option<Expr>)
    | Index(coll: Expr, index: Expr)
    | Slicing(coll: Expr, from: Option<Expr>, to: Option<Expr>)
    | ListComp(variable: string, list: Expr, where: Option<Expr>, mapped: Option<Expr>)
    | Quantifier(kind: QuantKind, variable: string, list: Expr, pred: Expr)
    | Reduce(accumulator: string, initial: Expr, variable: string, list: Expr, body: Expr)

  // ---- Kleene logic on one row ----

  function KAnd(l: Value, r: Value): Value {
    if (!l.Null? && !Truthy(l)) || (!r.Null? && !Truthy(r)) then Bool(false)
    else if l.Null? || r.Null? then Null
    else Bool(true)
  }

  function KOr(l: Value, r: Value): Value {
    if Truthy(l) || Truthy(r) then Bool(true)
    else if l.Null? || r.Null? then Null
    else Bool(false)
  }

  function KXor(l: Value, r: Value): Value {
    if l.Null? || r.Null? then Null else Bool(Truthy(l) != Truthy(r))
  }

  function KNot(v: Value): Value {
    if v.Null? then Null else Bool(!Truthy(v))
  }

  function Kleene(op: BoolOp, l: Value, r: Value): Value {
    match op
    case AndOp => KAnd(l, r)
    case OrOp => KOr(l, r)
    case XorOp => KXor(l, r)
  }

  /** The left fold over one or more operand values. */
  function KleeneFold(op: BoolOp, vs: seq<Value>): Value {
    if |vs| == 0 then Bool(op.AndOp?)
    else if |vs| == 1 then vs[0]
    else Kleene(op, KleeneFold(op, vs[..|vs| - 1]), vs[|vs| - 1])
  }

  // ---- Selection and counting ----

  /** The elements whose predicate value is true. */
  function Select<T>(xs: seq<T>, keep: seq<Value>): (r: seq<T>)
    requires |xs| == |keep|
    ensures |r| <= |xs|
  {
    if xs == [] then []
    else Select(xs[..|xs| - 1], keep[..|xs| - 1]) + (if Truthy(keep[|xs| - 1]) then [xs[|xs| - 1]] else [])
  }

  function CountTrue(keep: seq<Value>): (r: nat)
    ensures r <= |keep|
  {
    if keep == [] then 0
    else CountTrue(keep[..|keep| - 1]) + (if Truthy(keep[|keep| - 1]) then 1 else 0)
  }

  predicate Verdict(kind: QuantKind, matches: nat, length: nat) {
    match kind
    case Any => matches > 0
    case All => matches == length
    case None_ => matches == 0
    case Single => matches == 1
    case Unknown => false
  }

  // ---- The row interpreter ----

  /** `xs` bound one at a time to `name` on top of `env`. */
  function Bind(env: Env, name: string, xs: seq<Value>): (r: seq<Env>)
    ensures |r| == |xs|
    ensures forall i :: 0 <= i < |xs| ==> r[i] == env[name := xs[i]]
  {
    seq(|xs|, i requires 0 <= i < |xs| => env[name := xs[i]])
  }

  function Eval(p: Primitives, e: Expr, env: Env): Res<Value>
    decreases e, 0, 2
  {
    match e
    case Var(name) => if name in env then Ok(env[name]) else Err
    case Lit(v) => Ok(v)
    case ListLit(es) => var vs :- EvalAll(p, es, env); Ok(List(vs))
    case Apply(fn, es) => var vs :- EvalAll(p, es, env); p(fn, vs)
    case Comparison(op, l, r) =>
      var a :- Eval(p, l, env);
      var b :- Eval(p, r, env);
      Compare(op, a, b)
    case IsNull(x) => var v :- Eval(p, x, env); Ok(Bool(v.Null?))
    case IsNotNull(x) => var v :- Eval(p, x, env); Ok(Bool(!v.Null?))
    case BoolChain(op, es) => var vs :- EvalAll(p, es, env); Ok(KleeneFold(op, vs))
    case Not(x) => var v :- Eval(p, x, env); Ok(KNot(v))
    case Case(d, whens, o) =>
      var other :- EvalOption(p, o, env);
      var disc :- EvalOption(p, d, env);
      EvalWhens(p, whens, if d.Some? then Some(disc) else None, other, env)
    case Index(c, i) =>
      var coll :- Eval(p, c, env);
      var idx :- Eval(p, i, env);
      IndexOne(coll, idx)
    case Slicing(c, f, t) =>
      var coll :- Eval(p, c, env);
      var from :- EvalOption(p, f, env);
      var to :- EvalOption(p, t, env);
      SliceOne(coll, from, to)
    case ListComp(name, l, w, m) =>
      var v :- Eval(p, l, env);
      var xs :- Items(v);
      var ys :- Comprehend(p, e, xs);
      Ok(List(ys))
    case Quantifier(kind, name, l, w) =>
      var v :- Eval(p, l, env);
      var xs :- Items(v);
      var ks :- EvalEach(p, w, Bind(env, name, xs));
      Ok(Bool(Verdict(kind, CountTrue(ks), |xs|)))
    case Reduce(acc, i, name, l, body) =>
      var v :- Eval(p, l, env);
      var a :- Eval(p, i, env);
      var xs :- Items(v);
      Fold(p, e, xs, a, env)
  }

  /** An absent optional expression yields null. */
  function EvalOption(p: Primitives, o: Option<Expr>, env: Env): Res<Value>
    decreases o, 1, 0
  {
    match o
    case None => Ok(Null)
    case Some(e) => Eval(p, e, env)
  }

  function EvalAll(p: Primitives, es: seq<Expr>, env: Env): (r: Res<seq<Value>>)
    ensures r.Ok? ==> |r.value| == |es| && forall i :: 0 <= i < |es| ==> Eval(p, es[i], env) == Ok(r.value[i])
    ensures r.Err? ==> exists i :: 0 <= i < |es| && Eval(p, es[i], env).Err?
    decreases es, 1, 0
  {
    if es == [] then Ok([])
    else
      var vs :- EvalAll(p, es[..|es| - 1], env);
      var v :- Eval(p, es[|es| - 1], env);
      Ok(vs + [v])
  }

  /** One expression on each of several rows. */
  function EvalEach(p: Primitives, e: Expr, envs: seq<Env>): (r: Res<seq<Value>>)
    ensures r.Ok? ==> |r.value| == |envs| && forall i :: 0 <= i < |envs| ==> Eval(p, e, envs[i]) == Ok(r.value[i])
    ensures r.Err? ==> exists i :: 0 <= i < |envs| && Eval(p, e, envs[i]).Err?
    decreases e, 1, |envs|
  {
    if envs == [] then Ok([])
    else
      var vs :- EvalEach(p, e, envs[..|envs| - 1]);
      var v :- Eval(p, e, envs[|envs| - 1]);
      Ok(vs + [v])
  }

  /** A condition that is neither boolean nor null is refused by the searched form. */
  function Matches(disc: Option<Value>, cond: Value): Res<bool> {
    match disc
    case Some(d) => Ok(!d.Null? && !cond.Null? && SameValue(d, cond))
    case None => if cond.Null? then Ok(false) else if cond.Bool? then Ok(cond.b) else Err
  }

  /** The result of the first WHEN that matches; every branch is evaluated. */
  function EvalWhens(p: Primitives, whens: seq<When>, disc: Option<Value>, other: Value, env: Env): Res<Value>
    decreases whens, 1, 0
  {
    if whens == [] then Ok(other)
    else
      var rest :- EvalWhens(p, whens[1..], disc, other, env);
      var (hit, then_) :- EvalWhen(p, whens[0], disc, env);
      Ok(if hit then then_ else rest)
  }

  /** Whether one WHEN matches, and its result. */
  function EvalWhen(p: Primitives, when: When, disc: Option<Value>, env: Env): Res<(bool, Value)>
    decreases when, 1, 0
  {
    var then_ :- Eval(p, when.result, env);
    var cond :- Eval(p, when.condition, env);
    var hit :- Matches(disc, cond);
    Ok((hit, then_))
  }

  /** The filtered and mapped elements; only the loop variable is visible to WHERE and to the map expression. */
  function Comprehend(p: Primitives, e: Expr, xs: seq<Value>): Res<seq<Value>>
    requires e.ListComp?
    decreases e, 0, 1
  {
    var survivors :- Survivors(p, e, xs);
    match e.mapped
    case None => Ok(survivors)
    case Some(m) => EvalEach(p, m, Bind(map[], e.variable, survivors))
  }

  function Survivors(p: Primitives, e: Expr, xs: seq<Value>): Res<seq<Value>>
    requires e.ListComp?
    decreases e, 0, 0
  {
    match e.where
    case None => Ok(xs)
    case Some(w) =>
      var keep :- EvalEach(p, w, Bind(map[], e.variable, xs));
      Ok(Select(xs, keep))
  }

  /** The left fold; the loop variable shadows the accumulator, which shadows outer names. */
  function Fold(p: Primitives, e: Expr, xs: seq<Value>, init: Value, env: Env): Res<Value>
    requires e.Reduce?
    decreases e, 0, 1, |xs|
  {
    if xs == [] then Ok(init)
    else
      var a :- Fold(p, e, xs[..|xs| - 1], init, env);
      Eval(p, e.body, env[e.accumulator := a][e.variable := xs[|xs| - 1]])
  }

  /** Names that are looked up even when the frame has no rows. */
  predicate InScope(e: Expr, names: set<string>)
    decreases e
  {
    match e
    case Var(name) => name in names
    case Lit(_) => true
    case ListLit(es) => forall i :: 0 <= i < |es| ==> InScope(es[i], names)
    case Apply(_, es) => forall i :: 0 <= i < |es| ==> InScope(es[i], names)
    case Comparison(_, l, r) => InScope(l, names) && InScope(r, names)
    case IsNull(x) => InScope(x, names)
    case IsNotNull(x) => InScope(x, names)
    case BoolChain(_, es) => forall i :: 0 <= i < |es| ==> InScope(es[i], names)
    case Not(x) => InScope(x, names)
    case Case(d, whens, o) =>
      && (d.Some? ==> InScope(d.value, names))
      && (o.Some? ==> InScope(o.value, names))
      && forall i :: 0 <= i < |whens| ==> InScope(whens[i].condition, names) && InScope(whens[i].result, names)
    case Index(c, i) => InScope(c, names) && InScope(i, names)
    case Slicing(c, f, t) =>
      InScope(c, names) && (f.Some? ==> InScope(f.value, names)) && (t.Some? ==> InScope(t.value, names))
    case ListComp(_, l, _, _) => InScope(l, names)
    case Quantifier(_, _, l, _) => InScope(l, names)
    case Reduce(_, i, _, l, _) => InScope(i, names) && InScope(l, names)
  }
}
