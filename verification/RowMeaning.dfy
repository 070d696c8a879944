/** What the row interpreter's operators do to values, said without the functions that define them. */
module RowMeaning {
  import opened Values
  import opened RowSemantics
  import opened QueryLaws

  // ---- Truth, equality and order ----

  lemma TruthyMeaning(v: Value)
    ensures Truthy(v) <==> v != Null && v != Bool(false) && v != Int(0) && v != Str("") && v != List([])
  {}

  /** A value with its booleans written as 0 and 1. */
  function Normal(v: Value): Value {
    match v
    case Bool(b) => Int(if b then 1 else 0)
    case List(items) => List(seq(|items|, i requires 0 <= i < |items| => Normal(items[i])))
    case _ => v
  }

  /** Values are equal up to true being 1, at any depth. */
  lemma {:induction false} SameValueMeaning(a: Value, b: Value)
    ensures SameValue(a, b) <==> Normal(a) == Normal(b)
    decreases a
  {
    if a.List? && b.List? {
      var xs, ys := a.items, b.items;
      forall i | 0 <= i < |xs| && i < |ys|
        ensures SameValue(xs[i], ys[i]) <==> Normal(xs[i]) == Normal(ys[i])
      {
        SameValueMeaning(xs[i], ys[i]);
      }
      var ns, ms := Normal(a).items, Normal(b).items;
      if SameValue(a, b) {
        assert ns == ms;
      } else if |xs| == |ys| {
        var i :| 0 <= i < |xs| && !SameValue(xs[i], ys[i]);
        assert ns[i] != ms[i];
      }
    }
  }

  /** The texts agree before position k, where s ends or has the smaller character. */
  ghost predicate SmallerAt(s: string, t: string, k: nat) {
    k <= |s| && k < |t| && s[..k] == t[..k] && (k == |s| || s[k] < t[k])
  }

  lemma {:induction false} StringLessMeaning(s: string, t: string)
    ensures StringLess(s, t) <==> exists k: nat :: SmallerAt(s, t, k)
  {
    if s != "" && t != "" && s[0] == t[0] {
      StringLessMeaning(s[1..], t[1..]);
      if StringLess(s, t) {
        var k: nat :| SmallerAt(s[1..], t[1..], k);
        assert s[..k + 1] == [s[0]] + s[1..][..k] && t[..k + 1] == [t[0]] + t[1..][..k];
        assert SmallerAt(s, t, k + 1);
      }
      if k: nat :| SmallerAt(s, t, k) {
        assert k > 0;
        assert s[1..][..k - 1] == s[..k][1..] && t[1..][..k - 1] == t[..k][1..];
        assert SmallerAt(s[1..], t[1..], k - 1);
      }
    } else {
      if StringLess(s, t) {
        assert SmallerAt(s, t, 0);
      }
      if k: nat :| SmallerAt(s, t, k) {
        assert k > 0 ==> s[..k][0] == t[..k][0];
      }
    }
  }

  /** Lists compare by the first position where they differ, a proper prefix being less. */
  lemma {:induction false} ListLessMeaning(xs: seq<Value>, ys: seq<Value>, k: nat)
    requires k <= |xs| && k <= |ys| && forall i :: 0 <= i < k ==> Normal(xs[i]) == Normal(ys[i])
    requires k < |xs| && k < |ys| ==> Normal(xs[k]) != Normal(ys[k])
    ensures Less(List(xs), List(ys)) ==
            if k == |xs| || k == |ys| then Ok(k == |xs| && k < |ys|) else Less(xs[k], ys[k])
    decreases k
  {
    hide Normal;
    if xs != [] && ys != [] {
      SameValueMeaning(xs[0], ys[0]);
      if k > 0 {
        ListLessMeaning(xs[1..], ys[1..], k - 1);
      }
    }
  }

  predicate Related(op: CmpOp, m: int, n: int) {
    match op
    case Eq => m == n
    case Ne => m != n
    case Lt => m < n
    case Gt => m > n
    case Le => m <= n
    case Ge => m >= n
  }

  /** Comparison of numbers is comparison of integers, a boolean counting as 0 or 1. */
  lemma NumbersCompare(op: CmpOp, m: int, n: int, b: bool)
    ensures Compare(op, Int(m), Int(n)) == Ok(Bool(Related(op, m, n)))
    ensures Compare(op, Bool(b), Int(n)) == Ok(Bool(Related(op, if b then 1 else 0, n)))
    ensures Compare(op, Int(m), Bool(b)) == Ok(Bool(Related(op, m, if b then 1 else 0)))
  {}

  /** Comparison of texts is by their first difference. */
  lemma TextsCompare(s: string, t: string)
    ensures Compare(Lt, Str(s), Str(t)) == Ok(Bool(exists k: nat :: SmallerAt(s, t, k)))
    ensures Compare(Eq, Str(s), Str(t)) == Ok(Bool(s == t))
  {
    StringLessMeaning(s, t);
  }

  /** Null compares to nothing; values of any kinds compare equal as they are; order is converse and closed by
      equality. */
  lemma ComparisonLaws(a: Value, b: Value)
    ensures forall op :: a.Null? || b.Null? ==> Compare(op, a, b) == Ok(Null)
    ensures !a.Null? && !b.Null? ==>
              && Compare(Eq, a, b) == Ok(Bool(Normal(a) == Normal(b)))
              && Compare(Ne, a, b) == Ok(Bool(Normal(a) != Normal(b)))
    ensures Compare(Gt, a, b) == Compare(Lt, b, a) && Compare(Ge, a, b) == Compare(Le, b, a)
    ensures !a.Null? && !b.Null? ==>
              Compare(Le, a, b) == if Normal(a) == Normal(b) then Ok(Bool(true)) else Compare(Lt, a, b)
    ensures (a.Str? && !b.Str? && !b.Null?) || (a.List? && !b.List? && !b.Null?) ==> Compare(Lt, a, b).Err?
  {
    hide Normal, SameValue;
    SameValueMeaning(a, b);
    SameValueMeaning(b, a);
  }

  // ---- Elements, positions and slices ----

  /** The elements a loop over v sees. */
  ghost predicate Yields(v: Value, xs: seq<Value>) {
    || (v.Null? && xs == [])
    || (v.List? && xs == v.items)
    || (v.Str? && |xs| == |v.s| && forall i :: 0 <= i < |xs| ==> xs[i] == Str([v.s[i]]))
  }

  lemma ItemsMeaning(v: Value)
    ensures Items(v).Err? <==> v.Bool? || v.Int?
    ensures forall xs :: Items(v) == Ok(xs) <==> Yields(v, xs)
  {
    if v.Str? {
      forall xs
        ensures Items(v) == Ok(xs) <==> Yields(v, xs)
      {
        if Yields(v, xs) {
          assert xs == Items(v).value;
        }
      }
    }
  }

  /** Positions count from zero, or from the end when negative; beyond both ends there is null. */
  lemma IndexMeaning(xs: seq<Value>, s: string, i: int)
    ensures IndexOne(List(xs), Int(i)) ==
            Ok(if 0 <= i < |xs| then xs[i] else if -|xs| <= i < 0 then xs[|xs| + i] else Null)
    ensures IndexOne(Str(s), Int(i)) ==
            Ok(if 0 <= i < |s| then Str([s[i]]) else if -|s| <= i < 0 then Str([s[|s| + i]]) else Null)
    ensures IndexOne(Null, Int(i)) == IndexOne(List(xs), Null) == IndexOne(Int(i), Int(i)) == Ok(Null)
  {}

  /** Position p of n is not before the bound, which counts from the end when negative. */
  predicate FromOn(from: Value, p: int, n: nat) {
    from.Int? ==> if from.n < 0 then p >= n + from.n else p >= from.n
  }

  predicate UpTo(to: Value, p: int, n: nat) {
    to.Int? ==> if to.n < 0 then p < n + to.n else p < to.n
  }

  /** A slice is the elements from a up to b, which are exactly those from the one bound on and before the other; an
      absent bound excludes nothing. */
  lemma SliceMeaning(xs: seq<Value>, s: string, from: Value, to: Value) returns (a: nat, b: nat, c: nat, d: nat)
    requires (from.Null? || from.Int?) && (to.Null? || to.Int?)
    ensures a <= b <= |xs| && SliceOne(List(xs), from, to) == Ok(List(xs[a..b]))
    ensures forall p :: 0 <= p < |xs| ==> (a <= p < b <==> FromOn(from, p, |xs|) && UpTo(to, p, |xs|))
    ensures c <= d <= |s| && SliceOne(Str(s), from, to) == Ok(Str(s[c..d]))
    ensures forall p :: 0 <= p < |s| ==> (c <= p < d <==> FromOn(from, p, |s|) && UpTo(to, p, |s|))
    ensures SliceOne(Null, from, to) == SliceOne(Int(0), from, to) == Ok(Null)
  {
    a, b := SliceBounds(from, to, |xs|);
    c, d := SliceBounds(from, to, |s|);
  }

  lemma SliceBounds(from: Value, to: Value, n: nat) returns (a: nat, b: nat)
    requires (from.Null? || from.Int?) && (to.Null? || to.Int?)
    ensures a <= b <= n
    ensures forall p :: 0 <= p < n ==> (a <= p < b <==> FromOn(from, p, n) && UpTo(to, p, n))
    ensures forall s: string :: |s| == n ==> Slice(s, AsIndex(from).value, AsIndex(to).value) == s[a..b]
    ensures forall xs: seq<Value> :: |xs| == n ==> Slice(xs, AsIndex(from).value, AsIndex(to).value) == xs[a..b]
  {
    var f, t := AsIndex(from).value, AsIndex(to).value;
    a := Bound(f, n, 0);
    b := Bound(t, n, n);
    if b < a {
      b := a;
    }
  }

  /** A text, a boolean or a list as index or bound: the number it spells or is, or a refusal; a list index finds
      nothing. */
  lemma OtherIndexMeaning(coll: Value, s: string, b: bool, items: seq<Value>)
    ensures coll != Null ==>
              && IndexOne(coll, Str(s)) == (if ParseInt(s).None? then Err else IndexOne(coll, Int(ParseInt(s).value)))
              && SliceOne(coll, Str(s), Null)
                 == (if ParseInt(s).None? then Err else SliceOne(coll, Int(ParseInt(s).value), Null))
              && SliceOne(coll, Null, Str(s))
                 == (if ParseInt(s).None? then Err else SliceOne(coll, Null, Int(ParseInt(s).value)))
              && SliceOne(coll, List(items), Null) == SliceOne(coll, Null, List(items)) == Err
    ensures IndexOne(coll, Bool(b)) == IndexOne(coll, Int(if b then 1 else 0))
    ensures SliceOne(coll, Bool(b), Bool(b)) == SliceOne(coll, Int(if b then 1 else 0), Int(if b then 1 else 0))
    ensures IndexOne(coll, List(items)) == Ok(Null)
  {
    hide ParseInt, Slice, Position;
  }

  // ---- Names that are looked up without rows ----

  ghost function AllNeeded(es: seq<Expr>): set<string>
    decreases es, 1
  {
    if es == [] then {} else AllNeeded(es[..|es| - 1]) + Needed(es[|es| - 1])
  }

  ghost function OptionNeeded(o: Option<Expr>): set<string>
    decreases o, 1
  {
    if o.Some? then Needed(o.value) else {}
  }

  ghost function WhensNeeded(whens: seq<When>): set<string>
    decreases whens, 1
  {
    if whens == [] then {}
    else
      var when := whens[|whens| - 1];
      WhensNeeded(whens[..|whens| - 1]) + WhenNeeded(when)
  }

  ghost function WhenNeeded(when: When): set<string>
    decreases when, 1
  {
    Needed(when.condition) + Needed(when.result)
  }

  /** The names of the expression, but for those in the bodies of comprehensions, quantifiers and REDUCE. */
  ghost function Needed(e: Expr): set<string>
    decreases e, 0
  {
    match e
    case Var(name) => {name}
    case Lit(_) => {}
    case ListLit(es) => AllNeeded(es)
    case Apply(_, es) => AllNeeded(es)
    case Comparison(_, l, r) => Needed(l) + Needed(r)
    case IsNull(x) => Needed(x)
    case IsNotNull(x) => Needed(x)
    case BoolChain(_, es) => AllNeeded(es)
    case Not(x) => Needed(x)
    case Case(d, whens, o) => OptionNeeded(d) + WhensNeeded(whens) + OptionNeeded(o)
    case Index(c, i) => Needed(c) + Needed(i)
    case Slicing(c, f, t) => Needed(c) + OptionNeeded(f) + OptionNeeded(t)
    case ListComp(_, l, _, _) => Needed(l)
    case Quantifier(_, _, l, _) => Needed(l)
    case Reduce(_, i, _, l, _) => Needed(i) + Needed(l)
  }

  /** On a frame without rows an expression resolves exactly when all those names are there. */
  lemma {:induction false} ScopeMeaning(e: Expr, names: set<string>)
    ensures InScope(e, names) <==> Needed(e) <= names
    decreases e, 0
  {
    hide AllNeeded, WhensNeeded;
    match e
    case Var(_) =>
    case Lit(_) =>
    case ListLit(es) => AllScopes(es, names);
    case Apply(_, es) => AllScopes(es, names);
    case Comparison(_, l, r) => ScopeMeaning(l, names); ScopeMeaning(r, names);
    case IsNull(x) => ScopeMeaning(x, names);
    case IsNotNull(x) => ScopeMeaning(x, names);
    case BoolChain(_, es) => AllScopes(es, names);
    case Not(x) => ScopeMeaning(x, names);
    case Case(d, whens, o) =>
      if d.Some? { ScopeMeaning(d.value, names); }
      if o.Some? { ScopeMeaning(o.value, names); }
      WhensScopes(whens, names);
    case Index(c, i) => ScopeMeaning(c, names); ScopeMeaning(i, names);
    case Slicing(c, f, t) =>
      ScopeMeaning(c, names);
      if f.Some? { ScopeMeaning(f.value, names); }
      if t.Some? { ScopeMeaning(t.value, names); }
    case ListComp(_, l, _, _) => ScopeMeaning(l, names);
    case Quantifier(_, _, l, _) => ScopeMeaning(l, names);
    case Reduce(_, i, _, l, _) => ScopeMeaning(i, names); ScopeMeaning(l, names);
  }

  lemma {:induction false} AllScopes(es: seq<Expr>, names: set<string>)
    ensures (forall i :: 0 <= i < |es| ==> InScope(es[i], names)) <==> AllNeeded(es) <= names
    decreases es, 1
  {
    hide InScope, Needed;
    if es != [] {
      var init, last := es[..|es| - 1], es[|es| - 1];
      AllScopes(init, names);
      ScopeMeaning(last, names);
      assert forall i :: 0 <= i < |es| ==> es[i] == if i < |init| then init[i] else last;
    }
  }

  lemma {:induction false} WhensScopes(whens: seq<When>, names: set<string>)
    ensures (forall i :: 0 <= i < |whens| ==> InScope(whens[i].condition, names) && InScope(whens[i].result, names))
            <==> WhensNeeded(whens) <= names
    decreases whens, 1
  {
    hide InScope, Needed;
    if whens != [] {
      var init, last := whens[..|whens| - 1], whens[|whens| - 1];
      WhensScopes(init, names);
      WhenScope(last, names);
      assert forall i :: 0 <= i < |whens| ==> whens[i] == if i < |init| then init[i] else last;
    }
  }

  lemma WhenScope(when: When, names: set<string>)
    ensures InScope(when.condition, names) && InScope(when.result, names) <==> WhenNeeded(when) <= names
    decreases when, 1
  {
    hide InScope, Needed;
    ScopeMeaning(when.condition, names);
    ScopeMeaning(when.result, names);
  }

  // ---- Expressions whose operands all have values ----

  ghost predicate HaveValues(p: Primitives, es: seq<Expr>, env: Env, vs: seq<Value>) {
    |vs| == |es| && forall i :: 0 <= i < |es| ==> Eval(p, es[i], env) == Ok(vs[i])
  }

  ghost predicate SomeFails(p: Primitives, es: seq<Expr>, env: Env) {
    exists i :: 0 <= i < |es| && Eval(p, es[i], env).Err?
  }

  lemma OperandValues(p: Primitives, es: seq<Expr>, env: Env)
    ensures EvalAll(p, es, env).Err? <==> SomeFails(p, es, env)
    ensures EvalAll(p, es, env).Ok? ==> HaveValues(p, es, env, EvalAll(p, es, env).value)
    ensures forall vs :: HaveValues(p, es, env, vs) ==> EvalAll(p, es, env) == Ok(vs)
  {
    hide Eval, EvalAll;
    var r := EvalAll(p, es, env);
    forall vs | HaveValues(p, es, env, vs)
      ensures r == Ok(vs)
    {
      assert r.Ok?;
      forall i | 0 <= i < |vs|
        ensures r.value[i] == vs[i]
      {
        assert Eval(p, es[i], env) == Ok(r.value[i]);
      }
      assert r.value == vs;
    }
  }

  /** A list literal holds its elements' values, a call gets its arguments' values; either fails with an operand. */
  lemma OperandsMeaning(p: Primitives, fn: string, es: seq<Expr>, env: Env, vs: seq<Value>)
    ensures SomeFails(p, es, env) ==> Eval(p, ListLit(es), env).Err? && Eval(p, Apply(fn, es), env).Err?
    ensures HaveValues(p, es, env, vs) ==>
              Eval(p, ListLit(es), env) == Ok(List(vs)) && Eval(p, Apply(fn, es), env) == p(fn, vs)
  {
    hide EvalAll, SomeFails, HaveValues;
    OperandValues(p, es, env);
  }

  /** Names, literals, null checks and negation. */
  lemma UnaryMeaning(p: Primitives, name: string, v: Value, e: Expr, env: Env)
    ensures Eval(p, Var(name), env) == if name in env then Ok(env[name]) else Err
    ensures Eval(p, Lit(v), env) == Ok(v)
    ensures Eval(p, e, env) == Ok(v) ==>
              && Eval(p, IsNull(e), env) == Ok(Bool(v == Null)) && Eval(p, IsNotNull(e), env) == Ok(Bool(v != Null))
              && Eval(p, Not(e), env) == Ok(if v == Null then Null else Bool(!Truthy(v)))
    ensures Eval(p, e, env).Err? ==>
              Eval(p, IsNull(e), env).Err? && Eval(p, IsNotNull(e), env).Err? && Eval(p, Not(e), env).Err?
  {
    hide Truthy;
  }

  /** Comparison and lookup of values; a failing operand fails them. */
  lemma BinaryMeaning(p: Primitives, op: CmpOp, l: Expr, r: Expr, env: Env, a: Value, b: Value)
    ensures Eval(p, l, env) == Ok(a) && Eval(p, r, env) == Ok(b) ==>
              Eval(p, Comparison(op, l, r), env) == Compare(op, a, b) && Eval(p, Index(l, r), env) == IndexOne(a, b)
    ensures Eval(p, l, env).Err? || Eval(p, r, env).Err? ==>
              Eval(p, Comparison(op, l, r), env).Err? && Eval(p, Index(l, r), env).Err?
  {
    hide Compare, IndexOne;
  }

  /** An absent expression has the value null. */
  ghost predicate HasValue(p: Primitives, e: Option<Expr>, env: Env, v: Value) {
    if e.Some? then Eval(p, e.value, env) == Ok(v) else v == Null
  }

  lemma SlicingMeaning(p: Primitives, c: Expr, f: Option<Expr>, t: Option<Expr>, env: Env, coll: Value, from: Value,
                       to: Value)
    ensures Eval(p, c, env) == Ok(coll) && HasValue(p, f, env, from) && HasValue(p, t, env, to) ==>
              Eval(p, Slicing(c, f, t), env) == SliceOne(coll, from, to)
    ensures Eval(p, c, env).Err? || (f.Some? && Eval(p, f.value, env).Err?) || (t.Some? && Eval(p, t.value, env).Err?)
            ==> Eval(p, Slicing(c, f, t), env).Err?
  {
    hide SliceOne;
  }

  /** A boolean chain over values: true or false decides, null spreads, XOR counts. */
  lemma ChainMeaning(p: Primitives, op: BoolOp, es: seq<Expr>, env: Env, vs: seq<Value>)
    requires HaveValues(p, es, env, vs)
    ensures es == [] ==> Eval(p, BoolChain(op, es), env) == Ok(Bool(op == AndOp))
    ensures |es| == 1 ==> Eval(p, BoolChain(op, es), env) == Ok(vs[0])
    ensures |es| > 1 ==> Eval(p, BoolChain(op, es), env) == Ok(
              match op
              case AndOp =>
                if exists i :: 0 <= i < |vs| && vs[i] != Null && !Truthy(vs[i]) then Bool(false)
                else if exists i :: 0 <= i < |vs| && vs[i] == Null then Null else Bool(true)
              case OrOp =>
                if exists i :: 0 <= i < |vs| && Truthy(vs[i]) then Bool(true)
                else if exists i :: 0 <= i < |vs| && vs[i] == Null then Null else Bool(false)
              case XorOp =>
                if exists i :: 0 <= i < |vs| && vs[i] == Null then Null else Bool(|TrueAt(vs)| % 2 == 1))
  {
    hide Truthy, EvalAll, HaveValues, CountTrue;
    OperandValues(p, es, env);
    assert |vs| == |es| by { SameLength(p, es, env, vs); }
    assert Eval(p, BoolChain(op, es), env) == Ok(KleeneFold(op, vs));
    if |vs| > 1 {
      hide KleeneFold;
      match op
      case AndOp => AndMeaning(vs);
      case OrOp => OrMeaning(vs);
      case XorOp => XorMeaning(vs); CountIsSize(vs);
    }
  }

  lemma SameLength(p: Primitives, es: seq<Expr>, env: Env, vs: seq<Value>)
    requires HaveValues(p, es, env, vs)
    ensures |vs| == |es|
  {}

  /** The positions of the true values. */
  function TrueAt(vs: seq<Value>): set<nat> {
    set i: nat | i < |vs| && Truthy(vs[i])
  }

  lemma {:induction false} CountIsSize(vs: seq<Value>)
    ensures CountTrue(vs) == |TrueAt(vs)|
  {
    hide Truthy;
    if vs != [] {
      var n := |vs| - 1;
      CountIsSize(vs[..n]);
      assert forall i :: 0 <= i < n ==> vs[..n][i] == vs[i];
      assert TrueAt(vs) == TrueAt(vs[..n]) + (if Truthy(vs[n]) then {n} else {});
    } else {
      assert TrueAt(vs) == {};
    }
  }

  // ---- CASE ----

  /** WHEN i matches: equality with the discriminant, or a true condition. */
  predicate Hits(disc: Option<Value>, cond: Value) {
    if disc.Some? then disc.value != Null && cond != Null && Normal(disc.value) == Normal(cond) else cond == Bool(true)
  }

  ghost predicate WhenValues(p: Primitives, whens: seq<When>, env: Env, conds: seq<Value>, thens: seq<Value>) {
    |conds| == |thens| == |whens| && forall i :: 0 <= i < |whens| ==>
      Eval(p, whens[i].condition, env) == Ok(conds[i]) && Eval(p, whens[i].result, env) == Ok(thens[i])
  }

  lemma WhenMeaning(p: Primitives, when: When, disc: Option<Value>, env: Env)
    ensures EvalWhen(p, when, disc, env).Err?
            <==> Eval(p, when.condition, env).Err? || Eval(p, when.result, env).Err?
                 || (disc.None? && !Eval(p, when.condition, env).value.Bool?
                     && !Eval(p, when.condition, env).value.Null?)
    ensures EvalWhen(p, when, disc, env).Ok? ==>
              EvalWhen(p, when, disc, env).value
              == (Hits(disc, Eval(p, when.condition, env).value), Eval(p, when.result, env).value)
  {
    hide Eval, SameValue, Normal;
    if disc.Some? && Eval(p, when.condition, env).Ok? {
      SameValueMeaning(disc.value, Eval(p, when.condition, env).value);
    }
  }

  /** CASE is the result of the first WHEN that hits, else the ELSE value, else null. */
  lemma CaseMeaning(p: Primitives, d: Option<Expr>, whens: seq<When>, o: Option<Expr>, env: Env, disc: Option<Value>,
                    conds: seq<Value>, thens: seq<Value>, k: nat)
    requires WhenValues(p, whens, env, conds, thens)
    requires if d.Some? then disc.Some? && Eval(p, d.value, env) == Ok(disc.value) else disc.None?
    requires o.Some? ==> Eval(p, o.value, env).Ok?
    requires d.None? ==> forall i :: 0 <= i < |conds| ==> conds[i].Bool? || conds[i].Null?
    requires k <= |whens| && forall i :: 0 <= i < k ==> !Hits(disc, conds[i])
    requires k < |whens| ==> Hits(disc, conds[k])
    ensures Eval(p, Case(d, whens, o), env) ==
            Ok(if k < |whens| then thens[k] else if o.Some? then Eval(p, o.value, env).value else Null)
  {
    hide Hits, EvalWhen, EvalWhens;
    var other := if o.Some? then Eval(p, o.value, env).value else Null;
    var hits := seq(|whens|, i requires 0 <= i < |whens| => Hits(disc, conds[i]));
    assert Eval(p, Case(d, whens, o), env) == EvalWhens(p, whens, disc, other, env);
    hide Eval;
    forall i | 0 <= i < |whens|
      ensures EvalWhen(p, whens[i], disc, env) == Ok((hits[i], thens[i]))
    {
      WhenMeaning(p, whens[i], disc, env);
    }
    FirstMatchWins(p, whens, disc, other, env, hits, thens, k);
  }

  /** It fails exactly when one of its parts does, or a searched condition is neither boolean nor null. */
  lemma CaseFailsIff(p: Primitives, d: Option<Expr>, whens: seq<When>, o: Option<Expr>, env: Env)
    ensures Eval(p, Case(d, whens, o), env).Err?
            <==> || (d.Some? && Eval(p, d.value, env).Err?) || (o.Some? && Eval(p, o.value, env).Err?)
                 || exists i :: 0 <= i < |whens| && BadWhen(p, whens[i], d.Some?, env)
  {
    hide EvalWhen, EvalWhens, BadWhen;
    if (d.Some? ==> Eval(p, d.value, env).Ok?) && (o.Some? ==> Eval(p, o.value, env).Ok?) {
      var disc := if d.Some? then Some(Eval(p, d.value, env).value) else None;
      var other := if o.Some? then Eval(p, o.value, env).value else Null;
      assert Eval(p, Case(d, whens, o), env) == EvalWhens(p, whens, disc, other, env);
      hide Eval;
      WhensFailIff(p, whens, disc, other, env);
    }
  }

  ghost predicate BadWhen(p: Primitives, when: When, simple: bool, env: Env) {
    || Eval(p, when.condition, env).Err? || Eval(p, when.result, env).Err?
    || (!simple && !Eval(p, when.condition, env).value.Bool? && !Eval(p, when.condition, env).value.Null?)
  }

  lemma {:induction false} WhensFailIff(p: Primitives, whens: seq<When>, disc: Option<Value>, other: Value, env: Env)
    ensures EvalWhens(p, whens, disc, other, env).Err?
            <==> exists i :: 0 <= i < |whens| && BadWhen(p, whens[i], disc.Some?, env)
  {
    hide Eval, EvalWhen;
    if whens != [] {
      WhensFailIff(p, whens[1..], disc, other, env);
      WhenMeaning(p, whens[0], disc, env);
      assert forall i :: 1 <= i < |whens| ==> whens[i] == whens[1..][i - 1];
    }
  }

  // ---- List comprehension ----

  ghost predicate Increasing(ks: seq<nat>, n: nat) {
    (forall k :: 0 <= k < |ks| ==> ks[k] < n) && (forall j, k :: 0 <= j < k < |ks| ==> ks[j] < ks[k])
  }

  /** The WHERE is true of x, nothing but the loop variable being visible to it; without a WHERE anything passes. */
  ghost predicate Passes(p: Primitives, e: Expr, x: Value)
    requires e.ListComp?
  {
    e.where.Some? ==> var r := Eval(p, e.where.value, map[e.variable := x]); r.Ok? && Truthy(r.value)
  }

  /** What the comprehension makes of an element that passes. */
  ghost function MappedTo(p: Primitives, e: Expr, x: Value): Res<Value>
    requires e.ListComp?
  {
    if e.mapped.Some? then Eval(p, e.mapped.value, map[e.variable := x]) else Ok(x)
  }

  ghost predicate WhereFails(p: Primitives, e: Expr, xs: seq<Value>)
    requires e.ListComp?
  {
    e.where.Some? && exists i :: 0 <= i < |xs| && Eval(p, e.where.value, map[e.variable := xs[i]]).Err?
  }

  ghost function Verdicts(p: Primitives, e: Expr, xs: seq<Value>): (r: seq<Value>)
    requires e.ListComp?
    ensures |r| == |xs| && forall i :: 0 <= i < |xs| ==> r[i].Bool? && (r[i].b <==> Passes(p, e, xs[i]))
  {
    seq(|xs|, i requires 0 <= i < |xs| => Bool(Passes(p, e, xs[i])))
  }

  /** The elements that pass, by position. */
  lemma KeptPositions(p: Primitives, e: Expr, xs: seq<Value>) returns (ks: seq<nat>)
    requires e.ListComp?
    ensures Increasing(ks, |xs|)
    ensures forall i: nat :: i in ks <==> i < |xs| && Passes(p, e, xs[i])
    ensures Survivors(p, e, xs).Err? <==> WhereFails(p, e, xs)
    ensures Survivors(p, e, xs).Ok? ==>
              |Survivors(p, e, xs).value| == |ks|
              && forall k :: 0 <= k < |ks| ==> Survivors(p, e, xs).value[k] == xs[ks[k]]
  {
    hide Eval, Survivors, Passes, WhereFails;
    ks := TruePositions(Verdicts(p, e, xs));
    if e.where.Some? {
      KeptWhere(p, e, xs);
    } else {
      AllPass(p, e, xs);
    }
  }

  lemma AllPass(p: Primitives, e: Expr, xs: seq<Value>)
    requires e.ListComp? && e.where.None?
    ensures Survivors(p, e, xs) == Ok(xs) && !WhereFails(p, e, xs)
    ensures var ks := TruePositions(Verdicts(p, e, xs)); |ks| == |xs| && forall k :: 0 <= k < |ks| ==> ks[k] == k
  {
    hide Eval, Passes;
    forall i | 0 <= i < |xs|
      ensures Passes(p, e, xs[i])
    {
      PassesWithout(p, e, xs[i]);
    }
    AllPositions(Verdicts(p, e, xs));
  }

  lemma KeptWhere(p: Primitives, e: Expr, xs: seq<Value>)
    requires e.ListComp? && e.where.Some?
    ensures Survivors(p, e, xs).Err? <==> WhereFails(p, e, xs)
    ensures Survivors(p, e, xs).Ok? ==>
              var ks := TruePositions(Verdicts(p, e, xs));
              |Survivors(p, e, xs).value| == |ks|
              && forall k :: 0 <= k < |ks| ==> Survivors(p, e, xs).value[k] == xs[ks[k]]
  {
    hide Eval, EvalEach, Select, Passes, Truthy;
    var rows := Bind(map[], e.variable, xs);
    var keep := EvalEach(p, e.where.value, rows);
    assert Survivors(p, e, xs) == if keep.Ok? then Ok(Select(xs, keep.value)) else Err;
    hide Survivors;
    if keep.Ok? {
      forall i | 0 <= i < |xs|
        ensures Truthy(keep.value[i]) <==> Truthy(Verdicts(p, e, xs)[i])
      {
        assert Eval(p, e.where.value, rows[i]) == Ok(keep.value[i]);
        PassesIs(p, e, xs[i], keep.value[i]);
        BoolTruth(Passes(p, e, xs[i]));
      }
      SelectAt(xs, keep.value);
      SamePositions(Verdicts(p, e, xs), keep.value);
      forall i | 0 <= i < |xs|
        ensures Eval(p, e.where.value, map[e.variable := xs[i]]).Ok?
      {
        assert Eval(p, e.where.value, rows[i]) == Ok(keep.value[i]);
      }
    } else {
      var i :| 0 <= i < |xs| && Eval(p, e.where.value, rows[i]).Err?;
      assert Eval(p, e.where.value, map[e.variable := xs[i]]).Err?;
    }
  }

  lemma BoolTruth(b: bool)
    ensures Truthy(Bool(b)) <==> b
  {}

  lemma PassesIs(p: Primitives, e: Expr, x: Value, kept: Value)
    requires e.ListComp? && e.where.Some? && Eval(p, e.where.value, map[e.variable := x]) == Ok(kept)
    ensures Passes(p, e, x) <==> Truthy(kept)
  {}

  lemma PassesWithout(p: Primitives, e: Expr, x: Value)
    requires e.ListComp? && e.where.None?
    ensures Passes(p, e, x)
  {}

  lemma {:induction false} SamePositions(a: seq<Value>, b: seq<Value>)
    requires |a| == |b| && forall i :: 0 <= i < |a| ==> (Truthy(a[i]) <==> Truthy(b[i]))
    ensures TruePositions(a) == TruePositions(b)
  {
    hide Truthy;
    if a != [] {
      SamePositions(a[..|a| - 1], b[..|b| - 1]);
    }
  }

  lemma {:induction false} AllPositions(a: seq<Value>)
    requires forall i :: 0 <= i < |a| ==> Truthy(a[i])
    ensures |TruePositions(a)| == |a| && forall k :: 0 <= k < |a| ==> TruePositions(a)[k] == k
  {
    if a != [] {
      AllPositions(a[..|a| - 1]);
    }
  }

  /** A comprehension keeps, in order, the elements that pass and maps each of them alone; it fails exactly when the
      WHERE fails on some element or the map expression on one that passes. */
  lemma ComprehensionMeaning(p: Primitives, e: Expr, env: Env, v: Value, xs: seq<Value>) returns (ks: seq<nat>)
    requires e.ListComp? && Eval(p, e.list, env) == Ok(v) && Yields(v, xs)
    ensures Increasing(ks, |xs|) && forall i: nat :: i in ks <==> i < |xs| && Passes(p, e, xs[i])
    ensures Eval(p, e, env).Err?
            <==> WhereFails(p, e, xs) || exists k :: 0 <= k < |ks| && MappedTo(p, e, xs[ks[k]]).Err?
    ensures Eval(p, e, env).Ok? ==>
              && Eval(p, e, env).value.List? && |Eval(p, e, env).value.items| == |ks|
              && forall k :: 0 <= k < |ks| ==> MappedTo(p, e, xs[ks[k]]) == Ok(Eval(p, e, env).value.items[k])
  {
    hide EvalEach, Survivors, Passes, WhereFails, Yields, Items;
    ItemsMeaning(v);
    assert Eval(p, e, env) == var ys := Comprehend(p, e, xs); if ys.Ok? then Ok(List(ys.value)) else Err;
    hide Eval;
    ks := KeptPositions(p, e, xs);
    var kept := Survivors(p, e, xs);
    if kept.Ok? && e.mapped.Some? {
      var rows := Bind(map[], e.variable, kept.value);
      var ys := EvalEach(p, e.mapped.value, rows);
      assert forall k :: 0 <= k < |ks| ==> rows[k] == map[e.variable := xs[ks[k]]];
      if ys.Err? {
        var k :| 0 <= k < |rows| && Eval(p, e.mapped.value, rows[k]).Err?;
        assert MappedTo(p, e, xs[ks[k]]).Err?;
      } else {
        forall k | 0 <= k < |ks|
          ensures MappedTo(p, e, xs[ks[k]]) == Ok(ys.value[k])
        {
          assert Eval(p, e.mapped.value, rows[k]) == Ok(ys.value[k]);
        }
      }
    }
  }

  /** A quantifier fails exactly when its predicate does on some element. */
  lemma QuantifierFailsIff(p: Primitives, e: Expr, env: Env, v: Value, xs: seq<Value>)
    requires e.Quantifier? && Eval(p, e.list, env) == Ok(v) && Yields(v, xs)
    ensures Eval(p, e, env).Err? <==> exists i :: 0 <= i < |xs| && Eval(p, e.pred, env[e.variable := xs[i]]).Err?
  {
    hide EvalEach, Yields, Items, Verdict, CountTrue;
    ItemsMeaning(v);
    var rows := Bind(env, e.variable, xs);
    var r := EvalEach(p, e.pred, rows);
    assert Eval(p, e, env).Err? <==> r.Err?;
    hide Eval;
    if r.Err? {
      var i :| 0 <= i < |rows| && Eval(p, e.pred, rows[i]).Err?;
      assert Eval(p, e.pred, env[e.variable := xs[i]]).Err?;
    } else {
      forall i | 0 <= i < |xs|
        ensures Eval(p, e.pred, env[e.variable := xs[i]]).Ok?
      {
        assert Eval(p, e.pred, rows[i]) == Ok(r.value[i]);
      }
    }
  }

  /** What loops over a list fails when there is no list to loop over. */
  lemma NoListFails(p: Primitives, e: Expr, env: Env)
    requires e.ListComp? || e.Quantifier? || e.Reduce?
    requires Eval(p, e.list, env).Err? || Eval(p, e.list, env).value.Bool? || Eval(p, e.list, env).value.Int?
             || (e.Reduce? && Eval(p, e.initial, env).Err?)
    ensures Eval(p, e, env).Err?
  {
    hide Comprehend, EvalEach, Fold;
  }

  // ---- REDUCE ----

  /** The row a REDUCE body sees: the accumulator and the element on top of the row, the element on top. */
  function StepEnv(e: Expr, env: Env, acc: Value, x: Value): Env
    requires e.Reduce?
  {
    env[e.accumulator := acc][e.variable := x]
  }

  /** accs are the accumulators before, between and after the first k steps. */
  ghost predicate Accumulates(p: Primitives, e: Expr, env: Env, xs: seq<Value>, accs: seq<Value>)
    requires e.Reduce?
  {
    && 0 < |accs| <= |xs| + 1 && Eval(p, e.initial, env) == Ok(accs[0])
    && forall k :: 0 <= k < |accs| - 1 ==> Eval(p, e.body, StepEnv(e, env, accs[k], xs[k])) == Ok(accs[k + 1])
  }

  /** REDUCE is the last of a chain of accumulators, one step per element; it fails exactly where a step does. */
  lemma ReduceMeaning(p: Primitives, e: Expr, env: Env, v: Value, xs: seq<Value>) returns (accs: seq<Value>)
    requires e.Reduce? && Eval(p, e.list, env) == Ok(v) && Yields(v, xs) && Eval(p, e.initial, env).Ok?
    ensures Accumulates(p, e, env, xs, accs)
    ensures Eval(p, e, env).Ok? ==> |accs| == |xs| + 1 && Eval(p, e, env) == Ok(accs[|xs|])
    ensures Eval(p, e, env).Err? ==>
              |accs| <= |xs| && Eval(p, e.body, StepEnv(e, env, accs[|accs| - 1], xs[|accs| - 1])).Err?
  {
    hide Yields, Items, Fold;
    ItemsMeaning(v);
    var init := Eval(p, e.initial, env).value;
    assert Eval(p, e, env) == Fold(p, e, xs, init, env);
    hide Eval;
    accs := Steps(p, e, env, xs, init);
  }

  lemma {:induction false} Steps(p: Primitives, e: Expr, env: Env, xs: seq<Value>, init: Value)
    returns (accs: seq<Value>)
    requires e.Reduce? && Eval(p, e.initial, env) == Ok(init)
    ensures Accumulates(p, e, env, xs, accs)
    ensures Fold(p, e, xs, init, env).Ok? ==> |accs| == |xs| + 1 && Fold(p, e, xs, init, env) == Ok(accs[|xs|])
    ensures Fold(p, e, xs, init, env).Err? ==>
              |accs| <= |xs| && Eval(p, e.body, StepEnv(e, env, accs[|accs| - 1], xs[|accs| - 1])).Err?
  {
    hide Eval;
    if xs == [] {
      accs := [init];
    } else {
      var n := |xs| - 1;
      var before := Steps(p, e, env, xs[..n], init);
      assert forall i :: 0 <= i < n ==> xs[..n][i] == xs[i];
      accs := before;
      if |before| == n + 1 {
        var next := Eval(p, e.body, StepEnv(e, env, before[n], xs[n]));
        if next.Ok? {
          accs := before + [next.value];
        }
      }
    }
  }
}
