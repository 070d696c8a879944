/** Scalar values of the query language and the per-element operations the evaluators apply to them. */
module Values {

  datatype Res<+T> = Ok(value: T) | Err {
    predicate IsFailure() {
      Err?
    }
    function PropagateFailure<U>(): Res<U>
      requires Err?
    {
      Err
    }
    function Extract(): T
      requires Ok?
    {
      value
    }
  }

  datatype Option<+T> = None | Some(value: T)

  function MapSeq<S, T>(g: S -> T, a: seq<S>): (r: seq<T>)
    ensures |r| == |a| && forall i :: 0 <= i < |a| ==> r[i] == g(a[i])
  {
    seq(|a|, i requires 0 <= i < |a| => g(a[i]))
  }

  datatype Value = Null | Bool(b: bool) | Int(n: int) | Str(s: string) | List(items: seq<Value>) {
    /** A Python bool is an int. */
    predicate Numeric() {
      Bool? || Int?
    }
    function AsInt(): int
      requires Numeric()
    {
      if Bool? then (if b then 1 else 0) else n
    }
  }

  datatype CmpOp = Eq | Ne | Lt | Gt | Le | Ge

  /** Python truth of a non-null value; null counts as false everywhere it is asked. */
  predicate Truthy(v: Value) {
    match v
    case Null => false
    case Bool(b) => b
    case Int(n) => n != 0
    case Str(s) => s != ""
    case List(items) => items != []
  }

  predicate SameValue(a: Value, b: Value) {
    if a.Numeric() && b.Numeric() then a.AsInt() == b.AsInt()
    else match (a, b)
      case (Null, Null) => true
      case (Str(s), Str(t)) => s == t
      case (List(xs), List(ys)) => |xs| == |ys| && forall i :: 0 <= i < |xs| ==> SameValue(xs[i], ys[i])
      case _ => false
  }

  predicate StringLess(s: string, t: string) {
    t != "" && (s == "" || s[0] < t[0] || (s[0] == t[0] && StringLess(s[1..], t[1..])))
  }

  /** `a < b`; Err stands for the TypeError on unordered types. */
  function Less(a: Value, b: Value): Res<bool> {
    if a.Numeric() && b.Numeric() then Ok(a.AsInt() < b.AsInt())
    else match (a, b)
      case (Str(s), Str(t)) => Ok(StringLess(s, t))
      case (List(xs), List(ys)) => ListLess(xs, ys)
      case _ => Err
  }

  function ListLess(xs: seq<Value>, ys: seq<Value>): Res<bool> {
    if xs == [] || ys == [] then Ok(xs == [] && ys != [])
    else if SameValue(xs[0], ys[0]) then ListLess(xs[1..], ys[1..])
    else Less(xs[0], ys[0])
  }

  /** One row of evaluate_comparison: null on either side gives null. */
  function Compare(op: CmpOp, a: Value, b: Value): Res<Value> {
    if a.Null? || b.Null? then Ok(Null)
    else match op
      case Eq => Ok(Bool(SameValue(a, b)))
      case Ne => Ok(Bool(!SameValue(a, b)))
      case Lt => var l :- Less(a, b); Ok(Bool(l))
      case Gt => var l :- Less(b, a); Ok(Bool(l))
      case Le => if SameValue(a, b) then Ok(Bool(true)) else var l :- Less(a, b); Ok(Bool(l))
      case Ge => if SameValue(a, b) then Ok(Bool(true)) else var l :- Less(b, a); Ok(Bool(l))
  }

  /** What a `for item in value` loop sees: null counts as empty, a string yields its characters. */
  function Items(v: Value): Res<seq<Value>> {
    match v
    case Null => Ok([])
    case List(items) => Ok(items)
    case Str(s) => Ok(seq(|s|, i requires 0 <= i < |s| => Str([s[i]])))
    case _ => Err
  }

  predicate IsSpace(c: char) {
    c == ' ' || 9 <= c as int <= 13 || 28 <= c as int <= 31
  }

  predicate IsDigit(c: char) {
    '0' <= c <= '9'
  }

  function Strip(s: string): (t: string)
    ensures t != "" ==> !IsSpace(t[0]) && !IsSpace(t[|t| - 1])
  {
    if s == "" then s
    else if IsSpace(s[0]) then Strip(s[1..])
    else if IsSpace(s[|s| - 1]) then Strip(s[..|s| - 1])
    else s
  }

  /** Digits, between any two of them at most one underscore. */
  function ParseDigits(t: string): Option<nat> {
    if t == "" || !IsDigit(t[|t| - 1]) then None
    else
      var digit := t[|t| - 1] as int - '0' as int;
      if |t| == 1 then Some(digit)
      else
        var rest := ParseDigits(if t[|t| - 2] == '_' then t[..|t| - 2] else t[..|t| - 1]);
        if rest.None? then None else Some(10 * rest.value + digit)
  }

  /** `int(s)` of a text; None stands for the ValueError. */
  function ParseInt(s: string): Option<int> {
    var t := Strip(s);
    var signed := t != "" && (t[0] == '-' || t[0] == '+');
    var n := ParseDigits(if signed then t[1..] else t);
    if n.None? then None
    else
      var size: int := n.value;
      Some(if signed && t[0] == '-' then -size else size)
  }

  /** Digits, and underscores each between two digits. */
  ghost predicate IsNumeral(t: string) {
    && t != "" && IsDigit(t[0]) && IsDigit(t[|t| - 1])
    && (forall i :: 0 <= i < |t| ==> IsDigit(t[i]) || t[i] == '_')
    && (forall i :: 0 <= i < |t| - 1 ==> t[i] != '_' || t[i + 1] != '_')
  }

  /** The number the digits spell, underscores left out. */
  function Spelled(t: string): nat {
    if t == "" then 0
    else
      var c := t[|t| - 1];
      if IsDigit(c) then 10 * Spelled(t[..|t| - 1]) + (c as int - '0' as int) else Spelled(t[..|t| - 1])
  }

  lemma {:induction false} ParseDigitsMeaning(t: string)
    ensures ParseDigits(t) == if IsNumeral(t) then Some(Spelled(t)) else None
  {
    if t != "" && IsDigit(t[|t| - 1]) && |t| > 1 {
      var n := |t| - 1;
      var k := if t[n - 1] == '_' then n - 1 else n;
      ParseDigitsMeaning(t[..k]);
      NumeralStep(t, k);
      if k < n {
        assert t[..n][..n - 1] == t[..n - 1];
      }
    }
  }

  lemma NumeralStep(t: string, k: nat)
    requires |t| > 1 && IsDigit(t[|t| - 1]) && k == if t[|t| - 2] == '_' then |t| - 2 else |t| - 1
    ensures IsNumeral(t) <==> IsNumeral(t[..k])
  {
    var u := t[..k];
    if IsNumeral(u) {
      assert forall i :: 0 <= i < k ==> u[i] == t[i];
      assert !IsDigit('_');
    }
    if IsNumeral(t) {
      assert !IsDigit('_') && (k > 0 ==> t[k - 1] != '_');
    }
  }

  /** A blank, a tab or another separator that `strip` takes away. */
  predicate IsBlank(c: char) {
    c as int in {9, 10, 11, 12, 13, 28, 29, 30, 31, 32}
  }

  /** A number is read with blanks around it and one sign before it; without a numeral there is none. */
  lemma ParseMeaning(before: string, sign: string, t: string, after: string)
    requires forall i :: 0 <= i < |before| ==> IsBlank(before[i])
    requires forall i :: 0 <= i < |after| ==> IsBlank(after[i])
    requires sign == "" || sign == "+" || sign == "-"
    requires t != "" && t[0] !in "+-" && !IsBlank(t[0]) && !IsBlank(t[|t| - 1])
    ensures !IsNumeral(t) ==> ParseInt(before + sign + t + after) == None
    ensures IsNumeral(t) ==>
              var n: int := Spelled(t);
              ParseInt(before + sign + t + after) == Some(if sign == "-" then -n else n)
  {
    hide ParseDigits, IsNumeral, Spelled, ParseInt, Strip;
    var u := sign + t;
    assert before + sign + t + after == before + u + after;
    assert u[|u| - 1] == t[|t| - 1] && u[0] == if sign == "" then t[0] else sign[0];
    StripPadding(before, u, after);
    ParseSigned(before + u + after, sign, t);
  }

  lemma ParseSigned(s: string, sign: string, t: string)
    requires Strip(s) == sign + t && (sign == "" || sign == "+" || sign == "-") && t != "" && t[0] !in "+-"
    ensures !IsNumeral(t) ==> ParseInt(s) == None
    ensures IsNumeral(t) ==> var n: int := Spelled(t); ParseInt(s) == Some(if sign == "-" then -n else n)
  {
    hide ParseDigits, IsNumeral, Spelled, Strip;
    ParseDigitsMeaning(t);
    var u := sign + t;
    if sign == "" {
      assert u == t;
    } else {
      assert u[1..] == t;
    }
  }

  const DIGITS := "0123456789"

  /** A digit alone is its value, and a digit put after a number, with or without an underscore, makes it ten times. */
  lemma ParsesDigit(t: string, k: nat)
    requires k < 10 && t != "" && t[0] !in "+-" && !IsBlank(t[0]) && !IsBlank(t[|t| - 1])
    ensures ParseInt([DIGITS[k]]) == Some(k)
    ensures ParseInt(t).Some? ==> ParseInt(t + [DIGITS[k]]) == ParseInt(t + "_" + [DIGITS[k]])
                                 == Some(10 * ParseInt(t).value + k)
  {
    hide ParseInt, IsNumeral, Spelled;
    var c := DIGITS[k];
    assert IsDigit(c) && c as int == '0' as int + k;
    NumeralGrows(t, c);
    UnsignedMeaning([c]);
    UnsignedMeaning(t);
    UnsignedMeaning(t + [c]);
    UnsignedMeaning(t + "_" + [c]);
  }

  lemma UnsignedMeaning(t: string)
    requires t != "" && t[0] !in "+-" && !IsBlank(t[0]) && !IsBlank(t[|t| - 1])
    ensures ParseInt(t) == if IsNumeral(t) then Some(Spelled(t)) else None
  {
    hide ParseInt, IsNumeral, Spelled;
    ParseMeaning("", "", t, "");
    assert "" + "" + t + "" == t;
  }

  lemma NumeralGrows(t: string, c: char)
    requires t != "" && IsDigit(c)
    ensures IsNumeral([c]) && Spelled([c]) == c as int - '0' as int
    ensures IsNumeral(t) ==> IsNumeral(t + [c]) && IsNumeral(t + "_" + [c])
    ensures Spelled(t + [c]) == Spelled(t + "_" + [c]) == 10 * Spelled(t) + (c as int - '0' as int)
  {
    assert [c][..0] == "";
    var u, v, w := t + [c], t + "_", t + "_" + [c];
    assert u[..|u| - 1] == t && v[..|v| - 1] == t && w[..|w| - 1] == v;
    assert !IsDigit('_');
  }

  /** Nothing but blanks is no number. */
  lemma ParseBlank(s: string)
    requires forall i :: 0 <= i < |s| ==> IsBlank(s[i])
    ensures ParseInt(s) == None
  {
    StripBlank(s);
  }

  lemma {:induction false} StripBlank(s: string)
    requires forall i :: 0 <= i < |s| ==> IsBlank(s[i])
    ensures Strip(s) == ""
  {
    if s != "" {
      StripBlank(s[1..]);
    }
  }

  lemma {:induction false} StripPadding(before: string, t: string, after: string)
    requires forall i :: 0 <= i < |before| ==> IsSpace(before[i])
    requires forall i :: 0 <= i < |after| ==> IsSpace(after[i])
    requires t != "" && !IsSpace(t[0]) && !IsSpace(t[|t| - 1])
    ensures Strip(before + t + after) == t
    decreases |before| + |after|
  {
    var s := before + t + after;
    if before != "" {
      assert s[1..] == before[1..] + t + after;
      StripPadding(before[1..], t, after);
    } else if after != "" {
      assert s[..|s| - 1] == before + t + after[..|after| - 1];
      StripPadding(before, t, after[..|after| - 1]);
    } else {
      assert s == t;
    }
  }

  /** `int(v)`: null stays null; lists and text that is no number are refused. */
  function AsIndex(v: Value): Res<Option<int>> {
    if v.Null? then Ok(None)
    else if v.Numeric() then Ok(Some(v.AsInt()))
    else if v.Str? && ParseInt(v.s).Some? then Ok(ParseInt(v.s))
    else Err
  }

  /** A list position, counted from the end when negative. */
  function Position(n: nat, i: int): (r: Option<nat>)
    ensures r.Some? ==> r.value < n
    ensures r.Some? <==> 0 <= n + i && i < n
  {
    if 0 <= i < n then Some(i) else if 0 <= n + i < n then Some(n + i) else None
  }

  /** One row of an index lookup: out of range, or not indexable, gives null. */
  function IndexOne(coll: Value, idx: Value): Res<Value> {
    if coll.Null? || idx.Null? then Ok(Null)
    else if idx.List? then Ok(Null)
    else
      var i :- AsIndex(idx);
      match coll
      case List(xs) =>
        var k := Position(|xs|, i.value);
        Ok(if k.Some? then xs[k.value] else Null)
      case Str(s) =>
        var k := Position(|s|, i.value);
        Ok(if k.Some? then Str([s[k.value]]) else Null)
      case _ => Ok(Null)
  }

  /** Python's clamping of one slice bound against length n. */
  function Bound(b: Option<int>, n: nat, default: nat): (r: nat)
    requires default <= n
    ensures r <= n
  {
    match b
    case None => default
    case Some(i) => var k := if i < 0 then i + n else i; if k < 0 then 0 else if k > n then n else k
  }

  function Slice<T>(s: seq<T>, from: Option<int>, to: Option<int>): seq<T> {
    var a, b := Bound(from, |s|, 0), Bound(to, |s|, |s|);
    if a <= b then s[a..b] else []
  }

  function SliceOne(coll: Value, from: Value, to: Value): Res<Value> {
    if coll.Null? then Ok(Null)
    else
      var a :- AsIndex(from);
      var b :- AsIndex(to);
      match coll
      case Str(s) => Ok(Str(Slice(s, a, b)))
      case List(xs) => Ok(List(Slice(xs, a, b)))
      case _ => Ok(Null)
  }
}
