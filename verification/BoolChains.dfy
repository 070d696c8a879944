/** evaluate_bool_chain of boolean_evaluator.py: nulls filled with false, then Python's &, | and ^ over whole
    columns. */
module BoolChains {
  import opened Values
  import opened RowSemantics
  import opened QueryLaws

  // ---- The operators on integers ----

  predicate Gate(op: BoolOp, a: bool, b: bool) {
    match op
    case AndOp => a && b
    case OrOp => a || b
    case XorOp => a != b
  }

  function Magnitude(a: int): nat {
    if a < 0 then -a else a
  }

  /** Bitwise on two's complement integers of any width; 0 and -1 are the ones that stay the same when shifted. */
  function Bitwise(op: BoolOp, a: int, b: int): int
    decreases Magnitude(a) + Magnitude(b)
  {
    if -1 <= a <= 0 && -1 <= b <= 0 then (if Gate(op, a == -1, b == -1) then -1 else 0)
    else 2 * Bitwise(op, a / 2, b / 2) + (if Gate(op, a % 2 == 1, b % 2 == 1) then 1 else 0)
  }

  /** Bit k, counted from the least significant. */
  predicate Bit(a: int, k: nat)
    decreases k
  {
    if k == 0 then a % 2 == 1 else Bit(a / 2, k - 1)
  }

  lemma HalfOfBitwise(op: BoolOp, a: int, b: int)
    ensures Bitwise(op, a, b) / 2 == Bitwise(op, a / 2, b / 2)
    ensures Bitwise(op, a, b) % 2 == 1 <==> Gate(op, a % 2 == 1, b % 2 == 1)
  {
    hide Gate;
    if -1 <= a <= 0 && -1 <= b <= 0 {
      assert a / 2 == a && b / 2 == b;
    }
  }

  /** Each bit of the result is the operator on the bits. */
  lemma {:induction false} BitwiseAt(op: BoolOp, a: int, b: int, k: nat)
    ensures Bit(Bitwise(op, a, b), k) <==> Gate(op, Bit(a, k), Bit(b, k))
    decreases k
  {
    hide Bitwise, Gate;
    HalfOfBitwise(op, a, b);
    if k > 0 {
      BitwiseAt(op, a / 2, b / 2, k - 1);
    }
  }

  lemma {:induction false} SameBits(a: int, k: nat)
    requires -1 <= a <= 0
    ensures Bit(a, k) <==> a == -1
  {
    if k > 0 {
      SameBits(a, k - 1);
    }
  }

  lemma {:induction false} SomeBit(a: int) returns (k: nat)
    requires a != 0
    ensures Bit(a, k)
    decreases Magnitude(a)
  {
    if a % 2 == 1 {
      k := 0;
    } else {
      var j := SomeBit(a / 2);
      k := j + 1;
    }
  }

  ghost predicate HasBit(a: int) {
    exists k: nat :: Bit(a, k)
  }

  /** A number is not zero exactly when some bit is set. */
  lemma NonZeroHasBit(a: int)
    ensures a != 0 <==> HasBit(a)
  {
    if a != 0 {
      var k := SomeBit(a);
    } else if HasBit(a) {
      var k: nat :| Bit(a, k);
      SameBits(0, k);
    }
  }

  // ---- The chain ----

  /** One cell of an operand, and whether its column is stored as integers (a column with nulls is not). */
  datatype Operand = Operand(value: Value, ints: bool) {
    predicate Valid() {
      ints ==> value.Int?
    }

    /** A null counts as false and a boolean as 0 or 1. */
    function Number(): int {
      if value.Numeric() then value.AsInt() else 0
    }

    predicate Refused() {
      value.Str? || value.List?
    }
  }

  /** `series.fillna(False)`. */
  function Filled(x: Operand): Operand {
    if x.value.Null? then Operand(Bool(false), false) else x
  }

  /** One operator on two cells: integer columns combine bitwise, anything else becomes a truth value; text and lists
      raise. */
  function Combine(op: BoolOp, a: Operand, b: Operand): Res<Operand> {
    if !a.value.Numeric() || !b.value.Numeric() then Err
    else
      var n := Bitwise(op, a.value.AsInt(), b.value.AsInt());
      Ok(if a.ints && b.ints then Operand(Int(n), true) else Operand(Bool(n != 0), false))
  }

  /** evaluate_bool_chain on one row. */
  function ChainFold(op: BoolOp, xs: seq<Operand>): Res<Operand> {
    if xs == [] then Ok(Operand(Bool(op.AndOp?), false))
    else if |xs| == 1 then Ok(Filled(xs[0]))
    else
      var a :- ChainFold(op, xs[..|xs| - 1]);
      Combine(op, a, Filled(xs[|xs| - 1]))
  }

  /** A stored column. */
  datatype Series = Series(cells: seq<Value>, ints: bool)

  ghost predicate Stored(s: Series) {
    s.ints ==> forall i :: 0 <= i < |s.cells| ==> s.cells[i].Int?
  }

  function RowOf(columns: seq<Series>, i: nat): (r: seq<Operand>)
    requires forall c :: 0 <= c < |columns| ==> i < |columns[c].cells|
    ensures |r| == |columns|
    ensures forall c :: 0 <= c < |columns| ==> r[c] == Operand(columns[c].cells[i], columns[c].ints)
  {
    seq(|columns|, c requires 0 <= c < |columns| => Operand(columns[c].cells[i], columns[c].ints))
  }

  function FillColumn(s: Series): (r: Series)
    ensures |r.cells| == |s.cells| && r.ints == s.ints
    ensures forall i :: 0 <= i < |s.cells| ==> r.cells[i] == if s.cells[i].Null? then Bool(false) else s.cells[i]
  {
    Series(seq(|s.cells|, i requires 0 <= i < |s.cells| => if s.cells[i].Null? then Bool(false) else s.cells[i]),
           s.ints)
  }

  predicate AllNumeric(vs: seq<Value>) {
    forall i :: 0 <= i < |vs| ==> vs[i].Numeric()
  }

  function CombineCells(op: BoolOp, a: Series, b: Series): (r: Series)
    requires |a.cells| == |b.cells| && AllNumeric(a.cells) && AllNumeric(b.cells)
    ensures |r.cells| == |a.cells| && r.ints == (a.ints && b.ints)
    ensures forall i :: 0 <= i < |a.cells| ==>
              Combine(op, Operand(a.cells[i], a.ints), Operand(b.cells[i], b.ints)) == Ok(Operand(r.cells[i], r.ints))
  {
    Series(seq(|a.cells|, i requires 0 <= i < |a.cells| =>
      Combine(op, Operand(a.cells[i], a.ints), Operand(b.cells[i], b.ints)).value.value), a.ints && b.ints)
  }

  /** The result column and its storage are those of every row's own chain; a row that fails fails the column. */
  ghost predicate ChainsEachRow(op: BoolOp, columns: seq<Series>, n: nat, result: Series)
    requires forall c :: 0 <= c < |columns| ==> |columns[c].cells| == n
  {
    && |result.cells| == n
    && forall i :: 0 <= i < n ==> ChainFold(op, RowOf(columns, i)) == Ok(Operand(result.cells[i], result.ints))
  }

  lemma NextColumn(op: BoolOp, columns: seq<Series>, k: nat, n: nat, i: nat)
    requires 0 < k < |columns| && i < n && forall c :: 0 <= c < |columns| ==> |columns[c].cells| == n
    ensures ChainFold(op, RowOf(columns[..k], i)).Ok? ==>
              ChainFold(op, RowOf(columns[..k + 1], i))
              == Combine(op, ChainFold(op, RowOf(columns[..k], i)).value, Filled(RowOf(columns, i)[k]))
  {
    hide Combine, Filled;
    var row := RowOf(columns[..k + 1], i);
    assert row[..k] == RowOf(columns[..k], i);
  }

  lemma {:induction false} FailureStays(op: BoolOp, xs: seq<Operand>, k: nat)
    requires 0 < k <= |xs| && ChainFold(op, xs[..k]).Err?
    ensures ChainFold(op, xs).Err?
    decreases |xs|
  {
    if k == |xs| {
      assert xs[..k] == xs;
    } else {
      assert xs[..|xs| - 1][..k] == xs[..k];
      FailureStays(op, xs[..|xs| - 1], k);
    }
  }

  lemma RowFails(op: BoolOp, columns: seq<Series>, k: nat, n: nat, i: nat, a: Operand)
    requires 0 < k < |columns| && i < n && forall c :: 0 <= c < |columns| ==> |columns[c].cells| == n
    requires ChainFold(op, RowOf(columns[..k], i)) == Ok(a)
    requires !a.value.Numeric() || !Filled(RowOf(columns, i)[k]).value.Numeric()
    ensures ChainFold(op, RowOf(columns, i)).Err?
  {
    hide ChainFold, Combine, Filled;
    NextColumn(op, columns, k, n, i);
    Refuses(op, a, Filled(RowOf(columns, i)[k]));
    assert RowOf(columns, i)[..k + 1] == RowOf(columns[..k + 1], i);
    FailureStays(op, RowOf(columns, i), k + 1);
  }

  method EvaluateBoolChain(op: BoolOp, columns: seq<Series>, n: nat) returns (r: Res<Series>)
    requires forall c :: 0 <= c < |columns| ==> |columns[c].cells| == n
    requires forall c :: 0 <= c < |columns| ==> Stored(columns[c])
    ensures r.Ok? ==> ChainsEachRow(op, columns, n, r.value)
    ensures r.Err? ==> exists i :: 0 <= i < n && ChainFold(op, RowOf(columns, i)).Err?
  {
    hide Combine, ChainFold;
    if columns == [] {
      r := Ok(Series(seq(n, i => Bool(op.AndOp?)), false));
      EmptyRow(op);
      assert forall i :: 0 <= i < n ==> RowOf(columns, i) == [];
      return;
    }
    var result := FillColumn(columns[0]);
    forall i | 0 <= i < n
      ensures ChainFold(op, RowOf(columns[..1], i)) == Ok(Operand(result.cells[i], result.ints))
    {
      FirstCell(op, RowOf(columns[..1], i));
    }
    for k := 1 to |columns|
      invariant ChainsEachRow(op, columns[..k], n, result)
    {
      var operand := FillColumn(columns[k]);
      if !AllNumeric(result.cells) || !AllNumeric(operand.cells) {
        var i :| 0 <= i < n && (!result.cells[i].Numeric() || !operand.cells[i].Numeric());
        RowFails(op, columns, k, n, i, Operand(result.cells[i], result.ints));
        return Err;
      }
      forall i | 0 <= i < n
        ensures ChainFold(op, RowOf(columns[..k + 1], i))
                == Combine(op, Operand(result.cells[i], result.ints), Operand(operand.cells[i], operand.ints))
      {
        NextColumn(op, columns, k, n, i);
      }
      result := CombineCells(op, result, operand);
    }
    assert columns[..|columns|] == columns;
    r := Ok(result);
  }

  lemma EmptyRow(op: BoolOp)
    ensures ChainFold(op, []) == Ok(Operand(Bool(op.AndOp?), false))
  {}

  lemma FirstCell(op: BoolOp, xs: seq<Operand>)
    requires |xs| == 1
    ensures ChainFold(op, xs) == Ok(Filled(xs[0]))
  {}

  lemma Refuses(op: BoolOp, a: Operand, b: Operand)
    requires !a.value.Numeric() || !b.value.Numeric()
    ensures Combine(op, a, b).Err?
  {}

  // ---- What a chain of booleans, nulls and integers keeps ----

  predicate Clean(xs: seq<Operand>) {
    forall i :: 0 <= i < |xs| ==> xs[i].Valid() && !xs[i].Refused()
  }

  predicate AllInts(xs: seq<Operand>) {
    forall i :: 0 <= i < |xs| ==> xs[i].ints
  }

  /** These operands are combined bit by bit: the first two, and every one that follows integer columns alone. */
  predicate BitByBit(xs: seq<Operand>) {
    |xs| <= 2 || AllInts(xs[..|xs| - 1])
  }

  /** Bit k of a left fold of the numbers. */
  predicate FoldedBit(op: BoolOp, xs: seq<Operand>, k: nat)
    requires xs != []
  {
    if |xs| == 1 then Bit(xs[0].Number(), k)
    else Gate(op, FoldedBit(op, xs[..|xs| - 1], k), Bit(xs[|xs| - 1].Number(), k))
  }

  ghost predicate SomeFoldedBit(op: BoolOp, xs: seq<Operand>)
    requires xs != []
  {
    exists k: nat :: FoldedBit(op, xs, k)
  }

  lemma CombineBits(op: BoolOp, a: Operand, b: Operand, k: nat)
    requires a.value.Numeric() && b.value.Numeric() && a.Valid() && b.Valid()
    ensures Combine(op, a, b).Ok? && Combine(op, a, b).value.Valid()
    ensures var r := Combine(op, a, b).value;
            && r.ints == (a.ints && b.ints) && (if r.ints then r.value.Int? else r.value.Bool?)
            && (r.ints ==> (Bit(r.Number(), k) <==> Gate(op, Bit(a.Number(), k), Bit(b.Number(), k))))
  {
    hide Bitwise, Bit, Gate;
    BitwiseAt(op, a.Number(), b.Number(), k);
  }

  lemma CombineTruth(op: BoolOp, a: Operand, b: Operand)
    requires a.value.Numeric() && b.value.Numeric()
    ensures Combine(op, a, b).Ok?
    ensures Truthy(Combine(op, a, b).value.value) <==> Bitwise(op, a.Number(), b.Number()) != 0
  {
    hide Bitwise;
  }

  lemma FilledNumber(x: Operand)
    requires x.Valid() && !x.Refused()
    ensures Filled(x).Number() == x.Number() && Filled(x).ints == x.ints && Filled(x).value.Numeric()
            && Filled(x).Valid()
    ensures x.Number() != 0 <==> Truthy(x.value)
  {}

  /** Integer columns keep their bits through the chain. */
  lemma {:induction false} IntegerBits(op: BoolOp, xs: seq<Operand>, k: nat)
    requires Clean(xs) && xs != [] && (|xs| == 1 || AllInts(xs))
    ensures ChainFold(op, xs).Ok?
    ensures var r := ChainFold(op, xs).value;
            r.value.Numeric() && r.Valid() && r.ints == AllInts(xs) && (Bit(r.Number(), k) <==> FoldedBit(op, xs, k))
  {
    hide Combine, Bit, Gate, Filled, Bitwise;
    FilledNumber(xs[|xs| - 1]);
    if |xs| > 1 {
      var init := xs[..|xs| - 1];
      IntegerBits(op, init, k);
      CombineBits(op, ChainFold(op, init).value, Filled(xs[|xs| - 1]), k);
    }
  }

  lemma {:induction false} BitByBitTruth(op: BoolOp, xs: seq<Operand>)
    requires Clean(xs) && |xs| >= 2 && BitByBit(xs)
    ensures ChainFold(op, xs).Ok?
    ensures Truthy(ChainFold(op, xs).value.value) <==> SomeFoldedBit(op, xs)
  {
    hide Combine, Bit, Gate, Filled, Bitwise, Clean;
    var init, last := xs[..|xs| - 1], xs[|xs| - 1];
    CleanInit(xs);
    FilledNumber(last);
    IntegerBits(op, init, 0);
    var a := ChainFold(op, init).value;
    CombineTruth(op, a, Filled(last));
    var n := Bitwise(op, a.Number(), last.Number());
    NonZeroHasBit(n);
    forall k: nat
      ensures Bit(n, k) <==> FoldedBit(op, xs, k)
    {
      IntegerBits(op, init, k);
      BitwiseAt(op, a.Number(), last.Number(), k);
    }
  }

  lemma CleanInit(xs: seq<Operand>)
    requires Clean(xs) && xs != []
    ensures Clean(xs[..|xs| - 1]) && xs[|xs| - 1].Valid() && !xs[|xs| - 1].Refused()
  {}

  /** What one more operand does to a truth value, or to anything at all under OR and XOR. */
  lemma OrNonZero(a: int, b: int)
    ensures Bitwise(OrOp, a, b) != 0 <==> a != 0 || b != 0
  {
    hide Bitwise, Bit;
    var n := Bitwise(OrOp, a, b);
    NonZeroHasBit(a);
    NonZeroHasBit(b);
    NonZeroHasBit(n);
    forall k: nat
      ensures Bit(n, k) <==> Bit(a, k) || Bit(b, k)
    {
      BitwiseAt(OrOp, a, b, k);
    }
  }

  lemma {:induction false} XorNonZero(a: int, b: int)
    ensures Bitwise(XorOp, a, b) != 0 <==> a != b
    decreases Magnitude(a) + Magnitude(b)
  {
    if !(-1 <= a <= 0 && -1 <= b <= 0) {
      XorNonZero(a / 2, b / 2);
    }
  }

  lemma {:induction false} ZeroAnd(b: int)
    ensures Bitwise(AndOp, 0, b) == 0
    decreases Magnitude(b)
  {
    if !(-1 <= b <= 0) {
      ZeroAnd(b / 2);
    }
  }

  lemma TruthAnd(a: int, b: int)
    requires 0 <= a <= 1
    ensures Bitwise(AndOp, a, b) != 0 <==> a == 1 && Bit(b, 0)
  {
    ZeroAnd(b);
    ZeroAnd(b / 2);
  }

  lemma {:induction false} ChainKind(op: BoolOp, xs: seq<Operand>)
    requires Clean(xs) && xs != []
    ensures ChainFold(op, xs).Ok?
    ensures var r := ChainFold(op, xs).value;
            && r.Valid() && r.value.Numeric() && r.ints == AllInts(xs)
            && (|xs| > 1 && !AllInts(xs) ==> r.value.Bool?)
  {
    hide Combine, Filled, Bitwise, Clean;
    var last := xs[|xs| - 1];
    CleanInit(xs);
    FilledNumber(last);
    if |xs| > 1 {
      var init := xs[..|xs| - 1];
      ChainKind(op, init);
      CombineBits(op, ChainFold(op, init).value, Filled(last), 0);
    }
  }

  /** The last step of a chain of three or more whose earlier operands are not all integer columns. */
  lemma StepTruth(op: BoolOp, xs: seq<Operand>) returns (b: bool)
    requires Clean(xs) && |xs| >= 2 && !BitByBit(xs)
    ensures ChainFold(op, xs).Ok? && ChainFold(op, xs[..|xs| - 1]).Ok?
    ensures b == Truthy(ChainFold(op, xs[..|xs| - 1]).value.value)
    ensures Truthy(ChainFold(op, xs).value.value) <==> Bitwise(op, if b then 1 else 0, xs[|xs| - 1].Number()) != 0
  {
    hide Combine, Filled, Bitwise, Clean;
    var init, last := xs[..|xs| - 1], xs[|xs| - 1];
    CleanInit(xs);
    FilledNumber(last);
    ChainKind(op, init);
    var a := ChainFold(op, init).value;
    b := a.value.b;
    CombineTruth(op, a, Filled(last));
  }

  /** OR keeps a row exactly when some operand is true, integers and all. */
  lemma {:induction false} OrChain(xs: seq<Operand>)
    requires Clean(xs) && xs != []
    ensures ChainFold(OrOp, xs).Ok?
    ensures Truthy(ChainFold(OrOp, xs).value.value) <==> exists i :: 0 <= i < |xs| && Truthy(xs[i].value)
  {
    hide Combine, Filled, Bitwise, Clean, Truthy;
    var last := xs[|xs| - 1];
    CleanInit(xs);
    FilledNumber(last);
    if |xs| == 1 {
      FilledTruth(last);
    } else {
      var init := xs[..|xs| - 1];
      OrChain(init);
      ChainKind(OrOp, init);
      var a := ChainFold(OrOp, init).value;
      FilledNumber(a);
      CombineTruth(OrOp, a, Filled(last));
      OrNonZero(a.Number(), last.Number());
    }
  }

  lemma FilledTruth(x: Operand)
    ensures Truthy(Filled(x).value) <==> Truthy(x.value)
  {}

  /** How many operands take part bit by bit. */
  function BitByBitLength(xs: seq<Operand>): (h: nat)
    ensures h <= |xs| && (|xs| >= 2 ==> h >= 2)
  {
    if BitByBit(xs) then |xs| else BitByBitLength(xs[..|xs| - 1])
  }

  /** A bit that is set in all of them. */
  ghost predicate ShareBit(xs: seq<Operand>) {
    exists k: nat :: SetInAll(xs, k)
  }

  predicate SetInAll(xs: seq<Operand>, k: nat) {
    forall i :: 0 <= i < |xs| ==> Bit(xs[i].Number(), k)
  }

  lemma {:induction false} FoldedAnd(xs: seq<Operand>, k: nat)
    requires xs != []
    ensures FoldedBit(AndOp, xs, k) <==> SetInAll(xs, k)
  {
    hide Bit;
    if |xs| > 1 {
      FoldedAnd(xs[..|xs| - 1], k);
    }
  }

  ghost predicate AndKeeps(xs: seq<Operand>) {
    var h := BitByBitLength(xs);
    ShareBit(xs[..h]) && forall i :: h <= i < |xs| ==> Bit(xs[i].Number(), 0)
  }

  /** AND keeps a row exactly when the operands combined bit by bit share a set bit and the others are odd. */
  lemma {:induction false} AndChain(xs: seq<Operand>)
    requires Clean(xs) && |xs| >= 2
    ensures ChainFold(AndOp, xs).Ok?
    ensures Truthy(ChainFold(AndOp, xs).value.value) <==> AndKeeps(xs)
  {
    hide ChainFold, Bit, Bitwise, Clean, Truthy, SetInAll;
    if BitByBit(xs) {
      BitByBitTruth(AndOp, xs);
      assert xs[..|xs|] == xs;
      forall k: nat
        ensures FoldedBit(AndOp, xs, k) <==> SetInAll(xs, k)
      {
        FoldedAnd(xs, k);
      }
    } else {
      var init := xs[..|xs| - 1];
      CleanInit(xs);
      AndChain(init);
      var b := StepTruth(AndOp, xs);
      TruthAnd(if b then 1 else 0, xs[|xs| - 1].Number());
      var h := BitByBitLength(xs);
      assert init[..h] == xs[..h];
    }
  }

  function Cells(xs: seq<Operand>): (r: seq<Value>)
    ensures |r| == |xs| && forall i :: 0 <= i < |xs| ==> r[i] == xs[i].value
  {
    seq(|xs|, i requires 0 <= i < |xs| => xs[i].value)
  }

  /** An odd number of operands is true. */
  predicate OddlyTrue(xs: seq<Operand>) {
    CountTrue(Cells(xs)) % 2 == 1
  }

  lemma OddlyTrueLast(xs: seq<Operand>, x: Operand)
    ensures OddlyTrue(xs + [x]) <==> OddlyTrue(xs) != Truthy(x.value)
  {
    assert Cells(xs + [x])[..|xs|] == Cells(xs);
  }

  lemma {:induction false} OddlyTrueSplit(xs: seq<Operand>, ys: seq<Operand>)
    ensures OddlyTrue(xs + ys) <==> OddlyTrue(xs) != OddlyTrue(ys)
  {
    hide OddlyTrue;
    if ys == [] {
      assert xs + ys == xs;
      assert !OddlyTrue(ys) by { NothingTrue(ys); }
    } else {
      var init, last := ys[..|ys| - 1], ys[|ys| - 1];
      OddlyTrueSplit(xs, init);
      OddlyTrueLast(xs + init, last);
      OddlyTrueLast(init, last);
      assert xs + ys == xs + init + [last] && ys == init + [last];
    }
  }

  lemma NothingTrue(xs: seq<Operand>)
    requires xs == []
    ensures !OddlyTrue(xs)
  {}

  /** Neither 0 nor 1. */
  predicate Wide(x: Operand) {
    !(0 <= x.Number() <= 1)
  }

  /** The last operand after which an XOR chain only counts true operands. */
  function Settled(xs: seq<Operand>): (w: nat)
    requires |xs| >= 2
    ensures 1 <= w < |xs|
  {
    if BitByBit(xs) || Wide(xs[|xs| - 1]) then |xs| - 1 else Settled(xs[..|xs| - 1])
  }

  /** A bit that is set in an odd number of them. */
  ghost predicate OddBit(xs: seq<Operand>) {
    exists k: nat :: SetInOdd(xs, k)
  }

  predicate SetInOdd(xs: seq<Operand>, k: nat) {
    xs != [] && (SetInOdd(xs[..|xs| - 1], k) != Bit(xs[|xs| - 1].Number(), k))
  }

  lemma {:induction false} FoldedXor(xs: seq<Operand>, k: nat)
    requires xs != []
    ensures FoldedBit(XorOp, xs, k) <==> SetInOdd(xs, k)
  {
    hide Bit;
    if |xs| > 1 {
      FoldedXor(xs[..|xs| - 1], k);
    } else {
      assert !SetInOdd(xs[..0], k);
    }
  }

  /** Operands combined bit by bit leave a bit; a wide one always leaves true. */
  ghost predicate Fixed(xs: seq<Operand>) {
    BitByBit(xs) ==> OddBit(xs)
  }

  ghost predicate XorKeeps(xs: seq<Operand>)
    requires |xs| >= 2
  {
    var w := Settled(xs);
    Fixed(xs[..w + 1]) != OddlyTrue(xs[w + 1..])
  }

  /** XOR keeps a row by the bits of the operands up to the last that settles them, and by the parity of those after. */
  lemma {:induction false} XorChain(xs: seq<Operand>)
    requires Clean(xs) && |xs| >= 2
    ensures ChainFold(XorOp, xs).Ok?
    ensures Truthy(ChainFold(XorOp, xs).value.value) <==> XorKeeps(xs)
  {
    hide ChainFold, Bit, Bitwise, Clean, Truthy, OddlyTrue, SetInOdd;
    var init, last := xs[..|xs| - 1], xs[|xs| - 1];
    var w := Settled(xs);
    CleanInit(xs);
    FilledNumber(last);
    if w == |xs| - 1 {
      assert xs[..w + 1] == xs && xs[w + 1..] == [];
      NothingTrue([]);
    }
    if BitByBit(xs) {
      BitByBitTruth(XorOp, xs);
      forall k: nat
        ensures FoldedBit(XorOp, xs, k) <==> SetInOdd(xs, k)
      {
        FoldedXor(xs, k);
      }
    } else {
      var b := StepTruth(XorOp, xs);
      XorNonZero(if b then 1 else 0, last.Number());
      if !Wide(last) {
        XorChain(init);
        assert init[..w + 1] == xs[..w + 1];
        assert xs[w + 1..] == init[w + 1..] + [last];
        OddlyTrueLast(init[w + 1..], last);
      }
    }
  }

  lemma {:induction false} RefusedIff(op: BoolOp, xs: seq<Operand>)
    requires forall i :: 0 <= i < |xs| ==> xs[i].Valid()
    ensures ChainFold(op, xs).Err? <==> |xs| > 1 && !Clean(xs)
  {
    hide Combine, Bitwise;
    if |xs| > 1 {
      var init, last := xs[..|xs| - 1], xs[|xs| - 1];
      RefusedIff(op, init);
      assert Clean(xs) <==> Clean(init) && !last.Refused();
      if Clean(xs) {
        ChainKind(op, xs);
      } else if Clean(init) {
        ChainKind(op, init);
        Refuses(op, ChainFold(op, init).value, Filled(last));
      } else if |init| == 1 {
        Refuses(op, ChainFold(op, init).value, Filled(last));
      }
    }
  }

  predicate NoNull(xs: seq<Operand>) {
    forall i :: 0 <= i < |xs| ==> !xs[i].value.Null?
  }

  predicate AllTrue(xs: seq<Operand>) {
    forall i :: 0 <= i < |xs| ==> Truthy(xs[i].value)
  }

  /** What a chain of two or more must satisfy to keep the rows that the Kleene chain keeps. */
  ghost predicate Agreeable(op: BoolOp, xs: seq<Operand>)
    requires |xs| >= 2
  {
    match op
    case AndOp => !AllTrue(xs) || AndKeeps(xs)
    case OrOp => true
    case XorOp =>
      var w := Settled(xs);
      Fixed(xs[..w + 1]) == OddlyTrue(if NoNull(xs) then xs[..w + 1] else xs[w + 1..])
  }

  lemma KleeneTruth(op: BoolOp, xs: seq<Operand>)
    requires |xs| >= 2
    ensures Truthy(KleeneFold(op, Cells(xs)))
            <==> match op
                 case AndOp => AllTrue(xs)
                 case OrOp => exists i :: 0 <= i < |xs| && Truthy(xs[i].value)
                 case XorOp => NoNull(xs) && OddlyTrue(xs)
  {
    hide KleeneFold;
    var vs := Cells(xs);
    match op
    case AndOp => AndMeaning(vs);
    case OrOp => OrMeaning(vs);
    case XorOp => XorMeaning(vs);
  }

  lemma ShortChain(op: BoolOp, xs: seq<Operand>)
    requires |xs| <= 1
    ensures ChainFold(op, xs).Ok? && Truthy(ChainFold(op, xs).value.value) == Truthy(KleeneFold(op, Cells(xs)))
  {}

  lemma KeptAreTrue(xs: seq<Operand>)
    requires Clean(xs) && AndKeeps(xs)
    ensures AllTrue(xs)
  {
    hide Bit, Truthy, Clean, BitByBitLength;
    var h := BitByBitLength(xs);
    var k: nat :| SetInAll(xs[..h], k);
    forall i | 0 <= i < |xs|
      ensures Truthy(xs[i].value)
    {
      assert i < h ==> xs[..h][i] == xs[i];
      assert Bit(xs[i].Number(), k) || Bit(xs[i].Number(), 0);
      NonZeroHasBit(xs[i].Number());
      CleanAt(xs, i);
      FilledNumber(xs[i]);
    }
  }

  lemma CleanAt(xs: seq<Operand>, i: nat)
    requires Clean(xs) && i < |xs|
    ensures xs[i].Valid() && !xs[i].Refused()
  {}

  /** The chain raises exactly on text or lists among two or more operands; otherwise it keeps the rows that the Kleene
      chain keeps exactly when it is a single operand, an OR, an AND with a false operand or of bits in common, or an
      XOR whose settled bits have the parity of its true operands. */
  lemma ChainAgreesIff(op: BoolOp, xs: seq<Operand>)
    requires forall i :: 0 <= i < |xs| ==> xs[i].Valid()
    ensures ChainFold(op, xs).Err? <==> |xs| > 1 && exists i :: 0 <= i < |xs| && xs[i].Refused()
    ensures ChainFold(op, xs).Ok? ==>
              (Truthy(ChainFold(op, xs).value.value) == Truthy(KleeneFold(op, Cells(xs)))
               <==> |xs| <= 1 || Agreeable(op, xs))
  {
    hide ChainFold, KleeneFold, Truthy, BitByBitLength, Settled, Fixed, OddlyTrue;
    RefusedIff(op, xs);
    if |xs| <= 1 {
      ShortChain(op, xs);
    } else if Clean(xs) {
      KleeneTruth(op, xs);
      match op
      case AndOp =>
        AndChain(xs);
        if AndKeeps(xs) {
          KeptAreTrue(xs);
        }
      case OrOp =>
        OrChain(xs);
      case XorOp =>
        XorChain(xs);
        var w := Settled(xs);
        OddlyTrueSplit(xs[..w + 1], xs[w + 1..]);
        assert xs == xs[..w + 1] + xs[w + 1..];
    }
  }

  /** Over booleans and nulls AND and OR always agree, and XOR unless nulls meet an odd number of true operands. */
  lemma TruthValueChains(op: BoolOp, xs: seq<Operand>)
    requires forall i :: 0 <= i < |xs| ==> !xs[i].ints && (xs[i].value.Null? || xs[i].value.Bool?)
    ensures ChainFold(op, xs).Ok?
    ensures Truthy(ChainFold(op, xs).value.value) == Truthy(KleeneFold(op, Cells(xs)))
            <==> !op.XorOp? || |xs| <= 1 || NoNull(xs) || !OddlyTrue(xs)
  {
    hide ChainFold, KleeneFold, Truthy, AndKeeps, Fixed, OddlyTrue;
    ChainAgreesIff(op, xs);
    if |xs| >= 2 && op.AndOp? && AllTrue(xs) {
      AllOdd(xs);
    }
    if |xs| >= 2 && op.XorOp? {
      NarrowSettles(xs);
      FixedByTwo(xs[0], xs[1]);
      assert xs[..2] == [xs[0], xs[1]] && xs == xs[..2] + xs[2..];
      OddlyTrueSplit(xs[..2], xs[2..]);
    }
  }

  lemma AllOdd(xs: seq<Operand>)
    requires AllTrue(xs) && forall i :: 0 <= i < |xs| ==> xs[i].value.Null? || xs[i].value.Bool?
    ensures AndKeeps(xs)
  {
    hide BitByBitLength;
    var h := BitByBitLength(xs);
    assert forall i :: 0 <= i < |xs| ==> xs[i].Number() == 1;
    assert SetInAll(xs[..h], 0);
  }

  lemma {:induction false} NarrowSettles(xs: seq<Operand>)
    requires |xs| >= 2 && forall i :: 0 <= i < |xs| ==> !xs[i].ints && !Wide(xs[i])
    ensures Settled(xs) == 1
  {
    if |xs| > 2 {
      assert !xs[..|xs| - 1][0].ints;
      NarrowSettles(xs[..|xs| - 1]);
    }
  }

  lemma SetInOddLast(xs: seq<Operand>, x: Operand, k: nat)
    ensures SetInOdd(xs + [x], k) <==> SetInOdd(xs, k) != Bit(x.Number(), k)
  {
    assert (xs + [x])[..|xs|] == xs;
  }

  lemma FixedByTwo(x: Operand, y: Operand)
    requires (x.value.Null? || x.value.Bool?) && (y.value.Null? || y.value.Bool?)
    ensures Fixed([x, y]) == OddlyTrue([x, y])
  {
    hide Bitwise, Bit, OddlyTrue;
    OddlyTrueLast([], x);
    OddlyTrueLast([x], y);
    NothingTrue([]);
    assert [] + [x] == [x] && [x] + [y] == [x, y];
    forall k: nat
      ensures SetInOdd([x, y], k) <==> Bit(x.Number(), k) != Bit(y.Number(), k)
    {
      SetInOddLast([], x, k);
      SetInOddLast([x], y, k);
      assert !SetInOdd([], k);
    }
    if x.Number() != y.Number() {
      assert Bit(1, 0) && !Bit(0, 0) by { OneBit(); }
      assert SetInOdd([x, y], 0);
    }
  }

  lemma OneBit()
    ensures Bit(1, 0) && !Bit(0, 0)
  {}

  /** Over integer columns AND agrees exactly when some operand is zero or all share a bit, and XOR exactly when a bit
      is set in an odd number of operands just if an odd number is not zero. */
  lemma IntegerChains(op: BoolOp, xs: seq<Operand>)
    requires |xs| >= 2 && forall i :: 0 <= i < |xs| ==> xs[i].ints && xs[i].value.Int?
    ensures ChainFold(op, xs).Ok?
    ensures Truthy(ChainFold(op, xs).value.value) == Truthy(KleeneFold(op, Cells(xs)))
            <==> match op
                 case AndOp => (exists i :: 0 <= i < |xs| && xs[i].value.n == 0) || ShareBit(xs)
                 case OrOp => true
                 case XorOp => OddBit(xs) == OddlyTrue(xs)
  {
    hide ChainFold, KleeneFold, OddlyTrue, OddBit, ShareBit, Bit;
    ChainAgreesIff(op, xs);
    assert BitByBit(xs) && xs[..|xs|] == xs;
    assert NoNull(xs);
  }

  /** 1 AND 2 drops a row that the Kleene chain keeps; 1 XOR 3 keeps one that it drops. */
  lemma IntegerExamples()
    ensures var one, two, three := Operand(Int(1), true), Operand(Int(2), true), Operand(Int(3), true);
            && ChainFold(AndOp, [one, two]) == Ok(Operand(Int(0), true))
            && KleeneFold(AndOp, [Int(1), Int(2)]) == Bool(true)
            && ChainFold(XorOp, [one, three]) == Ok(Operand(Int(2), true))
            && KleeneFold(XorOp, [Int(1), Int(3)]) == Bool(false)
  {
    var one, two, three := Operand(Int(1), true), Operand(Int(2), true), Operand(Int(3), true);
    assert [one, two][..1] == [one] && [one, three][..1] == [one];
    assert [Int(1), Int(2)][..1] == [Int(1)] && [Int(1), Int(3)][..1] == [Int(1)];
    assert Bitwise(AndOp, 0, 1) == 0 && Bitwise(XorOp, 0, 1) == 1;
  }
}
