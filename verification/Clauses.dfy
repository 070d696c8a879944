/** UNWIND and UNION of clause_executor.py. */
module Clauses {
  import opened Values
  import opened RowSemantics
  import opened ColumnSpec
  import opened Exploding
  import opened Aggregates
  import opened Grouping
  import RowMeaning
  import AggregateMeaning
  import ColumnEvaluator

  // ---- UNWIND ----

  /** What explode makes of one cell: an empty list becomes a null row, anything but a list is a row of its own. */
  function Exploded(v: Value): seq<Value> {
    if !v.List? then [v] else if v.items == [] then [Null] else v.items
  }

  /** What one row unwinds to: its list's non-null elements, a non-list value itself, nothing for null. */
  function Unwound(v: Value): seq<Value> {
    if v.List? then DropNa(v.items) else if v.Null? then [] else [v]
  }

  lemma UnwoundIs(v: Value)
    ensures DropNa(Exploded(v)) == Unwound(v)
  {
    if !v.List? {
      assert [v][..0] == [];
    } else if v.items == [] {
      assert [Null][..0] == [];
    }
  }

  /** A list unwinds to its elements that are not null, in order; any other value to itself, null to nothing. */
  lemma UnwoundMeaning(v: Value) returns (ks: seq<nat>)
    ensures v.List? ==> RowMeaning.Increasing(ks, |v.items|)
                        && (forall i: nat :: i in ks <==> i < |v.items| && v.items[i] != Null)
                        && Unwound(v) == seq(|ks|, k requires 0 <= k < |ks| => v.items[ks[k]])
    ensures !v.List? ==> Unwound(v) == if v == Null then [] else [v]
  {
    hide DropNa;
    ks := [];
    if v.List? {
      ks := AggregateMeaning.DropNaAt(v.items);
    }
  }

  /** The row numbers of the non-null values. */
  function DropNullRows(rows: seq<nat>, vals: seq<Value>): (r: seq<nat>)
    requires |rows| == |vals|
    ensures forall k :: 0 <= k < |r| ==> r[k] in rows
    ensures |r| == |DropNa(vals)|
  {
    if vals == [] then []
    else
      var n := |vals| - 1;
      var init := DropNullRows(rows[..n], vals[..n]);
      if vals[n].Null? then init else init + [rows[n]]
  }

  lemma DropNaLast(vs: seq<Value>, v: Value)
    ensures DropNa(vs + [v]) == if v.Null? then DropNa(vs) else DropNa(vs) + [v]
  {
    assert (vs + [v])[..|vs|] == vs;
  }

  lemma PickLast(rows: seq<nat>, vals: seq<Value>, r: nat, v: Value, row: nat)
    requires |rows| == |vals|
    ensures Pick(rows + [r], vals + [v], row) == if r == row then Pick(rows, vals, row) + [v] else Pick(rows, vals, row)
  {
    assert (rows + [r])[..|rows|] == rows && (vals + [v])[..|vals|] == vals;
  }

  lemma DropNullRowsLast(rows: seq<nat>, vals: seq<Value>)
    requires |rows| == |vals| > 0
    ensures var n := |vals| - 1;
            DropNullRows(rows, vals) ==
            if vals[n].Null? then DropNullRows(rows[..n], vals[..n]) else DropNullRows(rows[..n], vals[..n]) + [rows[n]]
  {}

  lemma NothingPicked(rows: seq<nat>, vals: seq<Value>, row: nat)
    requires rows == [] && vals == []
    ensures Pick(DropNullRows(rows, vals), DropNa(vals), row) == DropNa(Pick(rows, vals, row)) == []
  {}

  /** Picking a row number is reading the values at its positions, in order. */
  lemma {:induction false} PickMeaning(rows: seq<nat>, vals: seq<Value>, row: nat) returns (ks: seq<nat>)
    requires |rows| == |vals|
    ensures RowMeaning.Increasing(ks, |rows|) && forall k: nat :: k in ks <==> k < |rows| && rows[k] == row
    ensures |Pick(rows, vals, row)| == |ks| && forall j :: 0 <= j < |ks| ==> Pick(rows, vals, row)[j] == vals[ks[j]]
  {
    hide Pick;
    ks := [];
    if rows == [] {
      assert Pick(rows, vals, row) == [] by { NothingPicked(rows, vals, row); }
    } else {
      var n := |rows| - 1;
      var r, v := rows[..n], vals[..n];
      ks := PickMeaning(r, v, row);
      assert rows == r + [rows[n]] && vals == v + [vals[n]];
      PickLast(r, v, rows[n], vals[n], row);
      if rows[n] == row {
        ks := ks + [n];
      }
    }
  }

  /** Dropping nulls from the flat column drops them from each row's own part. */
  lemma {:induction false} PickDropNa(rows: seq<nat>, vals: seq<Value>, row: nat)
    requires |rows| == |vals|
    ensures Pick(DropNullRows(rows, vals), DropNa(vals), row) == DropNa(Pick(rows, vals, row))
  {
    hide Pick, DropNa, DropNullRows;
    if vals == [] {
      NothingPicked(rows, vals, row);
    } else {
      var n := |vals| - 1;
      var r, v := rows[..n], vals[..n];
      PickDropNa(r, v, row);
      assert rows == r + [rows[n]] && vals == v + [vals[n]];
      DropNullRowsLast(rows, vals);
      DropNaLast(v, vals[n]);
      PickLast(r, v, rows[n], vals[n], row);
      DropNaLast(Pick(r, v, row), vals[n]);
      PickLast(DropNullRows(r, v), DropNa(v), rows[n], vals[n], row);
    }
  }

  ghost predicate Ascending(rows: seq<nat>) {
    forall j, k :: 0 <= j <= k < |rows| ==> rows[j] <= rows[k]
  }

  lemma {:induction false} RowNumbersAscend<T>(groups: seq<seq<T>>)
    ensures Ascending(RowNumbers(groups))
  {
    if groups != [] {
      RowNumbersAscend(groups[..|groups| - 1]);
    }
  }

  lemma {:induction false} DropNullRowsAscend(rows: seq<nat>, vals: seq<Value>)
    requires |rows| == |vals| && Ascending(rows)
    ensures Ascending(DropNullRows(rows, vals))
  {
    if vals != [] {
      var n := |vals| - 1;
      DropNullRowsAscend(rows[..n], vals[..n]);
      assert forall k :: 0 <= k < n ==> rows[..n][k] <= rows[n];
    }
  }

  function ExplodedColumn(col: seq<Value>): (r: seq<seq<Value>>)
    ensures |r| == |col| && forall i :: 0 <= i < |col| ==> r[i] == Exploded(col[i])
  {
    seq(|col|, i requires 0 <= i < |col| => Exploded(col[i]))
  }

  /** df.explode(alias): every element with its row's number. */
  method Explode(col: seq<Value>) returns (rows: seq<nat>, vals: seq<Value>)
    ensures rows == RowNumbers(ExplodedColumn(col)) && vals == Flat(ExplodedColumn(col))
  {
    rows, vals := [], [];
    for i := 0 to |col|
      invariant rows == RowNumbers(ExplodedColumn(col[..i])) && vals == Flat(ExplodedColumn(col[..i]))
    {
      assert ExplodedColumn(col[..i + 1])[..i] == ExplodedColumn(col[..i]);
      rows := rows + Repeat(|Exploded(col[i])|, i);
      vals := vals + Exploded(col[i]);
    }
    assert col[..|col|] == col;
  }

  /** The bindings repeated by row number, with the alias bound. */
  function Gather(f: Frame, rows: seq<nat>, alias: string, vals: seq<Value>): Frame
    requires f.Valid() && |rows| == |vals| && forall k :: 0 <= k < |rows| ==> rows[k] < f.n
  {
    Frame((map c | c in f.cols :: seq(|rows|, k requires 0 <= k < |rows| => f.cols[c][rows[k]]))[alias := vals], |rows|)
  }

  lemma GatherRows(f: Frame, rows: seq<nat>, alias: string, vals: seq<Value>)
    requires f.Valid() && |rows| == |vals| && forall k :: 0 <= k < |rows| ==> rows[k] < f.n
    ensures Gather(f, rows, alias, vals).Valid() && Gather(f, rows, alias, vals).n == |rows|
    ensures forall k :: 0 <= k < |rows| ==> Gather(f, rows, alias, vals).Row(k) == f.Row(rows[k])[alias := vals[k]]
  {
    var g := Gather(f, rows, alias, vals);
    assert forall c :: c in g.cols ==> |g.cols[c]| == g.n;
    forall k | 0 <= k < |rows|
      ensures g.Row(k) == f.Row(rows[k])[alias := vals[k]]
    {
      assert g.Row(k).Keys == f.Row(rows[k])[alias := vals[k]].Keys;
    }
  }

  /** The unwound frame: rows[k] is the input row of output row k, vals[k] its element. */
  ghost predicate IsUnwinding(f: Frame, col: seq<Value>, alias: string, r: Frame, rows: seq<nat>, vals: seq<Value>)
    requires f.Valid() && |col| == f.n
  {
    && r.Valid() && r.n == |rows| == |vals|
    && Ascending(rows)
    && (forall k :: 0 <= k < |rows| ==> rows[k] < f.n && r.Row(k) == f.Row(rows[k])[alias := vals[k]])
    && (forall i: nat :: i < f.n ==> Pick(rows, vals, i) == Unwound(col[i]))
  }

  /** unwind_binding_frame: every row becomes one row per non-null element of its own list, rows and elements in
      order. */
  method Unwind(p: Primitives, e: Expr, alias: string, f: Frame, limit: nat)
    returns (r: Res<Frame>, ghost col: seq<Value>, ghost rows: seq<nat>, ghost vals: seq<Value>)
    requires f.Valid()
    ensures r.Err? <==> Column(p, e, f).Err? || exists i :: 0 <= i < f.n && TooLong(Column(p, e, f).value[i], limit)
    ensures Column(p, e, f).Ok? ==>
              (r.Err? <==> exists i :: 0 <= i < f.n && Column(p, e, f).value[i].List?
                                       && |Column(p, e, f).value[i].items| > limit)
    ensures r.Ok? ==> Column(p, e, f) == Ok(col) && |col| == f.n && IsUnwinding(f, col, alias, r.value, rows, vals)
  {
    hide Column, Eval, Exploded, Flat, RowNumbers, Pick, DropNa, DropNullRows;
    col, rows, vals := [], [], [];
    var c := ColumnEvaluator.Evaluate(p, e, f);
    if c.Err? {
      return Err, col, rows, vals;
    }
    ColumnOk(p, e, f);
    if exists i :: 0 <= i < |c.value| && TooLong(c.value[i], limit) {
      return Err, col, rows, vals;
    }
    var numbers, elements := Explode(c.value);
    var groups := ExplodedColumn(c.value);
    var kept := DropNullRows(numbers, elements);
    assert forall k :: 0 <= k < |kept| ==> kept[k] < f.n;
    GatherRows(f, kept, alias, DropNa(elements));
    RowNumbersAscend(groups);
    DropNullRowsAscend(numbers, elements);
    forall i: nat | i < f.n
      ensures Pick(kept, DropNa(elements), i) == Unwound(c.value[i])
    {
      PickDropNa(numbers, elements, i);
      PickOfFlat(groups, i);
      UnwoundIs(c.value[i]);
    }
    col, rows, vals := c.value, kept, DropNa(elements);
    r := Ok(Gather(f, kept, alias, DropNa(elements)));
  }

  /** The guard against huge lists. */
  predicate TooLong(v: Value, limit: nat) {
    v.List? && |v.items| > limit
  }

  // ---- UNION ----

  /** A result table's rows; every part of a UNION has the same columns. */
  type Row = Key

  function Concat(parts: seq<seq<Row>>): seq<Row> {
    Flat(parts)
  }

  /** The parts one after the other, each whole and in its order. */
  lemma {:induction false} ConcatMeaning(a: seq<seq<Row>>, b: seq<seq<Row>>, part: seq<Row>)
    ensures Concat([]) == [] && Concat([part]) == part && Concat(a + b) == Concat(a) + Concat(b)
  {
    assert [part][..0] == [];
    if b == [] {
      assert a + b == a;
    } else {
      var n := |b| - 1;
      ConcatMeaning(a, b[..n], part);
      assert (a + b)[..|a + b| - 1] == a + b[..n];
    }
  }

  /** drop_duplicates raises on a row that holds a list. */
  predicate AllHashable(rows: seq<Row>) {
    forall i :: 0 <= i < |rows| ==> Hashable(rows[i])
  }

  lemma HashableMeaning(rows: seq<Row>)
    ensures AllHashable(rows) <==> forall i, k :: 0 <= i < |rows| && 0 <= k < |rows[i]| ==> !rows[i][k].List?
  {
    if !AllHashable(rows) {
      var i :| 0 <= i < |rows| && !Hashable(rows[i]);
      var k :| 0 <= k < |rows[i]| && rows[i][k].List?;
    }
  }

  /** execute_union_query: one drop_duplicates over everything as soon as a single UNION is not ALL. */
  method ExecuteUnion(parts: seq<seq<Row>>, all: seq<bool>) returns (r: Res<seq<Row>>)
    ensures r == Union(parts, all)
  {
    var combined := [];
    for k := 0 to |parts|
      invariant combined == Flat(parts[..k])
    {
      assert parts[..k + 1][..k] == parts[..k];
      combined := combined + parts[k];
    }
    assert parts[..|parts|] == parts;
    if exists k :: 0 <= k < |all| && !all[k] {
      r := DropDuplicates(combined);
    } else {
      r := Ok(combined);
    }
  }

  function Distinct(rows: seq<Row>): Res<seq<Row>> {
    if AllHashable(rows) then Ok(DistinctKeys(rows)) else Err
  }

  function Union(parts: seq<seq<Row>>, all: seq<bool>): Res<seq<Row>> {
    if exists k :: 0 <= k < |all| && !all[k] then Distinct(Concat(parts)) else Ok(Concat(parts))
  }

  method DropDuplicates(rows: seq<Row>) returns (r: Res<seq<Row>>)
    ensures r == Distinct(rows)
  {
    var kept := [];
    for i := 0 to |rows|
      invariant kept == DistinctKeys(rows[..i])
      invariant AllHashable(rows[..i])
    {
      assert rows[..i + 1][..i] == rows[..i];
      if !Hashable(rows[i]) {
        return Err;
      }
      if !KnownKey(rows[i], kept) {
        kept := kept + [rows[i]];
      }
    }
    assert rows[..|rows|] == rows;
    r := Ok(kept);
  }

  /** The reference: operators applied one after the other from the left, each plain UNION removing duplicates so
      far. */
  function LeftToRight(parts: seq<seq<Row>>, all: seq<bool>): seq<Row>
    requires |parts| == |all| + 1
  {
    if all == [] then parts[0]
    else
      var n := |all| - 1;
      var both := LeftToRight(parts[..n + 1], all[..n]) + parts[n + 1];
      if all[n] then both else DistinctKeys(both)
  }

  lemma {:induction false} DistinctTwice(rows: seq<Row>)
    ensures DistinctKeys(DistinctKeys(rows)) == DistinctKeys(rows)
  {
    hide KnownKey;
    if rows != [] {
      var init, last := DistinctKeys(rows[..|rows| - 1]), rows[|rows| - 1];
      DistinctTwice(rows[..|rows| - 1]);
      assert (init + [last])[..|init|] == init;
    }
  }

  lemma {:induction false} DistinctPrefix(a: seq<Row>, b: seq<Row>)
    ensures DistinctKeys(DistinctKeys(a) + b) == DistinctKeys(a + b)
  {
    hide KnownKey;
    if b == [] {
      DistinctTwice(a);
      assert DistinctKeys(a) + b == DistinctKeys(a) && a + b == a;
    } else {
      var n := |b| - 1;
      DistinctPrefix(a, b[..n]);
      var x, y := DistinctKeys(a) + b, a + b;
      assert x[..|x| - 1] == DistinctKeys(a) + b[..n] && y[..|y| - 1] == a + b[..n];
    }
  }

  lemma {:induction false} SameDistinct(parts: seq<seq<Row>>, all: seq<bool>)
    requires |parts| == |all| + 1
    ensures DistinctKeys(LeftToRight(parts, all)) == DistinctKeys(Concat(parts))
    ensures (forall k :: 0 <= k < |all| ==> all[k]) ==> LeftToRight(parts, all) == Concat(parts)
  {
    hide DistinctKeys;
    if all == [] {
      assert Flat(parts[..0]) == [];
      assert Concat(parts) == parts[0];
    } else {
      var n := |all| - 1;
      SameDistinct(parts[..n + 1], all[..n]);
      var before := LeftToRight(parts[..n + 1], all[..n]);
      DistinctPrefix(before, parts[n + 1]);
      DistinctPrefix(Concat(parts[..n + 1]), parts[n + 1]);
      assert Concat(parts) == Concat(parts[..n + 1]) + parts[n + 1];
      DistinctTwice(before + parts[n + 1]);
      assert forall k :: 0 <= k < n ==> all[..n][k] == all[k];
    }
  }

  lemma {:induction false} DistinctFixed(rows: seq<Row>)
    ensures DistinctKeys(rows) == rows <==> PairwiseDistinct(rows)
    ensures |DistinctKeys(rows)| <= |rows|
  {
    hide SameKey;
    if rows != [] {
      var n := |rows| - 1;
      DistinctFixed(rows[..n]);
      assert rows == rows[..n] + [rows[n]];
      assert PairwiseDistinct(rows) <==> PairwiseDistinct(rows[..n]) && !KnownKey(rows[n], rows[..n]) by {
        DistinctSplit(rows);
      }
      if KnownKey(rows[n], DistinctKeys(rows[..n])) {
        assert |DistinctKeys(rows)| < |rows|;
      } else {
        assert DistinctKeys(rows) == DistinctKeys(rows[..n]) + [rows[n]];
        if DistinctKeys(rows) == rows {
          assert DistinctKeys(rows[..n]) == (DistinctKeys(rows[..n]) + [rows[n]])[..n];
        }
      }
    }
  }

  lemma DistinctSplit(rows: seq<Row>)
    requires rows != []
    ensures PairwiseDistinct(rows)
            <==> PairwiseDistinct(rows[..|rows| - 1]) && !KnownKey(rows[|rows| - 1], rows[..|rows| - 1])
  {
    hide SameKey;
    var n := |rows| - 1;
    var init := rows[..n];
    assert forall i :: 0 <= i < n ==> init[i] == rows[i];
    if PairwiseDistinct(rows) {
      forall g, h | 0 <= g < h < n
        ensures !SameKey(init[g], init[h])
      {
        assert !SameKey(rows[g], rows[h]);
      }
    }
  }

  /** The query result is the left-to-right meaning exactly when no UNION is plain, or every row can be hashed and that
      meaning has no duplicate rows. */
  lemma AgreesIfDistinct(parts: seq<seq<Row>>, all: seq<bool>)
    requires |parts| == |all| + 1
    ensures Union(parts, all) == Ok(LeftToRight(parts, all))
            <==> (forall k :: 0 <= k < |all| ==> all[k])
                 || (AllHashable(Concat(parts)) && PairwiseDistinct(LeftToRight(parts, all)))
  {
    hide DistinctKeys, LeftToRight, PairwiseDistinct, AllHashable;
    SameDistinct(parts, all);
    DistinctFixed(LeftToRight(parts, all));
  }

  /** The position of the last plain UNION. */
  function LastPlain(all: seq<bool>): (r: Option<nat>)
    ensures r.Some? ==> r.value < |all| && !all[r.value] && forall j :: r.value < j < |all| ==> all[j]
    ensures r.None? ==> forall j :: 0 <= j < |all| ==> all[j]
  {
    if all == [] then None else if !all[|all| - 1] then Some(|all| - 1) else LastPlain(all[..|all| - 1])
  }

  /** The parts up to the last plain UNION, and the rows of the parts after it. */
  function Head(parts: seq<seq<Row>>, k: nat): seq<Row>
    requires k + 2 <= |parts|
  {
    Flat(parts[..k + 2])
  }

  function Tail(parts: seq<seq<Row>>, k: nat): seq<Row>
    requires k + 2 <= |parts|
  {
    Flat(parts[k + 2..])
  }

  /** ALL parts after the last plain UNION are only appended. */
  lemma {:induction false} TailAppended(parts: seq<seq<Row>>, all: seq<bool>, k: nat)
    requires |parts| == |all| + 1 && k < |all| && !all[k] && forall j :: k < j < |all| ==> all[j]
    ensures LeftToRight(parts, all) == DistinctKeys(Head(parts, k)) + Tail(parts, k)
    decreases |all|
  {
    hide DistinctKeys;
    var n := |all| - 1;
    var init := LeftToRight(parts[..n + 1], all[..n]);
    if k == n {
      SameDistinct(parts[..n + 1], all[..n]);
      DistinctPrefix(init, parts[n + 1]);
      DistinctPrefix(Concat(parts[..n + 1]), parts[n + 1]);
      assert parts[..k + 2] == parts && parts[k + 2..] == [];
      assert parts[..|parts| - 1] == parts[..n + 1];
      assert Flat(parts) == Flat(parts[..n + 1]) + parts[n + 1];
      assert LeftToRight(parts, all) == DistinctKeys(Head(parts, k)) + [];
    } else {
      TailAppended(parts[..n + 1], all[..n], k);
      assert parts[..n + 1][..k + 2] == parts[..k + 2];
      var tail := parts[k + 2..];
      assert tail[..|tail| - 1] == parts[..n + 1][k + 2..] && tail[|tail| - 1] == parts[n + 1];
      assert LeftToRight(parts, all) == DistinctKeys(Head(parts, k)) + (Tail(parts[..n + 1], k) + parts[n + 1]);
    }
  }

  /** Removing duplicates loses no key. */
  lemma KnownIff(row: Row, rows: seq<Row>)
    ensures KnownKey(row, DistinctKeys(rows)) <==> KnownKey(row, rows)
  {
    hide DistinctKeys, SameKey;
    var groups := DistinctKeys(rows);
    var firsts := DistinctKeysMeaning(rows);
    if KnownKey(row, groups) {
      var g :| 0 <= g < |groups| && SameKey(groups[g], row);
      assert IsFirst(rows, firsts[g]);
      assert SameKey(rows[firsts[g]], row);
    }
    if KnownKey(row, rows) {
      var i :| 0 <= i < |rows| && SameKey(rows[i], row);
      assert KnownKey(rows[i], groups);
      var g :| 0 <= g < |groups| && SameKey(groups[g], rows[i]);
      SameKeyTransitive(groups[g], rows[i], row);
    }
  }

  ghost predicate NoneKnown(rows: seq<Row>, others: seq<Row>) {
    forall i :: 0 <= i < |rows| ==> !KnownKey(rows[i], others)
  }

  lemma DistinctConcatIff(a: seq<Row>, b: seq<Row>)
    requires PairwiseDistinct(a)
    ensures PairwiseDistinct(a + b) <==> PairwiseDistinct(b) && NoneKnown(b, a)
  {
    hide SameKey;
    var r := a + b;
    if PairwiseDistinct(r) {
      forall g, h | 0 <= g < h < |b|
        ensures !SameKey(b[g], b[h])
      {
        assert r[|a| + g] == b[g] && r[|a| + h] == b[h];
      }
      forall i | 0 <= i < |b|
        ensures !KnownKey(b[i], a)
      {
        assert r[|a| + i] == b[i];
        assert forall g :: 0 <= g < |a| ==> r[g] == a[g];
      }
    }
    if PairwiseDistinct(b) && NoneKnown(b, a) {
      forall g, h | 0 <= g < h < |r|
        ensures !SameKey(r[g], r[h])
      {
        if g < |a| <= h {
          assert !KnownKey(b[h - |a|], a);
        }
      }
    }
  }

  lemma NoneKnownIff(rows: seq<Row>, others: seq<Row>)
    ensures NoneKnown(rows, DistinctKeys(others)) <==> NoneKnown(rows, others)
  {
    hide KnownKey, DistinctKeys;
    forall i | 0 <= i < |rows|
      ensures KnownKey(rows[i], DistinctKeys(others)) <==> KnownKey(rows[i], others)
    {
      KnownIff(rows[i], others);
    }
  }

  /** A chain of UNION ALL has its left-to-right meaning; one with a plain UNION has it exactly when no row holds a list
      and the rows of the parts after the last plain UNION are pairwise different and occur in none of the parts
      before. */
  lemma UnionIff(parts: seq<seq<Row>>, all: seq<bool>)
    requires |parts| == |all| + 1
    ensures LastPlain(all).None? ==> Union(parts, all) == Ok(LeftToRight(parts, all))
    ensures LastPlain(all).Some? ==>
              var k := LastPlain(all).value;
              Union(parts, all) == Ok(LeftToRight(parts, all))
              <==> AllHashable(Concat(parts)) && PairwiseDistinct(Tail(parts, k))
                   && NoneKnown(Tail(parts, k), Head(parts, k))
  {
    hide DistinctKeys, LeftToRight, PairwiseDistinct, NoneKnown, Head, Tail, AllHashable, Concat;
    AgreesIfDistinct(parts, all);
    if LastPlain(all).Some? {
      var k := LastPlain(all).value;
      TailAppended(parts, all, k);
      var firsts := DistinctKeysMeaning(Head(parts, k));
      DistinctConcatIff(DistinctKeys(Head(parts, k)), Tail(parts, k));
      NoneKnownIff(Tail(parts, k), Head(parts, k));
    }
  }

  /** A chain that ends in a plain UNION has it as soon as no row holds a list, and otherwise fails. */
  lemma LastPlainUnion(parts: seq<seq<Row>>, all: seq<bool>)
    requires |parts| == |all| + 1 && all != [] && !all[|all| - 1]
    ensures Union(parts, all) == if AllHashable(Concat(parts)) then Ok(LeftToRight(parts, all)) else Err
  {
    hide LeftToRight, AllHashable, DistinctKeys;
    UnionIff(parts, all);
    assert parts[|all| + 1..] == [];
  }
}
