/** mutate and mutate_batch of binding_frame.py: writing property columns back to an entity table. */
module WriteBack {
  import opened Values

  /** The shadow table of one type, with the names its entity table has registered. Rows are positions; ids[i] is row
      i's id. */
  datatype Store = Store(ids: seq<Value>, columns: map<string, seq<Value>>, columnOrder: seq<string>,
                         attributes: map<string, string>, sourceAttributes: map<string, string>,
                         columnNames: seq<string>)
  {
    ghost predicate Valid() {
      && (forall c :: c in columns ==> |columns[c]| == |ids|)
      && (forall c :: c in columnOrder <==> c in columns)
    }
  }

  /** `dict(zip(ids, values))`: the last frame row of an id wins. */
  function UpdateMap(ids: seq<Value>, values: seq<Value>): (m: map<Value, Value>)
    requires |ids| == |values|
  {
    if ids == [] then map[]
    else
      var n := |ids| - 1;
      UpdateMap(ids[..n], values[..n])[ids[n] := values[n]]
  }

  lemma {:induction false} UpdateMapKeys(ids: seq<Value>, values: seq<Value>)
    requires |ids| == |values|
    ensures forall id :: id in UpdateMap(ids, values) <==> id in ids
  {
    if ids != [] {
      var n := |ids| - 1;
      UpdateMapKeys(ids[..n], values[..n]);
      assert ids == ids[..n] + [ids[n]];
    }
  }

  /** The value written for an id is that of its last frame row. */
  lemma {:induction false} LastRowWins(ids: seq<Value>, values: seq<Value>, k: nat)
    requires |ids| == |values| && k < |ids|
    requires forall j :: k < j < |ids| ==> ids[j] != ids[k]
    ensures ids[k] in UpdateMap(ids, values) && UpdateMap(ids, values)[ids[k]] == values[k]
    decreases |ids|
  {
    var n := |ids| - 1;
    if k < n {
      LastRowWins(ids[..n], values[..n], k);
    }
  }

  function Register(s: Store, prop: string): Store {
    s.(attributes := if prop in s.attributes then s.attributes else s.attributes[prop := prop],
       sourceAttributes := if prop in s.sourceAttributes then s.sourceAttributes else s.sourceAttributes[prop := prop],
       columnNames := if prop in s.columnNames then s.columnNames else s.columnNames + [prop])
  }

  /** mutate's new column: matched rows take the update, others keep their value, or null in a new column. */
  function Overwritten(s: Store, prop: string, updates: map<Value, Value>): (r: seq<Value>)
    requires s.Valid()
    ensures |r| == |s.ids|
    ensures forall i :: 0 <= i < |r| ==>
              r[i] == if s.ids[i] in updates then updates[s.ids[i]]
                      else if prop in s.columns then s.columns[prop][i] else Null
  {
    seq(|s.ids|, i requires 0 <= i < |s.ids| =>
      if s.ids[i] in updates then updates[s.ids[i]] else if prop in s.columns then s.columns[prop][i] else Null)
  }

  /** mutate_batch's new column: in an existing column only non-null updates are taken. */
  function Coalesced(s: Store, prop: string, updates: map<Value, Value>): (r: seq<Value>)
    requires s.Valid()
    ensures |r| == |s.ids|
    ensures forall i :: 0 <= i < |r| ==>
              r[i] == if s.ids[i] in updates && (prop !in s.columns || !updates[s.ids[i]].Null?) then updates[s.ids[i]]
                      else if prop in s.columns then s.columns[prop][i] else Null
  {
    seq(|s.ids|, i requires 0 <= i < |s.ids| =>
      if s.ids[i] in updates && (prop !in s.columns || !updates[s.ids[i]].Null?) then updates[s.ids[i]]
      else if prop in s.columns then s.columns[prop][i] else Null)
  }

  function WithColumn(s: Store, prop: string, column: seq<Value>): Store {
    Register(s.(columns := s.columns[prop := column],
                columnOrder := if prop in s.columns then s.columnOrder else s.columnOrder + [prop]), prop)
  }

  function Mutated(s: Store, prop: string, updates: map<Value, Value>): (r: Store)
    requires s.Valid()
    ensures r.Valid() && r.ids == s.ids
  {
    WithColumn(s, prop, Overwritten(s, prop, updates))
  }

  function BatchMutated(s: Store, prop: string, updates: map<Value, Value>): (r: Store)
    requires s.Valid()
    ensures r.Valid() && r.ids == s.ids
  {
    WithColumn(s, prop, Coalesced(s, prop, updates))
  }

  /** One property of a SET: its name and the value column aligned with the frame. */
  datatype Property = Property(name: string, values: seq<Value>)

  ghost predicate Aligned(ids: seq<Value>, props: seq<Property>) {
    forall i :: 0 <= i < |props| ==> |props[i].values| == |ids|
  }

  /** Properties written one by one with mutate. */
  ghost function OneByOne(s: Store, ids: seq<Value>, props: seq<Property>): (r: Store)
    requires s.Valid() && Aligned(ids, props)
    ensures r.Valid() && r.ids == s.ids
  {
    if props == [] then s
    else
      var n := |props| - 1;
      Mutated(OneByOne(s, ids, props[..n]), props[n].name, UpdateMap(ids, props[n].values))
  }

  /** mutate_batch, which hands a single property over to mutate. */
  ghost function Batch(s: Store, ids: seq<Value>, props: seq<Property>): (r: Store)
    requires s.Valid() && Aligned(ids, props)
    ensures r.Valid() && r.ids == s.ids
  {
    if |props| == 1 then Mutated(s, props[0].name, UpdateMap(ids, props[0].values)) else BatchColumns(s, ids, props)
  }

  ghost function BatchColumns(s: Store, ids: seq<Value>, props: seq<Property>): (r: Store)
    requires s.Valid() && Aligned(ids, props)
    ensures r.Valid() && r.ids == s.ids
  {
    if props == [] then s
    else
      var n := |props| - 1;
      BatchMutated(BatchColumns(s, ids, props[..n]), props[n].name, UpdateMap(ids, props[n].values))
  }

  // ---- The merge behind mutate_batch ----

  ghost predicate IsLastRow(ids: seq<Value>, k: nat) {
    k < |ids| && forall j :: k < j < |ids| ==> ids[j] != ids[k]
  }

  /** `drop_duplicates(keep="last")`: the frame rows that are the last with their id. */
  method KeepLast(ids: seq<Value>) returns (kept: seq<nat>)
    ensures forall k: nat :: k in kept <==> IsLastRow(ids, k)
    ensures forall i, j :: 0 <= i < j < |kept| ==> kept[i] < kept[j]
    ensures forall i :: 0 <= i < |kept| ==> IsLastRow(ids, kept[i])
  {
    kept := [];
    for i := 0 to |ids|
      invariant forall k: nat :: k in kept <==> k < i && IsLastRow(ids, k)
      invariant forall a :: 0 <= a < |kept| ==> kept[a] < i
      invariant forall a, b :: 0 <= a < b < |kept| ==> kept[a] < kept[b]
    {
      if ids[i] !in ids[i + 1..] {
        assert forall j :: i < j < |ids| ==> ids[i + 1..][j - i - 1] == ids[j];
        kept := kept + [i];
      } else {
        var j :| 0 <= j < |ids[i + 1..]| && ids[i + 1..][j] == ids[i];
        assert !IsLastRow(ids, i) by { assert ids[i + 1 + j] == ids[i]; }
      }
    }
  }

  /** A merged column: each table row's update, null where there is none. */
  ghost predicate IsMerged(merged: seq<Value>, tableIds: seq<Value>, updates: map<Value, Value>) {
    && |merged| == |tableIds|
    && forall i :: 0 <= i < |tableIds| ==> merged[i] == if tableIds[i] in updates then updates[tableIds[i]] else Null
  }

  /** The left merge of the table's ids with the kept frame rows gives each table row its last update. */
  method MergeColumn(tableIds: seq<Value>, ids: seq<Value>, kept: seq<nat>, values: seq<Value>)
    returns (merged: seq<Value>)
    requires |ids| == |values|
    requires forall k: nat :: k in kept <==> IsLastRow(ids, k)
    requires forall i :: 0 <= i < |kept| ==> IsLastRow(ids, kept[i])
    ensures IsMerged(merged, tableIds, UpdateMap(ids, values))
  {
    merged := [];
    for i := 0 to |tableIds|
      invariant IsMerged(merged, tableIds[..i], UpdateMap(ids, values))
    {
      var value := Null;
      UpdateMapKeys(ids, values);
      if tableIds[i] in ids {
        ghost var j := KeptRowOf(ids, kept, tableIds[i]);
      }
      if k :| 0 <= k < |kept| && ids[kept[k]] == tableIds[i] {
        value := values[kept[k]];
        LastRowWins(ids, values, kept[k]);
      } else {
        assert tableIds[i] !in UpdateMap(ids, values);
      }
      merged := merged + [value];
      assert tableIds[..i + 1] == tableIds[..i] + [tableIds[i]];
    }
    assert tableIds[..|tableIds|] == tableIds;
  }

  lemma {:induction false} LastWith(ids: seq<Value>, id: Value) returns (k: nat)
    requires id in ids
    ensures IsLastRow(ids, k) && ids[k] == id
  {
    var n := |ids| - 1;
    if ids[n] == id {
      k := n;
    } else {
      assert ids == ids[..n] + [ids[n]];
      k := LastWith(ids[..n], id);
    }
  }

  lemma KeptRowOf(ids: seq<Value>, kept: seq<nat>, id: Value) returns (j: nat)
    requires forall k: nat :: k in kept <==> IsLastRow(ids, k)
    requires id in ids
    ensures j < |kept| && kept[j] < |ids| && ids[kept[j]] == id
  {
    var k := LastWith(ids, id);
    assert k in kept;
    j :| 0 <= j < |kept| && kept[j] == k;
  }

  // ---- The methods on the shadow table ----

  class ShadowTable {
    var ids: seq<Value>
    var columns: map<string, seq<Value>>
    var columnOrder: seq<string>
    var attributes: map<string, string>
    var sourceAttributes: map<string, string>
    var columnNames: seq<string>

    ghost function State(): Store
      reads this
    {
      Store(ids, columns, columnOrder, attributes, sourceAttributes, columnNames)
    }

    method RegisterName(prop: string)
      modifies this`attributes, this`sourceAttributes, this`columnNames
      ensures State() == Register(old(State()), prop)
    {
      if prop !in attributes {
        attributes := attributes[prop := prop];
      }
      if prop !in sourceAttributes {
        sourceAttributes := sourceAttributes[prop := prop];
      }
      if prop !in columnNames {
        columnNames := columnNames + [prop];
      }
    }

    method Mutate(frameIds: seq<Value>, prop: string, values: seq<Value>)
      requires State().Valid() && |frameIds| == |values|
      modifies this
      ensures State() == Mutated(old(State()), prop, UpdateMap(frameIds, values))
    {
      var updates, rowIds := UpdateMap(frameIds, values), ids;
      if prop !in columns {
        var column := seq(|rowIds|, i requires 0 <= i < |rowIds| =>
          if rowIds[i] in updates then updates[rowIds[i]] else Null);
        assert column == Overwritten(State(), prop, updates);
        columns := columns[prop := column];
        columnOrder := columnOrder + [prop];
      } else {
        var column := columns[prop];
        for i := 0 to |ids|
          invariant |column| == |ids|
          invariant forall j :: 0 <= j < i ==> column[j] == Overwritten(old(State()), prop, updates)[j]
          invariant forall j :: i <= j < |ids| ==> column[j] == columns[prop][j]
        {
          if ids[i] in updates {
            column := column[i := updates[ids[i]]];
          }
        }
        assert column == Overwritten(State(), prop, updates);
        columns := columns[prop := column];
      }
      RegisterName(prop);
    }

    method MutateBatch(frameIds: seq<Value>, props: seq<Property>)
      requires State().Valid() && Aligned(frameIds, props)
      modifies this
      ensures State() == Batch(old(State()), frameIds, props)
    {
      hide BatchMutated, Mutated;
      if |props| == 1 {
        Mutate(frameIds, props[0].name, props[0].values);
        return;
      }
      var kept := KeepLast(frameIds);
      for k := 0 to |props|
        invariant State().Valid() && State() == BatchColumns(old(State()), frameIds, props[..k])
      {
        assert props[..k + 1][..k] == props[..k];
        var merged := MergeColumn(ids, frameIds, kept, props[k].values);
        ApplyMerged(props[k].name, merged, UpdateMap(frameIds, props[k].values));
      }
      assert props[..|props|] == props;
    }

    /** One column of the merged result. */
    method ApplyMerged(prop: string, merged: seq<Value>, ghost updates: map<Value, Value>)
      requires State().Valid() && IsMerged(merged, ids, updates)
      modifies this
      ensures State() == BatchMutated(old(State()), prop, updates)
    {
      var rows := |ids|;
      if prop !in columns {
        assert merged == Coalesced(State(), prop, updates);
        columns := columns[prop := merged];
        columnOrder := columnOrder + [prop];
      } else if exists i :: 0 <= i < |merged| && !merged[i].Null? {
        var existing := columns[prop];
        var column := seq(rows, i requires 0 <= i < rows => if !merged[i].Null? then merged[i] else existing[i]);
        assert column == Coalesced(State(), prop, updates);
        columns := columns[prop := column];
      } else {
        assert columns[prop] == Coalesced(State(), prop, updates);
        assert columns[prop := columns[prop]] == columns;
      }
      RegisterName(prop);
    }
  }

  // ---- When the batch is the sequence ----

  ghost predicate DistinctNames(props: seq<Property>) {
    forall i, j :: 0 <= i < j < |props| ==> props[i].name != props[j].name
  }

  /** A null update would erase a value that is there. */
  ghost predicate Erases(s: Store, prop: string, updates: map<Value, Value>)
    requires s.Valid()
  {
    prop in s.columns
    && exists i :: 0 <= i < |s.ids| && s.ids[i] in updates && updates[s.ids[i]].Null? && !s.columns[prop][i].Null?
  }

  lemma ColumnsAgreeIff(s: Store, prop: string, updates: map<Value, Value>)
    requires s.Valid()
    ensures Mutated(s, prop, updates) == BatchMutated(s, prop, updates) <==> !Erases(s, prop, updates)
  {
    var a, b := Overwritten(s, prop, updates), Coalesced(s, prop, updates);
    if Erases(s, prop, updates) {
      var i :| 0 <= i < |s.ids| && s.ids[i] in updates && updates[s.ids[i]].Null? && !s.columns[prop][i].Null?;
      assert a[i] != b[i];
      assert Mutated(s, prop, updates).columns[prop] == a && BatchMutated(s, prop, updates).columns[prop] == b;
    } else {
      assert a == b;
    }
  }

  ghost predicate ErasesAny(s: Store, ids: seq<Value>, props: seq<Property>)
    requires s.Valid() && Aligned(ids, props)
  {
    exists k :: 0 <= k < |props| && Erases(s, props[k].name, UpdateMap(ids, props[k].values))
  }

  /** Writing some properties leaves the columns of all others alone. */
  lemma {:induction false} OtherColumnsKept(s: Store, ids: seq<Value>, props: seq<Property>, c: string)
    requires s.Valid() && Aligned(ids, props)
    requires forall i :: 0 <= i < |props| ==> props[i].name != c
    ensures c in OneByOne(s, ids, props).columns <==> c in s.columns
    ensures c in BatchColumns(s, ids, props).columns <==> c in s.columns
    ensures c in s.columns ==> OneByOne(s, ids, props).columns[c] == s.columns[c]
                               && BatchColumns(s, ids, props).columns[c] == s.columns[c]
  {
    if props != [] {
      OtherColumnsKept(s, ids, props[..|props| - 1], c);
    }
  }

  lemma ErasesDependsOnColumn(s: Store, t: Store, prop: string, updates: map<Value, Value>)
    requires s.Valid() && t.Valid() && s.ids == t.ids
    requires prop in s.columns <==> prop in t.columns
    requires prop in s.columns ==> s.columns[prop] == t.columns[prop]
    ensures Erases(s, prop, updates) <==> Erases(t, prop, updates)
  {}

  /** The column pass gives the same table as writing the properties one by one exactly when no null erases a value. */
  lemma {:induction false} ColumnsAreSequenceIff(s: Store, ids: seq<Value>, props: seq<Property>)
    requires s.Valid() && Aligned(ids, props) && DistinctNames(props)
    ensures BatchColumns(s, ids, props) == OneByOne(s, ids, props) <==> !ErasesAny(s, ids, props)
  {
    if props != [] {
      var n := |props| - 1;
      var init, last := props[..n], props[n];
      var updates := UpdateMap(ids, last.values);
      ColumnsAreSequenceIff(s, ids, init);
      OtherColumnsKept(s, ids, init, last.name);
      var a, b := OneByOne(s, ids, init), BatchColumns(s, ids, init);
      ErasesDependsOnColumn(s, a, last.name, updates);
      ColumnsAgreeIff(a, last.name, updates);
      ErasesSplits(s, ids, props);
      BatchKeepsSchema(s, ids, init);
      if a != b {
        LaterColumnsDoNotRepair(a, b, last.name, updates);
      }
    }
  }

  /** mutate_batch gives the same table as writing the properties one by one exactly when there is a single property,
      which it hands to mutate, or no null erases a value. */
  lemma BatchIsSequenceIff(s: Store, ids: seq<Value>, props: seq<Property>)
    requires s.Valid() && Aligned(ids, props) && DistinctNames(props)
    ensures Batch(s, ids, props) == OneByOne(s, ids, props) <==> |props| == 1 || !ErasesAny(s, ids, props)
  {
    hide Mutated;
    if |props| == 1 {
      assert props[..0] == [];
    } else {
      ColumnsAreSequenceIff(s, ids, props);
    }
  }

  lemma ErasesSplits(s: Store, ids: seq<Value>, props: seq<Property>)
    requires s.Valid() && Aligned(ids, props) && props != []
    ensures var n := |props| - 1;
            ErasesAny(s, ids, props) <==>
            ErasesAny(s, ids, props[..n]) || Erases(s, props[n].name, UpdateMap(ids, props[n].values))
  {
    var n := |props| - 1;
    if ErasesAny(s, ids, props[..n]) {
      var k :| 0 <= k < n && Erases(s, props[..n][k].name, UpdateMap(ids, props[..n][k].values));
      assert props[k] == props[..n][k];
    }
    if ErasesAny(s, ids, props) {
      var k :| 0 <= k < |props| && Erases(s, props[k].name, UpdateMap(ids, props[k].values));
      if k < n {
        assert props[k] == props[..n][k];
      }
    }
  }

  /** Tables that differ at most in what their columns hold. */
  ghost predicate SameSchema(a: Store, b: Store) {
    a.columns.Keys == b.columns.Keys && a.(columns := b.columns) == b
  }

  /** The batch registers the same columns in the same order as writing one by one, whatever the values. */
  lemma {:induction false} BatchKeepsSchema(s: Store, ids: seq<Value>, props: seq<Property>)
    requires s.Valid() && Aligned(ids, props)
    ensures SameSchema(OneByOne(s, ids, props), BatchColumns(s, ids, props))
  {
    if props != [] {
      BatchKeepsSchema(s, ids, props[..|props| - 1]);
    }
  }

  /** Tables that differ in some column keep differing when another column is written. */
  lemma LaterColumnsDoNotRepair(a: Store, b: Store, prop: string, updates: map<Value, Value>)
    requires a.Valid() && b.Valid() && SameSchema(a, b) && a != b
    requires prop in a.columns ==> a.columns[prop] == b.columns[prop]
    ensures Mutated(a, prop, updates) != BatchMutated(b, prop, updates)
  {
    assert a.columns != b.columns;
    var c :| c in a.columns && a.columns[c] != b.columns[c];
    assert Mutated(a, prop, updates).columns[c] != BatchMutated(b, prop, updates).columns[c];
  }

  // ---- What a write leaves, field by field ----

  /** Table row i's new value: that of the last frame row with its id, else the old one, null in a new column. */
  ghost predicate IsWritten(s: Store, ids: seq<Value>, values: seq<Value>, prop: string, i: nat, v: Value)
    requires s.Valid() && |ids| == |values| && i < |s.ids|
  {
    && (forall k: nat :: IsLastRow(ids, k) && ids[k] == s.ids[i] ==> v == values[k])
    && (s.ids[i] !in ids ==> v == if prop in s.columns then s.columns[prop][i] else Null)
  }

  lemma UpdateAt(ids: seq<Value>, values: seq<Value>, id: Value)
    requires |ids| == |values|
    ensures id in UpdateMap(ids, values) <==> id in ids
    ensures forall k: nat :: IsLastRow(ids, k) && ids[k] == id ==>
              id in UpdateMap(ids, values) && UpdateMap(ids, values)[id] == values[k]
  {
    hide UpdateMap;
    UpdateMapKeys(ids, values);
    forall k: nat | IsLastRow(ids, k) && ids[k] == id
      ensures id in UpdateMap(ids, values) && UpdateMap(ids, values)[id] == values[k]
    {
      LastRowWins(ids, values, k);
    }
  }

  /** The name stands once among the names: appended when it is new. */
  predicate AppendedOnce(before: seq<string>, after: seq<string>, name: string) {
    if name in before then after == before else after == before + [name]
  }

  /** The registrations gain the name, under itself, and nothing else changes in them. */
  predicate Registered(before: map<string, string>, after: map<string, string>, name: string) {
    if name in before then after == before else after == before[name := name]
  }

  /** mutate: rows matched by id take their last update, the column and its name are there once, all else stays. */
  lemma MutateMeaning(s: Store, ids: seq<Value>, prop: string, values: seq<Value>)
    requires s.Valid() && |ids| == |values|
    ensures var r := Mutated(s, prop, UpdateMap(ids, values));
            && r.ids == s.ids && r.columns.Keys == s.columns.Keys + {prop} && |r.columns[prop]| == |s.ids|
            && (forall i: nat :: i < |s.ids| ==> IsWritten(s, ids, values, prop, i, r.columns[prop][i]))
            && (forall c :: c in s.columns && c != prop ==> r.columns[c] == s.columns[c])
            && r.columnOrder == (if prop in s.columns then s.columnOrder else s.columnOrder + [prop])
            && AppendedOnce(s.columnNames, r.columnNames, prop)
            && Registered(s.attributes, r.attributes, prop) && Registered(s.sourceAttributes, r.sourceAttributes, prop)
  {
    hide UpdateMap, IsLastRow;
    forall i | 0 <= i < |s.ids|
      ensures IsWritten(s, ids, values, prop, i, Overwritten(s, prop, UpdateMap(ids, values))[i])
    {
      UpdateAt(ids, values, s.ids[i]);
    }
  }

  /** mutate_batch with several properties: as mutate, but a null update leaves an existing value. */
  ghost predicate IsCoalesced(s: Store, ids: seq<Value>, values: seq<Value>, prop: string, i: nat, v: Value)
    requires s.Valid() && |ids| == |values| && i < |s.ids|
  {
    && (forall k: nat :: IsLastRow(ids, k) && ids[k] == s.ids[i] && (prop !in s.columns || values[k] != Null) ==>
          v == values[k])
    && (forall k: nat :: IsLastRow(ids, k) && ids[k] == s.ids[i] && prop in s.columns && values[k] == Null ==>
          v == s.columns[prop][i])
    && (s.ids[i] !in ids ==> v == if prop in s.columns then s.columns[prop][i] else Null)
  }

  lemma CoalescedAt(s: Store, ids: seq<Value>, values: seq<Value>, prop: string, i: nat)
    requires s.Valid() && |ids| == |values| && i < |s.ids|
    ensures IsCoalesced(s, ids, values, prop, i, Coalesced(s, prop, UpdateMap(ids, values))[i])
  {
    hide UpdateMap, IsLastRow;
    UpdateAt(ids, values, s.ids[i]);
  }

  lemma LastColumn(s: Store, ids: seq<Value>, props: seq<Property>)
    requires s.Valid() && Aligned(ids, props) && props != []
    ensures var n := |props| - 1;
            var before := BatchColumns(s, ids, props[..n]);
            BatchColumns(s, ids, props).columns ==
            before.columns[props[n].name := Coalesced(before, props[n].name, UpdateMap(ids, props[n].values))]
  {}

  lemma BatchMeaning(s: Store, ids: seq<Value>, props: seq<Property>, p: nat)
    requires s.Valid() && Aligned(ids, props) && DistinctNames(props) && p < |props|
    ensures var r := BatchColumns(s, ids, props);
            && props[p].name in r.columns && |r.columns[props[p].name]| == |s.ids|
            && forall i: nat :: i < |s.ids| ==>
                 IsCoalesced(s, ids, props[p].values, props[p].name, i, r.columns[props[p].name][i])
  {
    hide UpdateMap, IsCoalesced, Coalesced, BatchColumns;
    var n := |props| - 1;
    LastColumn(s, ids, props);
    if p < n {
      BatchMeaning(s, ids, props[..n], p);
    } else {
      var before := BatchColumns(s, ids, props[..n]);
      OtherColumnsKept(s, ids, props[..n], props[p].name);
      forall i: nat | i < |s.ids|
        ensures IsCoalesced(s, ids, props[p].values, props[p].name, i,
                            BatchColumns(s, ids, props).columns[props[p].name][i])
      {
        CoalescedAt(before, ids, props[p].values, props[p].name, i);
        SameCoalesced(s, before, ids, props[p].values, props[p].name, i);
      }
    }
  }

  lemma SameCoalesced(s: Store, t: Store, ids: seq<Value>, values: seq<Value>, prop: string, i: nat)
    requires s.Valid() && t.Valid() && |ids| == |values| && i < |s.ids| && s.ids == t.ids
    requires prop in s.columns <==> prop in t.columns
    requires prop in s.columns ==> s.columns[prop] == t.columns[prop]
    ensures forall v :: IsCoalesced(s, ids, values, prop, i, v) <==> IsCoalesced(t, ids, values, prop, i, v)
  {}
}
