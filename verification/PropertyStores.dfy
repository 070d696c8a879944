/** The tables a query reads properties from, and what a property lookup means for one row. */
module PropertyStores {
  import opened Values

  /** An id-indexed table: every row has a value (perhaps null) in every column. */
  datatype Table = Table(columns: set<string>, rows: map<Value, map<string, Value>>)

  function Cell(t: Table, id: Value, prop: string): Value {
    if !id.Null? && prop in t.columns && id in t.rows && prop in t.rows[id] then t.rows[id][prop] else Null
  }

  /** Entity types in mapping order, their tables, and the uncommitted shadow copies. */
  datatype Stores = Stores(order: seq<string>, entities: map<string, Table>, relationships: map<string, Table>,
                           shadow: map<string, Table>, shadowRels: map<string, Table>)
  {
    ghost predicate Valid() {
      && (forall t :: t in order <==> t in entities)
      && (forall i, j :: 0 <= i < j < |order| ==> order[i] != order[j])
      && (forall t :: t in shadow ==> t in entities)
      && (forall t :: t in shadowRels ==> t in relationships)
      && (forall t :: t in entities ==> t !in relationships)
    }

    /** An entity type's table: the shadow copy when there is one. */
    function Effective(t: string): Table
      requires t in entities
    {
      if t in shadow then shadow[t] else entities[t]
    }

    /** _get_indexed_dataframe: shadow layers first. */
    function Indexed(t: string): Option<Table> {
      if t in shadow then Some(shadow[t])
      else if t in shadowRels then Some(shadowRels[t])
      else if t in entities then Some(entities[t])
      else if t in relationships then Some(relationships[t])
      else None
    }

    function Lookup(t: string, id: Value, prop: string): Value {
      match Indexed(t)
      case None => Null
      case Some(table) => Cell(table, id, prop)
    }

    /** No non-null id occurs in two entity tables, neither as read now nor as stored. */
    ghost predicate UniqueIds() {
      && (forall t, u, id :: t in entities && u in entities && t != u && id in Effective(t).rows ==>
            id !in Effective(u).rows)
      && (forall t, u, id :: t in entities && u in entities && t != u && id in entities[t].rows ==>
            id !in entities[u].rows)
    }
  }

  ghost predicate Holds(s: Stores, t: string, id: Value, prop: string)
    requires t in s.entities
  {
    prop in s.Effective(t).columns && id in s.Effective(t).rows
  }

  /** Scanning every shadow-or-canonical entity table; a later table overwrites an earlier one. */
  ghost function ScanAll(s: Stores, order: seq<string>, id: Value, prop: string): Value
    requires forall t :: t in order ==> t in s.entities
  {
    if order == [] then Null
    else
      var last := order[|order| - 1];
      if Holds(s, last, id, prop) then Cell(s.Effective(last), id, prop)
      else ScanAll(s, order[..|order| - 1], id, prop)
  }

  /** The value the unique table that holds the id gives, wherever it stands in the order. */
  lemma {:induction false} ScanFinds(s: Stores, order: seq<string>, k: nat, id: Value, prop: string)
    requires forall t :: t in order ==> t in s.entities
    requires forall i, j :: 0 <= i < j < |order| ==> order[i] != order[j]
    requires s.UniqueIds() && k < |order| && Holds(s, order[k], id, prop)
    ensures ScanAll(s, order, id, prop) == Cell(s.Effective(order[k]), id, prop)
  {
    hide Cell;
    var n := |order| - 1;
    if k < n {
      assert order[n] != order[k];
      assert order[n] in order && order[k] in order;
      assert !Holds(s, order[n], id, prop);
      ScanFinds(s, order[..n], k, id, prop);
    }
  }

  lemma {:induction false} ScanMisses(s: Stores, order: seq<string>, id: Value, prop: string)
    requires forall t :: t in order ==> t in s.entities
    requires forall k :: 0 <= k < |order| ==> !Holds(s, order[k], id, prop)
    ensures ScanAll(s, order, id, prop) == Null
  {
    if order != [] {
      ScanMisses(s, order[..|order| - 1], id, prop);
    }
  }

  const MULTI := "__MULTI__"

  /** The value a row's id has for a property: by its variable's type, or across all entity tables. */
  ghost function Reference(s: Stores, registry: map<string, string>, name: string, id: Value, prop: string): Value
    requires s.Valid()
  {
    if name in registry && registry[name] != MULTI then s.Lookup(registry[name], id, prop)
    else if id.Null? then Null else ScanAll(s, s.order, id, prop)
  }

  // ---- What a read gives, on the stored maps ----

  /** The table has a cell for the id and the property. */
  ghost predicate Present(t: Table, id: Value, prop: string) {
    id != Null && prop in t.columns && id in t.rows && prop in t.rows[id]
  }

  /** v is that cell's value, or null where there is no such cell. */
  ghost predicate IsCellOf(t: Table, id: Value, prop: string, v: Value) {
    if Present(t, id, prop) then v == t.rows[id][prop] else v == Null
  }

  /** The value of a row whose variable has entity or relationship type t: the uncommitted table is read before the
      stored one, and an unknown type gives null. */
  ghost predicate IsTypedRead(s: Stores, t: string, id: Value, prop: string, v: Value) {
    && (t in s.shadow ==> IsCellOf(s.shadow[t], id, prop, v))
    && (t in s.shadowRels ==> IsCellOf(s.shadowRels[t], id, prop, v))
    && (t in s.entities && t !in s.shadow ==> IsCellOf(s.entities[t], id, prop, v))
    && (t in s.relationships && t !in s.shadowRels ==> IsCellOf(s.relationships[t], id, prop, v))
    && (t !in s.entities && t !in s.relationships ==> v == Null)
  }

  /** Some entity table, uncommitted before stored, has a cell for the id. */
  ghost predicate SomewherePresent(s: Stores, id: Value, prop: string) {
    || (exists t :: t in s.shadow && Present(s.shadow[t], id, prop))
    || (exists t :: t in s.entities && t !in s.shadow && Present(s.entities[t], id, prop))
  }

  /** The value of a row of any entity type: that of the table that has the cell. */
  ghost predicate IsUntypedRead(s: Stores, id: Value, prop: string, v: Value) {
    && (forall t :: t in s.shadow && Present(s.shadow[t], id, prop) ==> v == s.shadow[t].rows[id][prop])
    && (forall t :: t in s.entities && t !in s.shadow && Present(s.entities[t], id, prop) ==>
          v == s.entities[t].rows[id][prop])
    && (!SomewherePresent(s, id, prop) ==> v == Null)
  }

  ghost predicate IsRead(s: Stores, registry: map<string, string>, name: string, id: Value, prop: string, v: Value) {
    if name in registry && registry[name] != "__MULTI__" then IsTypedRead(s, registry[name], id, prop, v)
    else IsUntypedRead(s, id, prop, v)
  }

  lemma TypedReads(s: Stores, t: string, id: Value, prop: string)
    requires s.Valid()
    ensures IsTypedRead(s, t, id, prop, s.Lookup(t, id, prop))
  {}

  lemma PresentIsHeld(s: Stores, t: string, id: Value, prop: string)
    requires s.Valid() && t in s.entities && id != Null
    ensures var table := if t in s.shadow then s.shadow[t] else s.entities[t];
            && (Present(table, id, prop) ==>
                  Holds(s, t, id, prop) && Cell(s.Effective(t), id, prop) == table.rows[id][prop])
            && (!Present(table, id, prop) ==> Cell(s.Effective(t), id, prop) == Null)
  {}

  /** Scanning all entity tables reads the one that has the cell. */
  lemma UntypedReads(s: Stores, id: Value, prop: string)
    requires s.Valid() && s.UniqueIds() && id != Null
    ensures IsUntypedRead(s, id, prop, ScanAll(s, s.order, id, prop))
  {
    hide Cell, Present, Holds, ScanAll, Stores.UniqueIds;
    forall t | t in s.entities && Present(if t in s.shadow then s.shadow[t] else s.entities[t], id, prop)
      ensures IsCellOf(if t in s.shadow then s.shadow[t] else s.entities[t], id, prop,
                       ScanAll(s, s.order, id, prop))
    {
      PresentIsHeld(s, t, id, prop);
      var k :| 0 <= k < |s.order| && s.order[k] == t;
      ScanFinds(s, s.order, k, id, prop);
    }
    if !SomewherePresent(s, id, prop) {
      NowhereScanned(s, id, prop);
    }
  }

  lemma NowhereScanned(s: Stores, id: Value, prop: string)
    requires s.Valid() && s.UniqueIds() && id != Null && !SomewherePresent(s, id, prop)
    ensures ScanAll(s, s.order, id, prop) == Null
  {
    hide Cell, Present, ScanAll, Stores.UniqueIds;
    if k :| 0 <= k < |s.order| && Holds(s, s.order[k], id, prop) {
      ScanFinds(s, s.order, k, id, prop);
      PresentIsHeld(s, s.order[k], id, prop);
    } else {
      ScanMisses(s, s.order, id, prop);
    }
  }

  /** What the lookups compute is what the stored maps hold. */
  lemma ReferenceReads(s: Stores, registry: map<string, string>, name: string, id: Value, prop: string)
    requires s.Valid() && ((name in registry && registry[name] != MULTI) || s.UniqueIds())
    ensures IsRead(s, registry, name, id, prop, Reference(s, registry, name, id, prop))
  {
    hide ScanAll, IsTypedRead, Stores.Lookup, Stores.UniqueIds, Stores.Valid;
    if name in registry && registry[name] != MULTI {
      TypedReads(s, registry[name], id, prop);
    } else if id != Null {
      hide IsUntypedRead;
      UntypedReads(s, id, prop);
    }
  }

  /** Reading after a write: a type with an uncommitted table reads that table, any other its stored one. */
  lemma ReadAfterWrite(s: Stores, newShadow: map<string, Table>, newRels: map<string, Table>,
                       registry: map<string, string>, name: string, id: Value, prop: string)
    requires s.Valid() && s.(shadow := newShadow, shadowRels := newRels).Valid()
    requires name in registry && registry[name] != MULTI
    ensures var v, t := Reference(s.(shadow := newShadow, shadowRels := newRels), registry, name, id, prop),
                        registry[name];
            && (t in newShadow ==> IsCellOf(newShadow[t], id, prop, v))
            && (t in newRels ==> IsCellOf(newRels[t], id, prop, v))
            && (t in s.entities && t !in newShadow ==> IsCellOf(s.entities[t], id, prop, v))
            && (t in s.relationships && t !in newRels ==> IsCellOf(s.relationships[t], id, prop, v))
  {
    hide IsCellOf, Stores.Lookup, Stores.Valid;
    TypedReads(s.(shadow := newShadow, shadowRels := newRels), registry[name], id, prop);
  }

  // ---- The id -> type map ----

  function TypeMap(entities: map<string, Table>, order: seq<string>): (m: map<Value, string>)
    requires forall t :: t in order ==> t in entities
    ensures forall id :: id in m ==> m[id] in order && id in entities[m[id]].rows
    ensures forall id, t :: t in order && id in entities[t].rows ==> id in m
  {
    if order == [] then map[]
    else
      var last := order[|order| - 1];
      assert order == order[..|order| - 1] + [last];
      TypeMap(entities, order[..|order| - 1]) + map id | id in entities[last].rows :: last
  }

  lemma TypeMapIsExact(s: Stores, t: string, id: Value)
    requires s.Valid() && s.UniqueIds() && t in s.entities && id in s.entities[t].rows
    ensures id in TypeMap(s.entities, s.order) && TypeMap(s.entities, s.order)[id] == t
  {}
}
