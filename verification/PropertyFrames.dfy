/** get_property, its batched and multi-type routes, filter, and the cache the frames carry between clauses. */
module PropertyFrames {
  import opened Values
  import opened RowSemantics
  import opened PropertyStores
  import QueryLaws

  /** Keys of the context's lookup cache: entity types, and relationship types under their own prefix. */
  datatype CacheKey = EntityKey(name: string) | RelKey(name: string)

  class Context {
    const order: seq<string>
    const entities: map<string, Table>
    const relationships: map<string, Table>
    var shadow: map<string, Table>
    var shadowRels: map<string, Table>
    var lookupCache: map<CacheKey, Table>
    var idTypes: Option<map<Value, string>>

    ghost function Stores(): Stores
      reads this
    {
      PropertyStores.Stores.Stores(order, entities, relationships, shadow, shadowRels)
    }

    ghost predicate Valid()
      reads this
    {
      && Stores().Valid()
      && (forall k :: k in lookupCache ==> match k
            case EntityKey(t) => t in entities && lookupCache[k] == entities[t]
            case RelKey(t) => t in relationships && lookupCache[k] == relationships[t])
      && (idTypes.Some? ==> idTypes.value == TypeMap(entities, order))
    }

    constructor (order: seq<string>, entities: map<string, Table>, relationships: map<string, Table>)
      requires PropertyStores.Stores.Stores(order, entities, relationships, map[], map[]).Valid()
      ensures Valid() && Stores() == PropertyStores.Stores.Stores(order, entities, relationships, map[], map[])
    {
      this.order, this.entities, this.relationships := order, entities, relationships;
      shadow, shadowRels, lookupCache, idTypes := map[], map[], map[], None;
    }

    /** The canonical entity table, converted and cached on first use. */
    method Canonical(t: string) returns (table: Table)
      requires Valid() && t in entities
      modifies this`lookupCache
      ensures Valid() && table == entities[t]
    {
      if EntityKey(t) !in lookupCache {
        lookupCache := lookupCache[EntityKey(t) := entities[t]];
      }
      table := lookupCache[EntityKey(t)];
    }

    method IndexedTable(t: string) returns (table: Option<Table>)
      requires Valid()
      modifies this`lookupCache
      ensures Valid() && table == Stores().Indexed(t)
    {
      if t in shadow {
        return Some(shadow[t]);
      }
      if t in shadowRels {
        return Some(shadowRels[t]);
      }
      if t in entities {
        var canonical := Canonical(t);
        return Some(canonical);
      }
      if t in relationships {
        if RelKey(t) !in lookupCache {
          lookupCache := lookupCache[RelKey(t) := relationships[t]];
        }
        return Some(lookupCache[RelKey(t)]);
      }
      return None;
    }

    method IdTypeMap() returns (m: map<Value, string>)
      requires Valid()
      modifies this`idTypes
      ensures Valid() && m == TypeMap(entities, order)
    {
      if idTypes.None? {
        idTypes := Some(TypeMap(entities, order));
      }
      m := idTypes.value;
    }

    /** The outcome of a SET, REMOVE or DELETE: other shadow tables, the stored tables untouched. */
    method ReplaceShadows(newShadow: map<string, Table>, newShadowRels: map<string, Table>)
      requires Valid()
      requires PropertyStores.Stores.Stores(order, entities, relationships, newShadow, newShadowRels).Valid()
      modifies this`shadow, this`shadowRels
      ensures Valid() && Stores() == old(Stores()).(shadow := newShadow, shadowRels := newShadowRels)
    {
      shadow, shadowRels := newShadow, newShadowRels;
    }
  }

  // ---- Column-level specifications ----

  function NonNull(ids: seq<Value>): (r: set<Value>)
    ensures forall v :: v in r <==> v in ids && !v.Null?
  {
    set i | 0 <= i < |ids| && !ids[i].Null? :: ids[i]
  }

  /** Every non-null id of the column is in t's table. */
  ghost predicate Contains(s: Stores, t: string, ids: set<Value>)
    requires t in s.entities
  {
    forall id :: id in ids ==> id in s.Effective(t).rows
  }

  ghost function ReferenceColumn(s: Stores, registry: map<string, string>, name: string, ids: seq<Value>, prop: string)
    : (r: seq<Value>)
    requires s.Valid()
    ensures |r| == |ids| && forall i :: 0 <= i < |ids| ==> r[i] == Reference(s, registry, name, ids[i], prop)
  {
    seq(|ids|, i requires 0 <= i < |ids| => Reference(s, registry, name, ids[i], prop))
  }

  /** Every entry of the column is what the stored maps hold for its row's id. */
  ghost predicate AreReads(s: Stores, registry: map<string, string>, name: string, ids: seq<Value>, prop: string,
                           column: seq<Value>)
  {
    |column| == |ids| && forall i :: 0 <= i < |ids| ==> IsRead(s, registry, name, ids[i], prop, column[i])
  }

  lemma ColumnReads(s: Stores, registry: map<string, string>, name: string, ids: seq<Value>, prop: string)
    requires s.Valid() && ((name in registry && registry[name] != MULTI) || s.UniqueIds())
    ensures AreReads(s, registry, name, ids, prop, ReferenceColumn(s, registry, name, ids, prop))
  {
    hide Reference, IsRead, Stores.UniqueIds, Stores.Valid;
    forall i | 0 <= i < |ids|
      ensures IsRead(s, registry, name, ids[i], prop, ReferenceColumn(s, registry, name, ids, prop)[i])
    {
      ReferenceReads(s, registry, name, ids[i], prop);
    }
  }

  function MapIds(ids: seq<Value>, table: Table, prop: string): (r: seq<Value>)
    ensures |r| == |ids| && forall i :: 0 <= i < |ids| ==> r[i] == Cell(table, ids[i], prop)
  {
    seq(|ids|, i requires 0 <= i < |ids| => Cell(table, ids[i], prop))
  }

  function Nulls(n: nat): (r: seq<Value>)
    ensures |r| == n && forall i :: 0 <= i < n ==> r[i] == Null
  {
    seq(n, i => Null)
  }

  // ---- The multi-type lookup ----

  /** After the first k tables: what is resolved is resolved as a full scan would, what is still needed is nowhere in
      them. */
  ghost predicate Resolved(s: Stores, k: nat, wanted: set<Value>, needed: set<Value>, found: map<Value, Value>,
                           prop: string)
    requires s.Valid() && k <= |s.order|
  {
    && needed <= wanted && found.Keys == wanted - needed
    && (forall id :: id in found ==> found[id] == ScanAll(s, s.order, id, prop))
    && (forall id, j :: id in needed && 0 <= j < k ==> !Holds(s, s.order[j], id, prop))
  }

  lemma HitIsScanned(s: Stores, k: nat, id: Value, prop: string)
    requires s.Valid() && s.UniqueIds() && k < |s.order| && Holds(s, s.order[k], id, prop)
    ensures Cell(s.Effective(s.order[k]), id, prop) == ScanAll(s, s.order, id, prop)
  {
    ScanFinds(s, s.order, k, id, prop);
  }

  lemma ResolveTable(s: Stores, k: nat, wanted: set<Value>, needed: set<Value>, found: map<Value, Value>, prop: string)
    requires s.Valid() && s.UniqueIds() && k < |s.order|
    requires Resolved(s, k, wanted, needed, found, prop)
    requires prop in s.Effective(s.order[k]).columns
    ensures var table := s.Effective(s.order[k]);
            var hits := set id | id in needed && id in table.rows;
            Resolved(s, k + 1, wanted, needed - hits, found + (map id | id in hits :: Cell(table, id, prop)), prop)
  {
    hide Cell, ScanAll, Stores.UniqueIds;
    var table := s.Effective(s.order[k]);
    var hits := set id | id in needed && id in table.rows;
    forall id | id in hits
      ensures Cell(table, id, prop) == ScanAll(s, s.order, id, prop)
    {
      HitIsScanned(s, k, id, prop);
    }
  }

  lemma FullyResolved(s: Stores, k: nat, wanted: set<Value>, needed: set<Value>, found: map<Value, Value>, prop: string)
    requires s.Valid() && k <= |s.order| && Resolved(s, k, wanted, needed, found, prop)
    requires needed == {} || k == |s.order|
    ensures forall id :: id in wanted ==> ScanAll(s, s.order, id, prop) == if id in found then found[id] else Null
  {
    hide ScanAll, Holds;
    forall id | id in wanted && id !in found
      ensures ScanAll(s, s.order, id, prop) == Null
    {
      ScanMisses(s, s.order, id, prop);
    }
  }

  /** One table of the scan: skipped when irrelevant, lacking the property, or without hits. */
  method ScanTable(ctx: Context, k: nat, relevant: set<string>, ghost wanted: set<Value>, needed: set<Value>,
                   found: map<Value, Value>, foundAny: bool, prop: string)
    returns (needed': set<Value>, found': map<Value, Value>, foundAny': bool)
    requires ctx.Valid() && ctx.Stores().UniqueIds() && k < |ctx.order|
    requires Resolved(ctx.Stores(), k, wanted, needed, found, prop) && (!foundAny ==> found == map[])
    requires var m := TypeMap(ctx.entities, ctx.order); forall id :: id in wanted && id in m ==> m[id] in relevant
    modifies ctx`lookupCache
    ensures ctx.Valid() && ctx.Stores() == old(ctx.Stores())
    ensures Resolved(ctx.Stores(), k + 1, wanted, needed', found', prop) && (!foundAny' ==> found' == map[])
  {
    hide ScanAll, Cell, Resolved, Stores.UniqueIds, TypeMap;
    ghost var s := ctx.Stores();
    var t := ctx.order[k];
    needed', found', foundAny' := needed, found, foundAny;
    if t !in ctx.shadow && t !in relevant {
      IrrelevantTable(s, k, wanted, needed, found, prop, relevant);
      SkipTable(s, k, wanted, needed, found, prop);
      return;
    }
    var table;
    if t in ctx.shadow {
      table := ctx.shadow[t];
    } else {
      table := ctx.Canonical(t);
    }
    assert table == s.Effective(t);
    if prop !in table.columns {
      SkipTable(s, k, wanted, needed, found, prop);
      return;
    }
    var hits := set id | id in needed && id in table.rows;
    if hits == {} {
      assert forall id :: id in needed && id in table.rows ==> id in hits;
      NoHits(s, k, wanted, needed, found, prop);
      return;
    }
    ResolveTable(s, k, wanted, needed, found, prop);
    foundAny' := true;
    found' := found + map id | id in hits :: Cell(table, id, prop);
    needed' := needed - hits;
  }

  /** _get_property_multitype: skips irrelevant tables, takes only needed ids, stops when none are left. */
  method MultiTypeLookup(ctx: Context, ids: seq<Value>, prop: string) returns (r: Option<seq<Value>>)
    requires ctx.Valid() && ctx.Stores().UniqueIds()
    modifies ctx`lookupCache, ctx`idTypes
    ensures ctx.Valid() && ctx.Stores() == old(ctx.Stores())
    ensures forall i :: 0 <= i < |ids| ==>
              (if ids[i].Null? then Null else ScanAll(ctx.Stores(), ctx.order, ids[i], prop))
              == (if r.Some? && i < |r.value| then r.value[i] else Null)
    ensures r.Some? ==> |r.value| == |ids|
    ensures forall i :: 0 <= i < |ids| ==>
              IsUntypedRead(ctx.Stores(), ids[i], prop, if r.Some? && i < |r.value| then r.value[i] else Null)
  {
    hide ScanAll, Cell, Resolved, Stores.UniqueIds, TypeMap, IsUntypedRead;
    ghost var s := ctx.Stores();
    forall i | 0 <= i < |ids|
      ensures IsUntypedRead(s, ids[i], prop, if ids[i].Null? then Null else ScanAll(s, s.order, ids[i], prop))
    {
      ScannedOrNull(s, ids[i], prop);
    }
    var needed := NonNull(ids);
    if needed == {} {
      return Some(Nulls(|ids|));
    }
    ghost var wanted := needed;
    var idTypes := ctx.IdTypeMap();
    var relevant := set id | id in needed && id in idTypes :: idTypes[id];
    var found: map<Value, Value> := map[];
    var foundAny := false;
    assert Resolved(s, 0, wanted, needed, found, prop) by { NothingResolved(s, wanted, prop); }
    var k := 0;
    while k < |ctx.order| && needed != {}
      invariant 0 <= k <= |ctx.order|
      invariant ctx.Valid() && ctx.Stores() == s
      invariant Resolved(s, k, wanted, needed, found, prop)
      invariant !foundAny ==> found == map[]
    {
      needed, found, foundAny := ScanTable(ctx, k, relevant, wanted, needed, found, foundAny, prop);
      k := k + 1;
    }
    FullyResolved(s, k, wanted, needed, found, prop);
    if !foundAny {
      return None;
    }
    r := Some(seq(|ids|, i requires 0 <= i < |ids| => if ids[i] in found then found[ids[i]] else Null));
    assert Null !in found by { OnlyWanted(s, k, wanted, needed, found, prop); }
  }

  lemma ScannedOrNull(s: Stores, id: Value, prop: string)
    requires s.Valid() && s.UniqueIds()
    ensures IsUntypedRead(s, id, prop, if id.Null? then Null else ScanAll(s, s.order, id, prop))
  {
    hide ScanAll, Stores.UniqueIds;
    if !id.Null? {
      UntypedReads(s, id, prop);
    }
  }

  lemma NothingResolved(s: Stores, wanted: set<Value>, prop: string)
    requires s.Valid()
    ensures Resolved(s, 0, wanted, wanted, map[], prop)
  {}

  lemma OnlyWanted(s: Stores, k: nat, wanted: set<Value>, needed: set<Value>, found: map<Value, Value>, prop: string)
    requires s.Valid() && k <= |s.order| && Resolved(s, k, wanted, needed, found, prop)
    ensures found.Keys <= wanted
  {}

  lemma NoHits(s: Stores, k: nat, wanted: set<Value>, needed: set<Value>, found: map<Value, Value>, prop: string)
    requires s.Valid() && k < |s.order| && Resolved(s, k, wanted, needed, found, prop)
    requires forall id :: id in needed ==> id !in s.Effective(s.order[k]).rows
    ensures Resolved(s, k + 1, wanted, needed, found, prop)
  {
    hide ScanAll;
  }

  lemma SkipTable(s: Stores, k: nat, wanted: set<Value>, needed: set<Value>, found: map<Value, Value>, prop: string)
    requires s.Valid() && k < |s.order| && Resolved(s, k, wanted, needed, found, prop)
    requires forall id :: id in needed ==> !Holds(s, s.order[k], id, prop)
    ensures Resolved(s, k + 1, wanted, needed, found, prop)
  {
    hide ScanAll, Holds;
  }

  /** A table no needed id points to holds none of them. */
  lemma IrrelevantTable(s: Stores, k: nat, wanted: set<Value>, needed: set<Value>, found: map<Value, Value>,
                        prop: string, relevant: set<string>)
    requires s.Valid() && s.UniqueIds() && k < |s.order| && Resolved(s, k, wanted, needed, found, prop)
    requires s.order[k] !in s.shadow && s.order[k] !in relevant
    requires var m := TypeMap(s.entities, s.order); forall id :: id in wanted && id in m ==> m[id] in relevant
    ensures forall id :: id in needed ==> !Holds(s, s.order[k], id, prop)
  {
    hide ScanAll;
    forall id | id in needed && Holds(s, s.order[k], id, prop)
      ensures false
    {
      TypeMapIsExact(s, s.order[k], id);
    }
  }

  // ---- Type inference for unregistered variables ----

  /** The first entity type whose table contains all the ids. */
  ghost function InferSpec(s: Stores, order: seq<string>, ids: set<Value>): (r: Option<string>)
    requires forall t :: t in order ==> t in s.entities
    ensures r.Some? ==> r.value in order && Contains(s, r.value, ids)
  {
    if ids == {} || order == [] then None
    else
      var rest := InferSpec(s, order[..|order| - 1], ids);
      if rest.Some? then rest
      else if Contains(s, order[|order| - 1], ids) then Some(order[|order| - 1]) else None
  }

  lemma AllHit(ids: set<Value>, rows: set<Value>)
    ensures |set id | id in ids && id in rows| >= |ids| <==> ids <= rows
  {
    var hits := set id | id in ids && id in rows;
    assert hits == ids * rows;
    assert ids == hits + (ids - rows) && hits !! (ids - rows);
    assert |ids| == |hits| + |ids - rows|;
    if ids - rows == {} {
      assert ids <= rows;
    }
  }

  method InferEntityType(ctx: Context, ids: seq<Value>) returns (r: Option<string>)
    requires ctx.Valid()
    modifies ctx`lookupCache
    ensures ctx.Valid() && ctx.Stores() == old(ctx.Stores())
    ensures r == InferSpec(ctx.Stores(), ctx.order, NonNull(ids))
  {
    hide Contains;
    var varIds := NonNull(ids);
    if varIds == {} {
      return None;
    }
    for k := 0 to |ctx.order|
      invariant ctx.Valid() && ctx.Stores() == old(ctx.Stores())
      invariant InferSpec(ctx.Stores(), ctx.order[..k], varIds) == None
    {
      assert ctx.order[..k + 1][..k] == ctx.order[..k];
      var t := ctx.order[k];
      var table;
      if t in ctx.shadow {
        table := ctx.shadow[t];
      } else {
        table := ctx.Canonical(t);
      }
      var hitCount := |set id | id in varIds && id in table.rows|;
      AllHit(varIds, table.rows.Keys);
      assert (set id | id in varIds && id in table.rows) == (set id | id in varIds && id in table.rows.Keys);
      ContainsIsSubset(ctx.Stores(), t, varIds);
      if hitCount >= |varIds| {
        InferStable(ctx.Stores(), ctx.order, k + 1, varIds);
        return Some(t);
      }
    }
    assert ctx.order[..|ctx.order|] == ctx.order;
    return None;
  }

  lemma ContainsIsSubset(s: Stores, t: string, ids: set<Value>)
    requires t in s.entities
    ensures Contains(s, t, ids) <==> ids <= s.Effective(t).rows.Keys
  {}

  lemma {:induction false} InferStable(s: Stores, order: seq<string>, k: nat, ids: set<Value>)
    requires forall t :: t in order ==> t in s.entities
    requires k <= |order| && InferSpec(s, order[..k], ids).Some?
    ensures InferSpec(s, order, ids) == InferSpec(s, order[..k], ids)
    decreases |order|
  {
    if k < |order| {
      var init := order[..|order| - 1];
      assert init[..k] == order[..k];
      InferStable(s, init, k, ids);
    } else {
      assert order[..k] == order;
    }
  }

  /** Type t's table, uncommitted before stored, has every one of the ids. */
  ghost predicate HasAll(s: Stores, t: string, ids: set<Value>)
    requires t in s.entities
  {
    if t in s.shadow then ids <= s.shadow[t].rows.Keys else ids <= s.entities[t].rows.Keys
  }

  /** order[k] is the first type that has all the ids. */
  ghost predicate IsFirstType(s: Stores, order: seq<string>, ids: set<Value>, k: nat)
    requires forall t :: t in order ==> t in s.entities
  {
    k < |order| && HasAll(s, order[k], ids) && forall j :: 0 <= j < k ==> !HasAll(s, order[j], ids)
  }

  ghost predicate NoneHasAll(s: Stores, order: seq<string>, ids: set<Value>)
    requires forall t :: t in order ==> t in s.entities
  {
    forall j :: 0 <= j < |order| ==> !HasAll(s, order[j], ids)
  }

  /** Inference answers with the first type that has all the ids, and not at all without ids or such a type. */
  lemma {:induction false} InferMeaning(s: Stores, order: seq<string>, ids: set<Value>) returns (k: nat)
    requires forall t :: t in order ==> t in s.entities
    ensures InferSpec(s, order, ids).None? <==> ids == {} || NoneHasAll(s, order, ids)
    ensures InferSpec(s, order, ids).Some? ==>
              IsFirstType(s, order, ids, k) && InferSpec(s, order, ids) == Some(order[k])
  {
    hide HasAll, Contains;
    k := 0;
    if order != [] && ids != {} {
      var n := |order| - 1;
      var init := order[..n];
      k := InferMeaning(s, init, ids);
      HasAllIs(s, order[n], ids);
      FirstTypeGrows(s, order, ids, k);
      if InferSpec(s, init, ids).None? {
        k := n;
      }
    }
  }

  lemma FirstTypeGrows(s: Stores, order: seq<string>, ids: set<Value>, k: nat)
    requires order != [] && forall t :: t in order ==> t in s.entities
    ensures var n := |order| - 1;
            && (IsFirstType(s, order[..n], ids, k) ==> IsFirstType(s, order, ids, k))
            && (NoneHasAll(s, order, ids) <==> NoneHasAll(s, order[..n], ids) && !HasAll(s, order[n], ids))
            && (NoneHasAll(s, order[..n], ids) && HasAll(s, order[n], ids) ==> IsFirstType(s, order, ids, n))
            && (IsFirstType(s, order[..n], ids, k) ==> !NoneHasAll(s, order, ids))
  {
    hide HasAll;
    assert forall j :: 0 <= j < |order| - 1 ==> order[..|order| - 1][j] == order[j];
  }

  lemma HasAllIs(s: Stores, t: string, ids: set<Value>)
    requires t in s.entities
    ensures HasAll(s, t, ids) <==> Contains(s, t, ids)
  {}

  /** With unique ids the inferred table's answer is the full scan's answer. */
  lemma InferredLookup(s: Stores, t: string, ids: set<Value>, id: Value, prop: string)
    requires s.Valid() && s.UniqueIds() && t in s.entities && Contains(s, t, ids) && id in ids && !id.Null?
    ensures s.Lookup(t, id, prop) == ScanAll(s, s.order, id, prop)
  {
    hide ScanAll;
    assert t !in s.shadowRels;
    var k :| 0 <= k < |s.order| && s.order[k] == t;
    if prop in s.Effective(t).columns {
      ScanFinds(s, s.order, k, id, prop);
    } else {
      forall j | 0 <= j < |s.order|
        ensures !Holds(s, s.order[j], id, prop)
      {}
      ScanMisses(s, s.order, id, prop);
    }
  }

  lemma InferredColumn(s: Stores, registry: map<string, string>, name: string, t: string, ids: seq<Value>, prop: string)
    requires s.Valid() && s.UniqueIds() && name !in registry && t in s.entities && Contains(s, t, NonNull(ids))
    ensures forall i :: 0 <= i < |ids| ==> s.Lookup(t, ids[i], prop) == Reference(s, registry, name, ids[i], prop)
  {
    hide ScanAll, Contains, Stores.UniqueIds;
    forall i | 0 <= i < |ids|
      ensures s.Lookup(t, ids[i], prop) == Reference(s, registry, name, ids[i], prop)
    {
      if !ids[i].Null? {
        InferredLookup(s, t, NonNull(ids), ids[i], prop);
      }
    }
  }

  // ---- Frames ----

  class Frame {
    const ctx: Context
    const bindings: map<string, seq<Value>>
    const n: nat
    const registry: map<string, string>
    var cache: map<(string, string), seq<Value>>

    ghost predicate Valid()
      reads this, ctx
    {
      ctx.Valid() && forall v :: v in bindings ==> |bindings[v]| == n
    }

    /** Every cached column is what looking the rows up afresh would give. */
    ghost predicate Fresh()
      requires Valid()
      reads this, ctx
    {
      forall key :: key in cache ==>
        key.0 in bindings && cache[key] == ReferenceColumn(ctx.Stores(), registry, key.0, bindings[key.0], key.1)
    }

    constructor (ctx: Context, bindings: map<string, seq<Value>>, n: nat, registry: map<string, string>,
                 cache: map<(string, string), seq<Value>>)
      requires ctx.Valid() && forall v :: v in bindings ==> |bindings[v]| == n
      ensures Valid() && this.ctx == ctx && this.bindings == bindings && this.n == n && this.registry == registry
      ensures this.cache == cache
    {
      this.ctx, this.bindings, this.n, this.registry, this.cache := ctx, bindings, n, registry, cache;
    }

    /** The variable has a single registered type, or ids identify their table. */
    ghost predicate Answerable(name: string)
      requires Valid()
      reads this, ctx
    {
      (name in registry && registry[name] != MULTI) || ctx.Stores().UniqueIds()
    }

    /** An unregistered variable whose ids no entity table holds all of. */
    ghost predicate Undecidable(name: string)
      requires Valid() && name in bindings
      reads this, ctx
    {
      name !in registry && n > 0 && InferSpec(ctx.Stores(), ctx.order, NonNull(bindings[name])).None?
    }

    method GetProperty(name: string, prop: string) returns (r: Res<seq<Value>>)
      requires Valid() && Fresh() && Answerable(name)
      modifies this`cache, ctx`lookupCache, ctx`idTypes
      ensures Valid() && Fresh() && ctx.Stores() == old(ctx.Stores())
      ensures forall key :: key in old(cache) ==> key in cache && cache[key] == old(cache[key])
      ensures forall key :: key in cache && key !in old(cache) ==> key == (name, prop)
      ensures r.Ok? ==>
                name in bindings
                && r.value == ReferenceColumn(ctx.Stores(), registry, name, bindings[name], prop)
      ensures r.Ok? ==> AreReads(ctx.Stores(), registry, name, bindings[name], prop, r.value)
      ensures r.Err? <==> (name, prop) !in old(cache)
                          && (name !in bindings || Undecidable(name))
    {
      hide ScanAll, Contains, Stores.UniqueIds, Stores.Valid, InferSpec, AreReads;
      if name in bindings {
        ColumnReads(ctx.Stores(), registry, name, bindings[name], prop);
      }
      if (name, prop) in cache {
        return Ok(cache[(name, prop)]);
      }
      if name !in bindings {
        return Err;
      }
      var ids := bindings[name];
      var column, keep;
      if name in registry && registry[name] == MULTI {
        var found := MultiTypeLookup(ctx, ids, prop);
        column, keep := if found.Some? then found.value else Nulls(n), true;
      } else {
        var entityType;
        if name in registry {
          entityType := registry[name];
        } else {
          var inferred := InferEntityType(ctx, ids);
          if inferred.None? {
            if n == 0 {
              return Ok([]);
            }
            return Err;
          }
          entityType := inferred.value;
          TypedOrInferred(ctx.Stores(), registry, name, entityType, ids, prop);
        }
        column, keep := TypedColumn(ctx, entityType, ids, prop);
      }
      assert column == ReferenceColumn(ctx.Stores(), registry, name, ids, prop);
      if keep {
        cache := cache[(name, prop) := column];
      }
      return Ok(column);
    }

    /** get_properties_batch: cached columns first, then one pass for the rest, or single lookups when the type is not
        settled. */
    method GetPropertiesBatch(name: string, props: seq<string>) returns (r: Res<map<string, seq<Value>>>)
      requires Valid() && Fresh() && Answerable(name)
      modifies this`cache, ctx`lookupCache, ctx`idTypes
      ensures Valid() && Fresh() && ctx.Stores() == old(ctx.Stores())
      ensures r.Ok? ==> r.value.Keys == (set p | p in props)
      ensures r.Ok? ==> forall p :: p in r.value ==>
                name in bindings && r.value[p] == ReferenceColumn(ctx.Stores(), registry, name, bindings[name], p)
      ensures r.Ok? ==> forall p :: p in r.value ==>
                AreReads(ctx.Stores(), registry, name, bindings[name], p, r.value[p])
      ensures r.Err? <==> (exists p :: p in props && (name, p) !in old(cache))
                          && (name !in bindings || Undecidable(name))
    {
      hide Reference, ReferenceColumn, InferSpec, Stores.UniqueIds, Stores.Valid, AreReads;
      forall p | name in bindings
        ensures AreReads(ctx.Stores(), registry, name, bindings[name], p,
                         ReferenceColumn(ctx.Stores(), registry, name, bindings[name], p))
      {
        ColumnReads(ctx.Stores(), registry, name, bindings[name], p);
      }
      var results: map<string, seq<Value>> := map[];
      var uncached: seq<string> := [];
      for k := 0 to |props|
        invariant results.Keys + (set p | p in uncached) == (set p | p in props[..k])
        invariant forall p :: p in uncached ==> (name, p) !in cache && p in props
        invariant forall p :: p in results ==> (name, p) in cache && results[p] == cache[(name, p)]
      {
        var p := props[k];
        assert props[..k + 1] == props[..k] + [p];
        if (name, p) in cache {
          results := results[p := cache[(name, p)]];
        } else {
          uncached := uncached + [p];
        }
      }
      assert props[..|props|] == props;
      if uncached == [] {
        return Ok(results);
      }
      assert uncached[0] in uncached;
      if name !in bindings {
        return Err;
      }
      if name !in registry || registry[name] == MULTI {
        r := SingleLookups(name, uncached, results);
      } else {
        var fetched := BatchColumns(name, uncached);
        r := Ok(fetched + results);
      }
    }

    /** The fallback: one get_property per uncached name. */
    method SingleLookups(name: string, uncached: seq<string>, results: map<string, seq<Value>>)
      returns (r: Res<map<string, seq<Value>>>)
      requires Valid() && Fresh() && Answerable(name) && name in bindings && uncached != []
      requires forall p :: p in uncached ==> (name, p) !in cache
      requires forall p :: p in results ==>
                 results[p] == ReferenceColumn(ctx.Stores(), registry, name, bindings[name], p)
      modifies this`cache, ctx`lookupCache, ctx`idTypes
      ensures Valid() && Fresh() && ctx.Stores() == old(ctx.Stores())
      ensures r.Ok? ==> r.value.Keys == results.Keys + (set p | p in uncached)
      ensures r.Ok? ==> forall p :: p in r.value ==>
                r.value[p] == ReferenceColumn(ctx.Stores(), registry, name, bindings[name], p)
      ensures r.Err? <==> Undecidable(name)
    {
      hide Reference, ReferenceColumn, InferSpec, Stores.UniqueIds, Stores.Valid;
      var out := results;
      for k := 0 to |uncached|
        invariant Valid() && Fresh() && ctx.Stores() == old(ctx.Stores())
        invariant out.Keys == results.Keys + (set p | p in uncached[..k])
        invariant forall p :: p in out ==> out[p] == ReferenceColumn(ctx.Stores(), registry, name, bindings[name], p)
        invariant forall p :: p in uncached && p !in uncached[..k] ==> (name, p) !in cache
        invariant k > 0 ==> !Undecidable(name)
      {
        var p := uncached[k];
        assert uncached[..k + 1] == uncached[..k] + [p];
        var column := GetProperty(name, p);
        if column.Err? {
          return Err;
        }
        out := out[p := column.value];
      }
      assert uncached[..|uncached|] == uncached;
      r := Ok(out);
    }

    /** The standard batch path for a registered type: one table, all columns, everything cached. */
    method BatchColumns(name: string, props: seq<string>) returns (results: map<string, seq<Value>>)
      requires Valid() && Fresh() && name in bindings && name in registry && registry[name] != MULTI
      modifies this`cache, ctx`lookupCache
      ensures Valid() && Fresh() && ctx.Stores() == old(ctx.Stores())
      ensures results.Keys == (set p | p in props)
      ensures forall p :: p in results ==>
                results[p] == ReferenceColumn(ctx.Stores(), registry, name, bindings[name], p)
                && AreReads(ctx.Stores(), registry, name, bindings[name], p, results[p])
    {
      hide Stores.UniqueIds, Stores.Valid, ScanAll, AreReads, Reference, ReferenceColumn, Stores.Lookup;
      var ids := bindings[name];
      var indexed := ctx.IndexedTable(registry[name]);
      var allNull := NonNull(ids) == {};
      results := map[];
      for k := 0 to |props|
        invariant Valid() && Fresh() && ctx.Stores() == old(ctx.Stores())
        invariant results.Keys == (set p | p in props[..k])
        invariant forall p :: p in results ==>
                    results[p] == ReferenceColumn(ctx.Stores(), registry, name, bindings[name], p)
      {
        var p := props[k];
        assert props[..k + 1] == props[..k] + [p];
        var column := if indexed.None? || allNull || p !in indexed.value.columns then Nulls(n)
                      else MapIds(ids, indexed.value, p);
        BatchColumnIs(ctx.Stores(), registry, name, ids, p, indexed, allNull, column);
        results := results[p := column];
        cache := cache[(name, p) := column];
      }
      assert props[..|props|] == props;
      forall p | p in results
        ensures AreReads(ctx.Stores(), registry, name, bindings[name], p, results[p])
      {
        ColumnReads(ctx.Stores(), registry, name, bindings[name], p);
      }
    }

    /** filter: the kept rows, and the cached columns cut down with them. */
    method Filter(mask: seq<Value>) returns (f: Frame)
      requires Valid() && Fresh() && |mask| == n
      ensures fresh(f) && f.Valid() && f.Fresh() && f.ctx == ctx && f.registry == registry
      ensures f.n == CountTrue(mask) && f.bindings.Keys == bindings.Keys && f.cache.Keys == cache.Keys
      ensures forall v :: v in bindings ==> f.bindings[v] == Select(bindings[v], mask)
    {
      hide Reference, Select;
      forall v | v in bindings
        ensures |Select(bindings[v], mask)| == CountTrue(mask)
      {
        QueryLaws.SelectAt(bindings[v], mask);
      }
      forall key | key in cache
        ensures Select(cache[key], mask) ==
                ReferenceColumn(ctx.Stores(), registry, key.0, Select(bindings[key.0], mask), key.1)
      {
        SelectReference(ctx.Stores(), registry, key.0, bindings[key.0], key.1, mask);
      }
      f := new Frame(ctx, map v | v in bindings :: Select(bindings[v], mask), CountTrue(mask), registry,
        map key | key in cache :: Select(cache[key], mask));
    }

    /** SET, REMOVE or DELETE on the current frame: the tables change, the cache is cleared. */
    method DispatchWrite(newShadow: map<string, Table>, newShadowRels: map<string, Table>)
      requires Valid()
      requires ctx.Stores().(shadow := newShadow, shadowRels := newShadowRels).Valid()
      modifies this`cache, ctx`shadow, ctx`shadowRels
      ensures Valid() && Fresh() && cache == map[]
      ensures ctx.Stores() == old(ctx.Stores()).(shadow := newShadow, shadowRels := newShadowRels)
    {
      ctx.ReplaceShadows(newShadow, newShadowRels);
      cache := map[];
    }
  }

  lemma BatchColumnIs(s: Stores, registry: map<string, string>, name: string, ids: seq<Value>, p: string,
                      indexed: Option<Table>, allNull: bool, column: seq<Value>)
    requires s.Valid() && name in registry && registry[name] != MULTI && indexed == s.Indexed(registry[name])
    requires allNull == (NonNull(ids) == {})
    requires column == if indexed.None? || allNull || p !in indexed.value.columns then Nulls(|ids|)
                       else MapIds(ids, indexed.value, p)
    ensures column == ReferenceColumn(s, registry, name, ids, p)
  {
    hide Stores.UniqueIds, Stores.Valid, ScanAll;
    forall i | 0 <= i < |ids|
      ensures column[i] == Reference(s, registry, name, ids[i], p)
    {
      assert !ids[i].Null? ==> ids[i] in NonNull(ids);
    }
  }

  lemma TypedOrInferred(s: Stores, registry: map<string, string>, name: string, t: string, ids: seq<Value>,
                        prop: string)
    requires s.Valid() && s.UniqueIds() && name !in registry
    requires InferSpec(s, s.order, NonNull(ids)) == Some(t)
    ensures forall i :: 0 <= i < |ids| ==> s.Lookup(t, ids[i], prop) == Reference(s, registry, name, ids[i], prop)
  {
    hide Reference;
    InferredColumn(s, registry, name, t, ids, prop);
  }

  /** The standard single-type route; null columns for missing tables or properties are not cached. */
  method TypedColumn(ctx: Context, t: string, ids: seq<Value>, prop: string) returns (column: seq<Value>, keep: bool)
    requires ctx.Valid()
    modifies ctx`lookupCache
    ensures ctx.Valid() && ctx.Stores() == old(ctx.Stores())
    ensures |column| == |ids| && forall i :: 0 <= i < |ids| ==> column[i] == ctx.Stores().Lookup(t, ids[i], prop)
  {
    var indexed := ctx.IndexedTable(t);
    if indexed.None? || prop !in indexed.value.columns {
      return Nulls(|ids|), false;
    }
    return MapIds(ids, indexed.value, prop), true;
  }

  lemma SelectReference(s: Stores, registry: map<string, string>, name: string, ids: seq<Value>, prop: string,
                        mask: seq<Value>)
    requires s.Valid() && |mask| == |ids|
    ensures Select(ReferenceColumn(s, registry, name, ids, prop), mask) ==
            ReferenceColumn(s, registry, name, Select(ids, mask), prop)
  {
    hide Reference, Select;
    QueryLaws.SelectAt(ids, mask);
    QueryLaws.SelectAt(ReferenceColumn(s, registry, name, ids, prop), mask);
  }

  // ---- Runs of clauses ----

  datatype Clause =
    | Read(name: string, prop: string)
    | ReadBatch(name: string, props: seq<string>)
    | Where(mask: seq<Value>)
    | Write(shadow: map<string, Table>, shadowRels: map<string, Table>)

  /** What the mutation engine promises of a write: well-formed tables, ids still unique. */
  ghost predicate WriteIsSound(c: Clause, s: Stores) {
    c.Write? ==> s.(shadow := c.shadow, shadowRels := c.shadowRels).Valid()
                 && s.(shadow := c.shadow, shadowRels := c.shadowRels).UniqueIds()
  }

  /** One clause of the main loop, on the current frame. A mask of the wrong length is refused. */
  method Execute(frame: Frame, c: Clause) returns (ok: bool, next: Frame)
    requires frame.Valid() && frame.Fresh() && frame.ctx.Stores().UniqueIds()
    requires WriteIsSound(c, frame.ctx.Stores())
    modifies frame, frame.ctx
    ensures next.Valid() && next.Fresh() && next.ctx == frame.ctx && next.ctx.Stores().UniqueIds()
    ensures next == frame || fresh(next)
    ensures ok <==> !(c.Where? && |c.mask| != frame.n)
  {
    hide Reference, ReferenceColumn, InferSpec, Stores.UniqueIds, Stores.Valid;
    next, ok := frame, true;
    match c
    case Read(name, prop) =>
      var r := frame.GetProperty(name, prop);
    case ReadBatch(name, props) =>
      var r := frame.GetPropertiesBatch(name, props);
    case Where(mask) =>
      if |mask| != frame.n {
        ok := false;
      } else {
        next := frame.Filter(mask);
      }
    case Write(sh, sr) =>
      frame.DispatchWrite(sh, sr);
  }

  /** However a run of such clauses goes, the current frame's cache is fresh after every one of them. */
  method RunClauses(start: Frame, clauses: seq<Clause>) returns (current: Frame)
    requires start.Valid() && start.Fresh() && start.ctx.Stores().UniqueIds()
    requires forall k, sh, sr :: 0 <= k < |clauses| ==>
               WriteIsSound(clauses[k],
                            Stores.Stores(start.ctx.order, start.ctx.entities, start.ctx.relationships, sh, sr))
    modifies start, start.ctx
    ensures current.Valid() && current.Fresh() && current.ctx == start.ctx
  {
    hide Reference, ReferenceColumn, Stores.UniqueIds, Stores.Valid, WriteIsSound;
    current := start;
    for k := 0 to |clauses|
      invariant current.Valid() && current.Fresh() && current.ctx == start.ctx && current.ctx.Stores().UniqueIds()
      invariant current == start || fresh(current)
    {
      var ok, next := Execute(current, clauses[k]);
      if !ok {
        return next;
      }
      current := next;
    }
  }
}
