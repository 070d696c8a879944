/** PreviewCache of data_preview.py: an LRU cache over an ordered dictionary, and the inclusion property of its runs. */
module PreviewCaching {
  import opened Values

  /** `order` lists the keys from least to most recently used. */
  datatype Cache<V> = Cache(maxSize: int, order: seq<string>, table: map<string, V>, hits: nat, misses: nat) {
    ghost predicate Valid() {
      && (forall k :: k in order <==> k in table)
      && (forall i, j :: 0 <= i < j < |order| ==> order[i] != order[j])
      && (|order| > 0 ==> |order| <= maxSize)
    }
  }

  function Without(s: seq<string>, k: string): seq<string> {
    if s == [] then []
    else if s[|s| - 1] == k then Without(s[..|s| - 1], k)
    else Without(s[..|s| - 1], k) + [s[|s| - 1]]
  }

  function Empty<V>(maxSize: int): Cache<V> {
    Cache(maxSize, [], map[], 0, 0)
  }

  function AfterGet<V>(c: Cache<V>, k: string): Cache<V> {
    if k in c.table then c.(order := Without(c.order, k) + [k], hits := c.hits + 1)
    else c.(misses := c.misses + 1)
  }

  /** Err is popitem on an empty dictionary: only a cache with no room at all gets there. */
  function AfterPut<V>(c: Cache<V>, k: string, v: V): Res<Cache<V>> {
    if k in c.table then Ok(c.(order := Without(c.order, k) + [k], table := c.table[k := v]))
    else if |c.order| >= c.maxSize then
      if c.order == [] then Err
      else Ok(c.(order := c.order[1..] + [k], table := (c.table - {c.order[0]})[k := v]))
    else Ok(c.(order := c.order + [k], table := c.table[k := v]))
  }

  class PreviewCache<V> {
    var order: seq<string>
    var table: map<string, V>
    const maxSize: int
    var hits: nat
    var misses: nat

    ghost function State(): Cache<V>
      reads this
    {
      Cache(maxSize, order, table, hits, misses)
    }

    constructor (maxSize: int)
      ensures State() == Empty(maxSize) && State().Valid()
    {
      this.maxSize := maxSize;
      order, table, hits, misses := [], map[], 0, 0;
    }

    method MoveToEnd(k: string)
      requires k in table
      modifies this`order
      ensures order == Without(old(order), k) + [k]
    {
      order := Without(order, k) + [k];
    }

    method Get(k: string) returns (r: Option<V>)
      requires State().Valid()
      modifies this`order, this`hits, this`misses
      ensures State() == AfterGet(old(State()), k) && State().Valid()
      ensures r == if k in old(table) then Some(old(table)[k]) else None
    {
      GetKeepsValid(State(), k);
      if k in table {
        MoveToEnd(k);
        hits := hits + 1;
        return Some(table[k]);
      }
      misses := misses + 1;
      return None;
    }

    method Put(k: string, v: V) returns (ok: bool)
      requires State().Valid()
      modifies this`order, this`table
      ensures ok <==> AfterPut(old(State()), k, v).Ok?
      ensures State() == if ok then AfterPut(old(State()), k, v).value else old(State())
      ensures State().Valid()
    {
      PutKeepsValid(State(), k, v);
      if k in table {
        MoveToEnd(k);
      } else {
        if |order| >= maxSize {
          if order == [] {
            return false;
          }
          table := table - {order[0]};
          order := order[1..];
        }
        order := order + [k];
      }
      table := table[k := v];
      return true;
    }
  }

  // ---- Validity ----

  ghost predicate NoRepeat(s: seq<string>) {
    forall i, j :: 0 <= i < j < |s| ==> s[i] != s[j]
  }

  lemma AppendNoRepeat(s: seq<string>, x: string)
    requires NoRepeat(s) && x !in s
    ensures NoRepeat(s + [x])
  {}

  lemma {:induction false} WithoutMembers(s: seq<string>, k: string)
    ensures forall x :: x in Without(s, k) <==> x in s && x != k
    ensures k !in s ==> Without(s, k) == s
  {
    if s != [] {
      assert s == s[..|s| - 1] + [s[|s| - 1]];
      WithoutMembers(s[..|s| - 1], k);
    }
  }

  lemma {:induction false} WithoutNoRepeat(s: seq<string>, k: string)
    requires NoRepeat(s)
    ensures NoRepeat(Without(s, k)) && NoRepeat(Without(s, k) + [k])
    ensures |Without(s, k)| == if k in s then |s| - 1 else |s|
    ensures forall x :: x in Without(s, k) <==> x in s && x != k
    ensures k !in s ==> Without(s, k) == s
  {
    WithoutMembers(s, k);
    if s != [] {
      var init, last := s[..|s| - 1], s[|s| - 1];
      assert s == init + [last];
      assert forall i :: 0 <= i < |init| ==> init[i] == s[i];
      assert last !in init;
      WithoutNoRepeat(init, k);
      WithoutMembers(init, k);
      AppendNoRepeat(Without(init, k), last);
    }
    AppendNoRepeat(Without(s, k), k);
  }

  /** Dropping the first key is dropping the oldest. */
  lemma {:induction false} WithoutFirst(s: seq<string>)
    requires NoRepeat(s) && s != []
    ensures Without(s, s[0]) == s[1..]
  {
    var init, last := s[..|s| - 1], s[|s| - 1];
    if |s| > 1 {
      assert init[0] == s[0] && s[1..] == init[1..] + [last];
      WithoutFirst(init);
    }
  }

  lemma GetKeepsValid<V>(c: Cache<V>, k: string)
    requires c.Valid()
    ensures AfterGet(c, k).Valid()
  {
    WithoutNoRepeat(c.order, k);
  }

  lemma PutKeepsValid<V>(c: Cache<V>, k: string, v: V)
    requires c.Valid()
    ensures AfterPut(c, k, v).Ok? ==> AfterPut(c, k, v).value.Valid()
    ensures AfterPut(c, k, v).Ok? <==> c.maxSize >= 1
  {
    if k in c.table {
      WithoutNoRepeat(c.order, k);
    } else if |c.order| >= c.maxSize && c.order != [] {
      var o := c.order[0];
      WithoutNoRepeat(c.order, o);
      WithoutFirst(c.order);
      AppendNoRepeat(c.order[1..], k);
    }
  }

  // ---- Keeping the keys of a smaller cache ----

  function Keep(s: seq<string>, keys: set<string>): seq<string> {
    if s == [] then []
    else if s[|s| - 1] in keys then Keep(s[..|s| - 1], keys) + [s[|s| - 1]]
    else Keep(s[..|s| - 1], keys)
  }

  lemma {:induction false} KeepMembers(s: seq<string>, keys: set<string>)
    ensures forall x :: x in Keep(s, keys) <==> x in s && x in keys
  {
    if s != [] {
      assert s == s[..|s| - 1] + [s[|s| - 1]];
      KeepMembers(s[..|s| - 1], keys);
    }
  }

  lemma KeepAppend(s: seq<string>, x: string, keys: set<string>)
    ensures Keep(s + [x], keys) == if x in keys then Keep(s, keys) + [x] else Keep(s, keys)
  {
    assert (s + [x])[..|s + [x]| - 1] == s;
  }

  lemma WithoutAppend(s: seq<string>, x: string, k: string)
    ensures Without(s + [x], k) == if x == k then Without(s, k) else Without(s, k) + [x]
  {
    assert (s + [x])[..|s + [x]| - 1] == s;
  }

  lemma {:induction false} KeepOfWithout(s: seq<string>, k: string, keys: set<string>)
    ensures Keep(Without(s, k), keys) == Keep(s, keys - {k})
  {
    if s != [] {
      var init, last := s[..|s| - 1], s[|s| - 1];
      KeepOfWithout(init, k, keys);
      KeepAppend(Without(init, k), last, keys);
    }
  }

  lemma {:induction false} KeepWithout(s: seq<string>, k: string, keys: set<string>)
    ensures Keep(Without(s, k), keys) == Without(Keep(s, keys), k) == Keep(s, keys - {k})
  {
    KeepOfWithout(s, k, keys);
    if s != [] {
      var init, last := s[..|s| - 1], s[|s| - 1];
      KeepWithout(init, k, keys);
      WithoutAppend(Keep(init, keys), last, k);
    }
  }

  lemma {:induction false} KeepSame(s: seq<string>, keys: set<string>, keys': set<string>)
    requires forall x :: x in s ==> (x in keys <==> x in keys')
    ensures Keep(s, keys) == Keep(s, keys')
  {
    if s != [] {
      assert s == s[..|s| - 1] + [s[|s| - 1]];
      KeepSame(s[..|s| - 1], keys, keys');
    }
  }

  lemma {:induction false} KeepAll(s: seq<string>, keys: set<string>)
    requires forall x :: x in s ==> x in keys
    ensures Keep(s, keys) == s
  {
    if s != [] {
      assert s == s[..|s| - 1] + [s[|s| - 1]];
      KeepAll(s[..|s| - 1], keys);
    }
  }

  lemma {:induction false} KeepFirst(s: seq<string>, keys: set<string>)
    requires s != [] && s[0] in keys
    ensures Keep(s, keys) != [] && Keep(s, keys)[0] == s[0]
  {
    if |s| > 1 {
      KeepFirst(s[..|s| - 1], keys);
    }
  }

  // ---- Runs ----

  datatype Op<V> = Get(key: string) | Put(key: string, value: V)

  function Step<V>(c: Cache<V>, op: Op<V>): Cache<V> {
    match op
    case Get(k) => AfterGet(c, k)
    case Put(k, v) => var r := AfterPut(c, k, v); if r.Ok? then r.value else c
  }

  function Run<V>(maxSize: int, ops: seq<Op<V>>): Cache<V> {
    if ops == [] then Empty(maxSize) else Step(Run(maxSize, ops[..|ops| - 1]), ops[|ops| - 1])
  }

  /** The value most recently put under k. */
  function LastPut<V>(ops: seq<Op<V>>, k: string): Option<V> {
    if ops == [] then None
    else
      var last := ops[|ops| - 1];
      if last.Put? && last.key == k then Some(last.value) else LastPut(ops[..|ops| - 1], k)
  }

  lemma {:induction false} RunValid<V>(maxSize: int, ops: seq<Op<V>>)
    ensures Run(maxSize, ops).Valid() && Run(maxSize, ops).maxSize == maxSize
  {
    if ops != [] {
      var c, op := Run(maxSize, ops[..|ops| - 1]), ops[|ops| - 1];
      RunValid(maxSize, ops[..|ops| - 1]);
      if op.Get? {
        GetKeepsValid(c, op.key);
      } else {
        PutKeepsValid(c, op.key, op.value);
      }
    }
  }

  /** A hit returns the value last put under its key. */
  lemma {:induction false} HitIsLastPut<V>(maxSize: int, ops: seq<Op<V>>, k: string)
    requires k in Run(maxSize, ops).table
    ensures LastPut(ops, k) == Some(Run(maxSize, ops).table[k])
  {
    var prev := ops[..|ops| - 1];
    RunValid(maxSize, prev);
    if k in Run(maxSize, prev).table {
      HitIsLastPut(maxSize, prev, k);
    }
    if ops[|ops| - 1].Put? {
      PutKeepsValid(Run(maxSize, prev), ops[|ops| - 1].key, ops[|ops| - 1].value);
    }
  }

  /** small holds a subset of large's keys in large's recency order, and is full unless both are the same. */
  ghost predicate Included<V>(small: Cache<V>, large: Cache<V>) {
    && 1 <= small.maxSize <= large.maxSize
    && small.order == Keep(large.order, small.table.Keys)
    && (|small.order| < small.maxSize ==> small.order == large.order)
    && small.table.Keys <= large.table.Keys
    && small.hits <= large.hits && small.hits + small.misses == large.hits + large.misses
  }

  lemma GetKeepsIncluded<V>(small: Cache<V>, large: Cache<V>, k: string)
    requires small.Valid() && large.Valid() && Included(small, large)
    ensures Included(AfterGet(small, k), AfterGet(large, k))
  {
    WithoutNoRepeat(small.order, k);
    if k in large.table {
      KeepWithout(large.order, k, small.table.Keys);
      KeepAppend(Without(large.order, k), k, small.table.Keys);
      assert k !in small.table ==> Without(small.order, k) == small.order;
    }
  }

  /** A refreshed key moves to the end. */
  lemma PutHeld<V>(c: Cache<V>, k: string, v: V)
    requires k in c.table
    ensures var r := AfterPut(c, k, v);
            && r.Ok? && r.value.order == Without(c.order, k) + [k] && r.value.table.Keys == c.table.Keys
            && r.value.maxSize == c.maxSize && r.value.hits == c.hits && r.value.misses == c.misses
  {
    hide Without;
    assert c.table[k := v].Keys == c.table.Keys;
  }

  /** A new key in a full cache replaces the oldest. */
  lemma PutFull<V>(c: Cache<V>, k: string, v: V)
    requires k !in c.table && |c.order| >= c.maxSize && c.order != []
    ensures var r := AfterPut(c, k, v);
            && r.Ok? && r.value.order == c.order[1..] + [k] && r.value.table.Keys == c.table.Keys - {c.order[0]} + {k}
            && r.value.maxSize == c.maxSize && r.value.hits == c.hits && r.value.misses == c.misses
  {
    var table := c.table - {c.order[0]};
    assert table[k := v].Keys == table.Keys + {k};
  }

  /** A new key in a cache with room. */
  lemma PutFree<V>(c: Cache<V>, k: string, v: V)
    requires k !in c.table && |c.order| < c.maxSize
    ensures var r := AfterPut(c, k, v);
            && r.Ok? && r.value.order == c.order + [k] && r.value.table.Keys == c.table.Keys + {k}
            && r.value.maxSize == c.maxSize && r.value.hits == c.hits && r.value.misses == c.misses
  {}

  // What a put does to the two recency orders: s and l, s keeping of l the keys in `keys`.

  lemma MissOrder(s: seq<string>, l: seq<string>, keys: set<string>, k: string)
    requires NoRepeat(s) && s != [] && s == Keep(l, keys) && k !in keys
    ensures s[1..] + [k] == Keep(Without(l, k) + [k], keys - {s[0]} + {k})
  {
    hide Keep, Without;
    var after := keys - {s[0]} + {k};
    WithoutFirst(s);
    KeepWithout(l, s[0], keys);
    KeepWithout(l, k, after);
    assert after - {k} == keys - {s[0]};
    KeepAppend(Without(l, k), k, after);
  }

  lemma HitOrder(s: seq<string>, l: seq<string>, keys: set<string>, k: string)
    requires s == Keep(l, keys) && k in keys
    ensures Without(s, k) + [k] == Keep(Without(l, k) + [k], keys)
  {
    hide Keep, Without;
    KeepWithout(l, k, keys);
    KeepAppend(Without(l, k), k, keys);
  }

  lemma NewOrder(s: seq<string>, l: seq<string>, keys: set<string>, k: string)
    requires NoRepeat(s) && s != [] && s == Keep(l, keys) && k !in l && k !in keys
    ensures s[1..] + [k] == Keep(l + [k], keys - {s[0]} + {k})
  {
    hide Keep, Without;
    var after := keys - {s[0]} + {k};
    WithoutFirst(s);
    KeepWithout(l, s[0], keys);
    KeepSame(l, after, keys - {s[0]});
    KeepAppend(l, k, after);
  }

  lemma EvictOrder(s: seq<string>, l: seq<string>, keys: set<string>, k: string)
    requires NoRepeat(s) && NoRepeat(l) && s != [] && l != [] && s == Keep(l, keys) && k !in l && k !in keys
    ensures l[0] in keys ==> l[0] == s[0]
    ensures s[1..] + [k] == Keep(l[1..] + [k], keys - {s[0]} + {k})
  {
    hide Keep, Without;
    var after := keys - {s[0]} + {k};
    if l[0] in keys {
      KeepFirst(l, keys);
    }
    WithoutFirst(s);
    KeepWithout(l, s[0], keys);
    WithoutFirst(l);
    KeepWithout(l, l[0], after);
    KeepSame(l, after - {l[0]}, keys - {s[0]});
    KeepAppend(l[1..], k, after);
  }

  /** A key new to both: each makes room, if it must, by dropping its own oldest key. */
  lemma PutNewKeepsIncluded<V>(small: Cache<V>, large: Cache<V>, k: string, v: V)
    requires small.Valid() && large.Valid() && Included(small, large) && k !in large.table
    requires |small.order| >= small.maxSize
    ensures Included(AfterPut(small, k, v).value, AfterPut(large, k, v).value)
  {
    hide Keep, Without, AfterPut;
    PutFull(small, k, v);
    if |large.order| >= large.maxSize {
      PutFull(large, k, v);
      EvictOrder(small.order, large.order, small.table.Keys, k);
    } else {
      PutFree(large, k, v);
      NewOrder(small.order, large.order, small.table.Keys, k);
    }
  }

  /** A key only the larger cache holds: it is refreshed there and replaces the oldest key here. */
  lemma PutMissKeepsIncluded<V>(small: Cache<V>, large: Cache<V>, k: string, v: V)
    requires small.Valid() && large.Valid() && Included(small, large) && k in large.table && k !in small.table
    ensures Included(AfterPut(small, k, v).value, AfterPut(large, k, v).value)
  {
    hide Keep, Without, AfterPut;
    PutFull(small, k, v);
    PutHeld(large, k, v);
    MissOrder(small.order, large.order, small.table.Keys, k);
  }

  /** A key both hold becomes the most recent in both. */
  lemma PutHitKeepsIncluded<V>(small: Cache<V>, large: Cache<V>, k: string, v: V)
    requires small.Valid() && large.Valid() && Included(small, large) && k in small.table
    ensures Included(AfterPut(small, k, v).value, AfterPut(large, k, v).value)
  {
    hide Keep, Without, AfterPut;
    PutHeld(small, k, v);
    PutHeld(large, k, v);
    WithoutNoRepeat(small.order, k);
    HitOrder(small.order, large.order, small.table.Keys, k);
  }

  /** While the smaller cache has room both are the same and both grow. */
  lemma PutRoomKeepsIncluded<V>(small: Cache<V>, large: Cache<V>, k: string, v: V)
    requires small.Valid() && large.Valid() && Included(small, large) && k !in large.table
    requires |small.order| < small.maxSize
    ensures Included(AfterPut(small, k, v).value, AfterPut(large, k, v).value)
  {
    hide Keep, Without, AfterPut;
    PutFree(small, k, v);
    PutFree(large, k, v);
    KeepAll(large.order + [k], small.table.Keys + {k});
  }

  lemma PutKeepsIncluded<V>(small: Cache<V>, large: Cache<V>, k: string, v: V)
    requires small.Valid() && large.Valid() && Included(small, large)
    ensures AfterPut(small, k, v).Ok? && AfterPut(large, k, v).Ok?
    ensures Included(AfterPut(small, k, v).value, AfterPut(large, k, v).value)
  {
    hide Keep, Without, AfterPut;
    PutKeepsValid(small, k, v);
    PutKeepsValid(large, k, v);
    if k in small.table {
      PutHitKeepsIncluded(small, large, k, v);
    } else if k in large.table {
      PutMissKeepsIncluded(small, large, k, v);
    } else if |small.order| >= small.maxSize {
      PutNewKeepsIncluded(small, large, k, v);
    } else {
      PutRoomKeepsIncluded(small, large, k, v);
    }
  }

  /** On every run the smaller cache's keys are a subset of the larger's, in the same recency order, with no more
      hits. */
  lemma {:induction false} InclusionOverRuns<V>(m: int, n: int, ops: seq<Op<V>>)
    requires 1 <= m <= n
    ensures Included(Run(m, ops), Run(n, ops))
    ensures forall k :: k in Run(m, ops).table ==>
              k in Run(n, ops).table && Run(m, ops).table[k] == Run(n, ops).table[k]
    ensures Run(m, ops).hits <= Run(n, ops).hits && |Run(m, ops).order| <= m
  {
    RunValid(m, ops);
    if ops != [] {
      var prev, op := ops[..|ops| - 1], ops[|ops| - 1];
      InclusionOverRuns(m, n, prev);
      RunValid(m, prev);
      RunValid(n, prev);
      if op.Get? {
        GetKeepsIncluded(Run(m, prev), Run(n, prev), op.key);
      } else {
        PutKeepsIncluded(Run(m, prev), Run(n, prev), op.key, op.value);
      }
    }
    forall k | k in Run(m, ops).table
      ensures k in Run(n, ops).table && Run(m, ops).table[k] == Run(n, ops).table[k]
    {
      HitIsLastPut(m, ops, k);
      HitIsLastPut(n, ops, k);
    }
  }

  // ---- What a cache holds ----

  /** x stands before y. */
  ghost predicate Before(s: seq<string>, x: string, y: string) {
    exists i, j :: 0 <= i < j < |s| && s[i] == x && s[j] == y
  }

  lemma {:induction false} WithoutOrder(s: seq<string>, k: string, x: string, y: string)
    requires x != k && y != k
    ensures Before(Without(s, k), x, y) <==> Before(s, x, y)
  {
    hide Before;
    if s == [] {
      NothingBefore(s, x, y);
    } else {
      var init, last := s[..|s| - 1], s[|s| - 1];
      WithoutOrder(init, k, x, y);
      WithoutMembers(init, k);
      assert s == init + [last];
      BeforeAppend(init, last, x, y);
      BeforeAppend(Without(init, k), last, x, y);
    }
  }

  lemma NothingBefore(s: seq<string>, x: string, y: string)
    requires s == []
    ensures !Before(s, x, y)
  {}

  lemma BeforeAppend(s: seq<string>, last: string, x: string, y: string)
    ensures Before(s + [last], x, y) <==> Before(s, x, y) || (x in s && y == last)
  {
    var r := s + [last];
    if Before(s, x, y) {
      var i, j :| 0 <= i < j < |s| && s[i] == x && s[j] == y;
      assert r[i] == x && r[j] == y;
    }
    if x in s && y == last {
      var i :| 0 <= i < |s| && s[i] == x;
      assert r[i] == x && r[|s|] == y;
    }
  }

  /** Apart from k, the later order holds the keys of the earlier one in their order, but for those lost. */
  ghost predicate SameBut(before: seq<string>, after: seq<string>, k: string, lost: set<string>) {
    && (forall x :: x != k ==> (x in after <==> x in before && x !in lost))
    && (forall x, y :: x != k && y != k && x in after && y in after ==> (Before(after, x, y) <==> Before(before, x, y)))
  }

  lemma MovedToEnd(s: seq<string>, k: string)
    ensures SameBut(s, Without(s, k) + [k], k, {})
  {
    hide Before;
    WithoutMembers(s, k);
    var r := Without(s, k) + [k];
    forall x
      ensures x != k ==> (x in r <==> x in s)
    {
      assert x in r <==> x in Without(s, k) || x == k;
    }
    forall x, y | x != k && y != k
      ensures Before(r, x, y) <==> Before(s, x, y)
    {
      BeforeAppend(Without(s, k), k, x, y);
      WithoutOrder(s, k, x, y);
    }
  }

  /** A get changes no value; a held key becomes the most recent and counts as a hit, any other as a miss. */
  lemma GetMeaning<V>(c: Cache<V>, k: string)
    requires c.Valid()
    ensures var r := AfterGet(c, k);
            && r.table == c.table && r.maxSize == c.maxSize
            && (k in c.table ==>
                  r.order[|r.order| - 1] == k && |r.order| == |c.order| && SameBut(c.order, r.order, k, {}))
            && (k !in c.table ==> r.order == c.order)
            && r.hits == c.hits + (if k in c.table then 1 else 0)
            && r.misses == c.misses + (if k in c.table then 0 else 1)
  {
    hide SameBut, Without;
    WithoutNoRepeat(c.order, k);
    MovedToEnd(c.order, k);
  }

  /** A put stores the value under the most recent key; all other keys keep their values and their order, except that a
      new key in a full cache costs the least recent one. */
  lemma PutMeaning<V>(c: Cache<V>, k: string, v: V)
    requires c.Valid() && c.maxSize >= 1
    ensures AfterPut(c, k, v).Ok?
    ensures var r := AfterPut(c, k, v).value;
            var lost := if k !in c.table && |c.order| >= c.maxSize then {c.order[0]} else {};
            && r.order != [] && r.order[|r.order| - 1] == k && k in r.table && r.table[k] == v
            && SameBut(c.order, r.order, k, lost)
            && (forall x :: x != k ==> (x in r.table <==> x in c.table && x !in lost))
            && (forall x :: x != k && x in r.table ==> r.table[x] == c.table[x])
            && r.hits == c.hits && r.misses == c.misses && r.maxSize == c.maxSize
  {
    hide SameBut, Without, Before;
    MovedToEnd(c.order, k);
    WithoutNoRepeat(c.order, k);
    if k !in c.table && |c.order| >= c.maxSize {
      OldestDropped(c.order, k);
    }
  }

  lemma OldestDropped(s: seq<string>, k: string)
    requires NoRepeat(s) && s != [] && k !in s
    ensures SameBut(s, s[1..] + [k], k, {s[0]})
  {
    hide Before;
    var o := s[0];
    WithoutFirst(s);
    WithoutMembers(s, o);
    var r := s[1..] + [k];
    forall x
      ensures x != k ==> (x in r <==> x in s && x != o)
    {
      assert x in r <==> x in s[1..] || x == k;
    }
    forall x, y | x != k && y != k && x != o && y != o
      ensures Before(r, x, y) <==> Before(s, x, y)
    {
      BeforeAppend(s[1..], k, x, y);
      WithoutOrder(s, o, x, y);
    }
  }

  /** Every get is a hit or a miss. */
  function Gets<V>(ops: seq<Op<V>>): nat {
    if ops == [] then 0 else Gets(ops[..|ops| - 1]) + if ops[|ops| - 1].Get? then 1 else 0
  }

  lemma {:induction false} HitsAndMisses<V>(maxSize: int, ops: seq<Op<V>>)
    ensures Run(maxSize, ops).hits + Run(maxSize, ops).misses == Gets(ops)
  {
    if ops != [] {
      HitsAndMisses(maxSize, ops[..|ops| - 1]);
    }
  }

  // ---- Recently used keys are held ----

  /** The keys more recent than k. */
  ghost function Newer(order: seq<string>, k: string): (r: set<string>)
    ensures forall x :: x in r <==> Before(order, k, x)
  {
    set x | x in order && Before(order, k, x)
  }

  function KeysOf<V>(ops: seq<Op<V>>): (r: set<string>)
    ensures forall i :: 0 <= i < |ops| ==> ops[i].key in r
  {
    if ops == [] then {} else KeysOf(ops[..|ops| - 1]) + {ops[|ops| - 1].key}
  }

  lemma NoneNewer(s: seq<string>, k: string)
    requires NoRepeat(s + [k])
    ensures Newer(s + [k], k) == {}
  {
    var r := s + [k];
    assert r[|s|] == k;
    forall i | 0 <= i < |r| && r[i] == k
      ensures i == |s|
    {
      assert NoRepeat(r);
    }
  }

  /** What one more operation on another key does to the keys newer than k. */
  lemma NewerGrows(before: seq<string>, after: seq<string>, k: string, x: string, lost: set<string>)
    requires k != x && k in after && SameBut(before, after, x, lost)
    ensures Newer(after, k) <= Newer(before, k) + {x}
  {
    hide Before;
    forall y | y in Newer(after, k)
      ensures y in Newer(before, k) + {x}
    {
      BeforeIn(after, k, y);
      if y != x {
        assert Before(after, k, y) <==> Before(before, k, y);
      }
    }
  }

  lemma BeforeIn(s: seq<string>, x: string, y: string)
    requires Before(s, x, y)
    ensures x in s && y in s
  {}

  /** The least recent key is older than all others. */
  lemma OldestHasAllNewer(s: seq<string>)
    requires s != [] && NoRepeat(s)
    ensures |Newer(s, s[0])| == |s| - 1
  {
    var rest := s[1..];
    forall x
      ensures x in Newer(s, s[0]) <==> x in rest
    {
      if x in rest {
        var j :| 0 <= j < |rest| && rest[j] == x;
        assert s[j + 1] == x;
      }
      if Before(s, s[0], x) {
        var i, j :| 0 <= i < j < |s| && s[i] == s[0] && s[j] == x;
        assert rest[j - 1] == x;
      }
    }
    DistinctSize(rest);
    assert Newer(s, s[0]) == set x | x in rest;
  }

  lemma {:induction false} DistinctSize(s: seq<string>)
    requires NoRepeat(s)
    ensures |set x | x in s| == |s|
  {
    if s != [] {
      var init, last := s[..|s| - 1], s[|s| - 1];
      assert forall i :: 0 <= i < |init| ==> init[i] == s[i];
      DistinctSize(init);
      assert last !in init;
      assert s == init + [last];
      assert (set x | x in s) == (set x | x in init) + {last};
    }
  }

  lemma SubsetSize(a: set<string>, b: set<string>)
    requires a <= b
    ensures |a| <= |b|
  {
    var rest := b - a;
    assert a * rest == {} && b == a + rest;
  }

  /** While fewer other keys than the capacity are used after a put, its key stays held, and only those keys are
      newer. */
  lemma {:induction false} RecentIsHeld<V>(m: int, ops: seq<Op<V>>, k: string, v: V, after: seq<Op<V>>)
    requires m >= 1 && |KeysOf(after) - {k}| < m
    ensures k in Run(m, ops + [Put(k, v)] + after).table
    ensures Newer(Run(m, ops + [Put(k, v)] + after).order, k) <= KeysOf(after) - {k}
  {
    hide Newer, Step, Run, KeysOf;
    var begun := ops + [Put(k, v)];
    if after == [] {
      assert begun + after == begun;
      JustPut(m, ops, k, v);
    } else {
      var n := |after| - 1;
      var prev := begun + after[..n];
      assert begun + after == prev + [after[n]] && after == after[..n] + [after[n]];
      KeysOfLast(after[..n], after[n]);
      SubsetSize(KeysOf(after[..n]) - {k}, KeysOf(after) - {k});
      RecentIsHeld(m, ops, k, v, after[..n]);
      RunValid(m, prev);
      RunLast(m, prev, after[n]);
      assert KeysOf(after) - {k} == KeysOf(after[..n]) - {k} + {after[n].key} - {k};
      StillHeld(Run(m, prev), after[n], k, KeysOf(after[..n]) - {k});
    }
  }

  lemma KeysOfLast<V>(ops: seq<Op<V>>, op: Op<V>)
    ensures KeysOf(ops + [op]) == KeysOf(ops) + {op.key}
  {
    assert (ops + [op])[..|ops|] == ops;
  }

  lemma RunLast<V>(m: int, ops: seq<Op<V>>, op: Op<V>)
    ensures Run(m, ops + [op]) == Step(Run(m, ops), op)
  {
    assert (ops + [op])[..|ops|] == ops;
  }

  lemma JustPut<V>(m: int, ops: seq<Op<V>>, k: string, v: V)
    requires m >= 1
    ensures var c := Run(m, ops + [Put(k, v)]); k in c.table && Newer(c.order, k) == {}
  {
    hide Newer, AfterPut;
    var run := ops + [Put(k, v)];
    assert run[..|run| - 1] == ops;
    RunValid(m, ops);
    RunValid(m, run);
    PutMeaning(Run(m, ops), k, v);
    var order := Run(m, run).order;
    assert order == order[..|order| - 1] + [k];
    NoneNewer(order[..|order| - 1], k);
  }

  lemma StillHeld<V>(c: Cache<V>, op: Op<V>, k: string, used: set<string>)
    requires c.Valid() && c.maxSize >= 1 && k in c.table && Newer(c.order, k) <= used && k !in used
    requires |used + {op.key} - {k}| < c.maxSize
    ensures k in Step(c, op).table && Newer(Step(c, op).order, k) <= used + {op.key} - {k}
  {
    hide Newer, AfterPut, AfterGet, SameBut, Before;
    if op.Get? {
      GetKeepsValid(c, op.key);
      GetMeaning(c, op.key);
      if op.key in c.table {
        AfterUse(c.order, AfterGet(c, op.key).order, k, op.key, {}, used);
      }
    } else {
      PutKeepsValid(c, op.key, op.value);
      PutMeaning(c, op.key, op.value);
      var r := AfterPut(c, op.key, op.value).value;
      if op.key != k && op.key !in c.table && |c.order| >= c.maxSize && c.order[0] == k {
        OldestHasAllNewer(c.order);
        NewerAreHeld(c.order, k);
        SubsetSize(Newer(c.order, k), used - {op.key});
        assert false;
      }
      AfterUse(c.order, r.order, k, op.key,
               if op.key !in c.table && |c.order| >= c.maxSize then {c.order[0]} else {}, used);
    }
  }

  lemma NewerAreHeld(s: seq<string>, k: string)
    ensures forall x :: x in Newer(s, k) ==> x in s
  {}

  lemma AfterUse(before: seq<string>, after: seq<string>, k: string, x: string, lost: set<string>, used: set<string>)
    requires SameBut(before, after, x, lost) && Newer(before, k) <= used && k !in used && k in after
    requires NoRepeat(after) && after != [] && after[|after| - 1] == x
    ensures Newer(after, k) <= used + {x} - {k}
  {
    hide Newer, SameBut, Before;
    if x == k {
      assert after == after[..|after| - 1] + [k];
      NoneNewer(after[..|after| - 1], k);
    } else {
      NewerGrows(before, after, k, x, lost);
    }
  }
}
