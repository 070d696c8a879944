/** PipelineBuilder of pipeline_builder.py: edits, undo and redo over deep-copied configurations. */
module PipelineBuilding {
  import opened Values

  // ---- Configurations as values ----

  datatype EntitySource = EntitySource(id: string, uri: string, entityType: string, idCol: Option<string>,
                                       query: Option<string>, schemaHints: Option<map<string, string>>)
  datatype RelationshipSource = RelationshipSource(id: string, uri: string, relationshipType: string, sourceCol: string,
                                                   targetCol: string, idCol: Option<string>, query: Option<string>,
                                                   schemaHints: Option<map<string, string>>)
  datatype Query = Query(id: string, inline: Option<string>, source: Option<string>, description: Option<string>)
  datatype Output = Output(queryId: string, uri: string, format: Option<string>)

  datatype Settings = Settings(entities: seq<EntitySource>, relationships: seq<RelationshipSource>,
                               queries: seq<Query>, outputs: seq<Output>)

  /** The builder's edits. A None payload is one whose validation raises, which happens after the undo entry is
      recorded. */
  datatype Edit =
    | AddEntity(id: string, entity: Option<EntitySource>)
    | RemoveEntity(id: string)
    | UpdateEntity(id: string, entity: Option<EntitySource>)
    | AddRelationship(id: string, relationship: Option<RelationshipSource>)
    | RemoveRelationship(id: string)
    | UpdateRelationship(id: string, relationship: Option<RelationshipSource>)
    | AddQuery(id: string, query: Option<Query>)
    | RemoveQuery(id: string)
    | AddOutput(queryId: string, output: Option<Output>)
    | RemoveOutput(queryId: string, uri: string)
  {
    /** The id the edit is called with. */
    function Id(): string {
      if AddOutput? || RemoveOutput? then queryId else id
    }
  }

  datatype Operation = EditOp(edit: Edit) | RestoreOp

  function SourceIds(s: Settings): (r: seq<string>)
    ensures |r| == |s.entities| + |s.relationships|
  {
    seq(|s.entities|, i requires 0 <= i < |s.entities| => s.entities[i].id)
    + seq(|s.relationships|, i requires 0 <= i < |s.relationships| => s.relationships[i].id)
  }

  function EntityIds(s: Settings): (r: seq<string>)
    ensures |r| == |s.entities|
  {
    seq(|s.entities|, i requires 0 <= i < |s.entities| => s.entities[i].id)
  }

  function RelationshipIds(s: Settings): (r: seq<string>)
    ensures |r| == |s.relationships|
  {
    seq(|s.relationships|, i requires 0 <= i < |s.relationships| => s.relationships[i].id)
  }

  function QueryIds(s: Settings): (r: seq<string>)
    ensures |r| == |s.queries|
  {
    seq(|s.queries|, i requires 0 <= i < |s.queries| => s.queries[i].id)
  }

  /** The position of the first entry equal to x. */
  function First<T(==)>(s: seq<T>, x: T): (r: Option<nat>)
    ensures r.Some? ==> r.value < |s| && s[r.value] == x && x !in s[..r.value]
    ensures r.None? ==> x !in s
  {
    if s == [] then None
    else if s[0] == x then Some(0)
    else
      var rest := First(s[1..], x);
      assert rest.Some? ==> s[..rest.value + 1] == [s[0]] + s[1..][..rest.value];
      if rest.Some? then Some(rest.value + 1) else None
  }

  function OutputKeys(s: Settings): (r: seq<(string, string)>)
    ensures |r| == |s.outputs|
  {
    seq(|s.outputs|, i requires 0 <= i < |s.outputs| => (s.outputs[i].queryId, s.outputs[i].uri))
  }

  function Drop<T>(s: seq<T>, i: nat): seq<T>
    requires i < |s|
  {
    s[..i] + s[i + 1..]
  }

  /** What an edit does: Refused edits raise before anything is recorded, Recorded ones leave an undo entry. */
  datatype Outcome = Refused | Recorded(after: Settings)

  function Perform(s: Settings, e: Edit): Outcome {
    match e
    case AddEntity(id, x) =>
      if id in SourceIds(s) then Refused
      else Recorded(if x.Some? then s.(entities := s.entities + [x.value]) else s)
    case RemoveEntity(id) =>
      var i := First(EntityIds(s), id);
      if i.None? then Refused else Recorded(s.(entities := Drop(s.entities, i.value)))
    case UpdateEntity(id, x) =>
      var i := First(EntityIds(s), id);
      if i.None? then Refused
      else Recorded(if x.Some? then s.(entities := s.entities[i.value := x.value]) else s)
    case AddRelationship(id, x) =>
      if id in SourceIds(s) then Refused
      else Recorded(if x.Some? then s.(relationships := s.relationships + [x.value]) else s)
    case RemoveRelationship(id) =>
      var i := First(RelationshipIds(s), id);
      if i.None? then Refused else Recorded(s.(relationships := Drop(s.relationships, i.value)))
    case UpdateRelationship(id, x) =>
      var i := First(RelationshipIds(s), id);
      if i.None? then Refused
      else Recorded(if x.Some? then s.(relationships := s.relationships[i.value := x.value]) else s)
    case AddQuery(id, x) =>
      if id in QueryIds(s) then Refused
      else Recorded(if x.Some? then s.(queries := s.queries + [x.value]) else s)
    case RemoveQuery(id) =>
      var i := First(QueryIds(s), id);
      if i.None? then Refused else Recorded(s.(queries := Drop(s.queries, i.value)))
    case AddOutput(q, x) =>
      Recorded(if x.Some? then s.(outputs := s.outputs + [x.value]) else s)
    case RemoveOutput(q, u) =>
      var i := First(OutputKeys(s), (q, u));
      if i.None? then Refused else Recorded(s.(outputs := Drop(s.outputs, i.value)))
  }

  /** The id guard every edit starts with, on its input alone. */
  predicate Rejected(s: Settings, e: Edit) {
    match e
    case AddEntity(id, _) => id in SourceIds(s)
    case RemoveEntity(id) => id !in EntityIds(s)
    case UpdateEntity(id, _) => id !in EntityIds(s)
    case AddRelationship(id, _) => id in SourceIds(s)
    case RemoveRelationship(id) => id !in RelationshipIds(s)
    case UpdateRelationship(id, _) => id !in RelationshipIds(s)
    case AddQuery(id, _) => id in QueryIds(s)
    case RemoveQuery(id) => id !in QueryIds(s)
    case AddOutput(_, _) => false
    case RemoveOutput(q, u) => (q, u) !in OutputKeys(s)
  }

  /** The edit's payload fails validation. */
  predicate Invalid(e: Edit) {
    match e
    case AddEntity(_, x) => x.None?
    case UpdateEntity(_, x) => x.None?
    case AddRelationship(_, x) => x.None?
    case UpdateRelationship(_, x) => x.None?
    case AddQuery(_, x) => x.None?
    case AddOutput(_, x) => x.None?
    case _ => false
  }

  /** A payload fails validation exactly where an edit that needs one comes without a valid one. */
  lemma InvalidMeaning(e: Edit)
    ensures Invalid(e) <==> e in {AddEntity(e.Id(), None), UpdateEntity(e.Id(), None), AddRelationship(e.Id(), None),
                                  UpdateRelationship(e.Id(), None), AddQuery(e.Id(), None), AddOutput(e.Id(), None)}
  {}

  lemma RefusedIff(s: Settings, e: Edit)
    ensures Perform(s, e).Refused? <==> Rejected(s, e)
    ensures Invalid(e) && !Rejected(s, e) ==> Perform(s, e) == Recorded(s)
  {}

  // ---- The builder's state as a value ----

  datatype Entry = Entry(before: Settings, operation: Operation)

  datatype Builder = Builder(undo: seq<Entry>, current: Settings, redo: seq<Entry>, dirty: bool, saved: Settings)

  function AfterRecord(b: Builder, op: Operation): Builder {
    b.(undo := b.undo + [Entry(b.current, op)], redo := [], dirty := true)
  }

  function AfterEdit(b: Builder, e: Edit): Builder {
    var o := Perform(b.current, e);
    if o.Refused? then b else AfterRecord(b, EditOp(e)).(current := o.after)
  }

  function AfterRestore(b: Builder, snapshot: Settings): Builder {
    AfterRecord(b, RestoreOp).(current := snapshot)
  }

  function AfterUndo(b: Builder): Builder
    requires b.undo != []
  {
    var e := b.undo[|b.undo| - 1];
    Builder(b.undo[..|b.undo| - 1], e.before, b.redo + [Entry(b.current, e.operation)], true, b.saved)
  }

  function AfterRedo(b: Builder): Builder
    requires b.redo != []
  {
    var e := b.redo[|b.redo| - 1];
    Builder(b.undo + [Entry(b.current, e.operation)], e.before, b.redo[..|b.redo| - 1], true, b.saved)
  }

  function AfterMarkClean(b: Builder): Builder {
    b.(dirty := false, saved := b.current)
  }

  // ---- One timeline, one cursor ----

  function Befores(es: seq<Entry>): (r: seq<Settings>)
    ensures |r| == |es| && forall i :: 0 <= i < |es| ==> r[i] == es[i].before
  {
    seq(|es|, i requires 0 <= i < |es| => es[i].before)
  }

  function Operations(es: seq<Entry>): (r: seq<Operation>)
    ensures |r| == |es| && forall i :: 0 <= i < |es| ==> r[i] == es[i].operation
  {
    seq(|es|, i requires 0 <= i < |es| => es[i].operation)
  }

  function Reversed<T>(s: seq<T>): (r: seq<T>)
    ensures |r| == |s| && forall i :: 0 <= i < |s| ==> r[i] == s[|s| - 1 - i]
  {
    seq(|s|, i requires 0 <= i < |s| => s[|s| - 1 - i])
  }

  /** Past configurations, the current one, and the undone ones, oldest first. */
  function Timeline(b: Builder): seq<Settings> {
    Befores(b.undo) + [b.current] + Reversed(Befores(b.redo))
  }

  /** The operations between neighbouring configurations of the timeline. */
  function Labels(b: Builder): seq<Operation> {
    Operations(b.undo) + Reversed(Operations(b.redo))
  }

  function Cursor(b: Builder): nat {
    |b.undo|
  }

  lemma CurrentIsAtCursor(b: Builder)
    ensures |Timeline(b)| == |Labels(b)| + 1 == |b.undo| + |b.redo| + 1
    ensures Timeline(b)[Cursor(b)] == b.current
  {}

  /** Undo and redo only move the cursor. */
  lemma UndoMovesCursor(b: Builder)
    requires b.undo != []
    ensures Timeline(AfterUndo(b)) == Timeline(b) && Labels(AfterUndo(b)) == Labels(b)
    ensures Cursor(AfterUndo(b)) == Cursor(b) - 1
  {
    var c := AfterUndo(b);
    assert Befores(b.undo) == Befores(c.undo) + [c.current];
    assert Reversed(Befores(c.redo)) == [b.current] + Reversed(Befores(b.redo));
    var op := b.undo[|b.undo| - 1].operation;
    assert Operations(b.undo) == Operations(c.undo) + [op];
    assert Reversed(Operations(c.redo)) == [op] + Reversed(Operations(b.redo));
  }

  lemma RedoMovesCursor(b: Builder)
    requires b.redo != []
    ensures Timeline(AfterRedo(b)) == Timeline(b) && Labels(AfterRedo(b)) == Labels(b)
    ensures Cursor(AfterRedo(b)) == Cursor(b) + 1
  {
    RedoUndoes(b);
    UndoMovesCursor(AfterRedo(b));
  }

  /** Undoing a redo gives back everything but the dirty flag. */
  lemma RedoUndoes(b: Builder)
    requires b.redo != []
    ensures AfterUndo(AfterRedo(b)) == b.(dirty := true)
  {
    var c := AfterRedo(b);
    var e := b.redo[|b.redo| - 1];
    assert c.undo[..|c.undo| - 1] == b.undo;
    assert b.redo == c.redo + [e];
  }

  lemma UndoRedoes(b: Builder)
    requires b.undo != []
    ensures AfterRedo(AfterUndo(b)) == b.(dirty := true)
  {
    var c := AfterUndo(b);
    var e := b.undo[|b.undo| - 1];
    assert c.redo[..|c.redo| - 1] == b.redo;
    assert b.undo == c.undo + [e];
  }

  /** A recorded edit cuts off the future and appends its result. */
  lemma EditTruncatesFuture(b: Builder, e: Edit)
    requires Perform(b.current, e).Recorded?
    ensures var c, n := AfterEdit(b, e), Cursor(b);
            && Timeline(c) == Timeline(b)[..n + 1] + [Perform(b.current, e).after]
            && Labels(c) == Labels(b)[..n] + [EditOp(e)]
            && Cursor(c) == n + 1
  {
    RecordTruncates(b, EditOp(e), Perform(b.current, e).after);
  }

  lemma RestoreTruncatesFuture(b: Builder, s: Settings)
    ensures var c, n := AfterRestore(b, s), Cursor(b);
            && Timeline(c) == Timeline(b)[..n + 1] + [s]
            && Labels(c) == Labels(b)[..n] + [RestoreOp]
            && Cursor(c) == n + 1
  {
    RecordTruncates(b, RestoreOp, s);
  }

  lemma RecordTruncates(b: Builder, op: Operation, after: Settings)
    ensures var c, n := AfterRecord(b, op).(current := after), Cursor(b);
            && Timeline(c) == Timeline(b)[..n + 1] + [after]
            && Labels(c) == Labels(b)[..n] + [op]
            && Cursor(c) == n + 1
  {
    var c := AfterRecord(b, op).(current := after);
    assert Befores(c.undo) == Befores(b.undo) + [b.current];
    assert Operations(c.undo) == Operations(b.undo) + [op];
  }

  function UndoTimes(b: Builder, k: nat): Builder
    requires k <= |b.undo|
    decreases k
  {
    if k == 0 then b else UndoTimes(AfterUndo(b), k - 1)
  }

  function RedoTimes(b: Builder, k: nat): Builder
    requires k <= |b.redo|
    decreases k
  {
    if k == 0 then b else RedoTimes(AfterRedo(b), k - 1)
  }

  lemma {:induction false} UndoTimesStacks(b: Builder, k: nat)
    requires k <= |b.undo|
    ensures |UndoTimes(b, k).undo| == |b.undo| - k && |UndoTimes(b, k).redo| == |b.redo| + k
    ensures Timeline(UndoTimes(b, k)) == Timeline(b) && Labels(UndoTimes(b, k)) == Labels(b)
    ensures UndoTimes(b, k).current == Timeline(b)[Cursor(b) - k]
    ensures UndoTimes(b, k).saved == b.saved
    decreases k
  {
    CurrentIsAtCursor(b);
    if k > 0 {
      UndoTimesStacks(AfterUndo(b), k - 1);
      UndoMovesCursor(b);
    }
  }

  lemma {:induction false} UndoOneMore(b: Builder, k: nat)
    requires k < |b.undo|
    ensures |UndoTimes(b, k).undo| > 0 && UndoTimes(b, k + 1) == AfterUndo(UndoTimes(b, k))
    decreases k
  {
    UndoTimesStacks(b, k);
    if k > 0 {
      UndoOneMore(AfterUndo(b), k - 1);
    }
  }

  lemma {:induction false} DirtyDoesNotSteer(b: Builder, k: nat)
    requires 0 < k <= |b.redo|
    ensures RedoTimes(b.(dirty := true), k) == RedoTimes(b, k)
  {
    if k > 1 {
      assert AfterRedo(b.(dirty := true)) == AfterRedo(b);
    }
  }

  /** k undos followed by k redos restore configuration, both stacks and so the history. */
  lemma {:induction false} UndosThenRedos(b: Builder, k: nat)
    requires 0 < k <= |b.undo|
    ensures k <= |UndoTimes(b, k).redo| && RedoTimes(UndoTimes(b, k), k) == b.(dirty := true)
  {
    UndoTimesStacks(b, k);
    UndoOneMore(b, k - 1);
    var c := UndoTimes(b, k - 1);
    UndoRedoes(c);
    if k > 1 {
      UndosThenRedos(b, k - 1);
      DirtyDoesNotSteer(c, k - 1);
    }
  }

  /** The edit that takes back an addition. */
  function Removal(e: Edit): Edit
    requires e.AddEntity? || e.AddRelationship? || e.AddQuery? || (e.AddOutput? && e.output.Some?)
  {
    match e
    case AddEntity(id, _) => RemoveEntity(id)
    case AddRelationship(id, _) => RemoveRelationship(id)
    case AddQuery(id, _) => RemoveQuery(id)
    case AddOutput(_, x) => RemoveOutput(x.value.queryId, x.value.uri)
  }

  /** The addition's payload carries its id, which (or for an output, whose query and target) is new. */
  predicate AddsNew(s: Settings, e: Edit) {
    match e
    case AddEntity(id, x) => x.Some? && x.value.id == id && id !in SourceIds(s)
    case AddRelationship(id, x) => x.Some? && x.value.id == id && id !in SourceIds(s)
    case AddQuery(id, x) => x.Some? && x.value.id == id && id !in QueryIds(s)
    case AddOutput(_, x) => x.Some? && (x.value.queryId, x.value.uri) !in OutputKeys(s)
    case _ => false
  }

  lemma {:induction false} FirstAtEnd<T>(s: seq<T>, x: T)
    requires x !in s
    ensures First(s + [x], x) == Some(|s|)
  {
    if s == [] {
      assert (s + [x])[0] == x;
    } else {
      assert (s + [x])[0] == s[0] && (s + [x])[1..] == s[1..] + [x];
      FirstAtEnd(s[1..], x);
    }
  }

  /** Adding an entity source, a relationship source, a query or an output and removing it again restores the
      configuration. */
  lemma AddThenRemove(s: Settings, e: Edit)
    requires AddsNew(s, e)
    ensures Perform(s, e).Recorded?
    ensures Perform(Perform(s, e).after, Removal(e)) == Recorded(s)
  {
    hide First;
    var t := Perform(s, e).after;
    match e
    case AddEntity(id, x) =>
      assert EntityIds(t) == EntityIds(s) + [id];
      assert forall i :: 0 <= i < |s.entities| ==> EntityIds(s)[i] == SourceIds(s)[i];
      FirstAtEnd(EntityIds(s), id);
      assert Drop(t.entities, |s.entities|) == s.entities;
    case AddRelationship(id, x) =>
      assert RelationshipIds(t) == RelationshipIds(s) + [id];
      assert forall i :: 0 <= i < |s.relationships| ==> RelationshipIds(s)[i] == SourceIds(s)[|s.entities| + i];
      FirstAtEnd(RelationshipIds(s), id);
      assert Drop(t.relationships, |s.relationships|) == s.relationships;
    case AddQuery(id, x) =>
      assert QueryIds(t) == QueryIds(s) + [id];
      FirstAtEnd(QueryIds(s), id);
      assert Drop(t.queries, |s.queries|) == s.queries;
    case AddOutput(_, x) =>
      var key := (x.value.queryId, x.value.uri);
      assert OutputKeys(t) == OutputKeys(s) + [key];
      FirstAtEnd(OutputKeys(s), key);
      assert Drop(t.outputs, |s.outputs|) == s.outputs;
  }

  // ---- Unique ids ----

  ghost predicate NoRepeats(ids: seq<string>) {
    forall i, j :: 0 <= i < j < |ids| ==> ids[i] != ids[j]
  }

  ghost predicate UniqueIds(s: Settings) {
    NoRepeats(SourceIds(s)) && NoRepeats(QueryIds(s))
  }

  /** The payload carries the id the edit was called with. */
  ghost predicate KeepsId(e: Edit) {
    match e
    case AddEntity(id, x) => x.Some? ==> x.value.id == id
    case UpdateEntity(id, x) => x.Some? ==> x.value.id == id
    case AddRelationship(id, x) => x.Some? ==> x.value.id == id
    case UpdateRelationship(id, x) => x.Some? ==> x.value.id == id
    case AddQuery(id, x) => x.Some? ==> x.value.id == id
    case _ => true
  }

  /** The id the payload brings in is not taken: by anyone for an addition, by anyone else for an update. */
  predicate NewIdFree(s: Settings, e: Edit) {
    match e
    case AddEntity(_, x) => x.Some? ==> x.value.id !in SourceIds(s)
    case UpdateEntity(id, x) => x.Some? ==> x.value.id == id || x.value.id !in SourceIds(s)
    case AddRelationship(_, x) => x.Some? ==> x.value.id !in SourceIds(s)
    case UpdateRelationship(id, x) => x.Some? ==> x.value.id == id || x.value.id !in SourceIds(s)
    case AddQuery(_, x) => x.Some? ==> x.value.id !in QueryIds(s)
    case _ => true
  }

  lemma DropKeepsNoRepeats(ids: seq<string>, i: nat)
    requires NoRepeats(ids) && i < |ids|
    ensures NoRepeats(Drop(ids, i))
  {}

  lemma InsertNoRepeatsIff(ids: seq<string>, i: nat, id: string)
    requires NoRepeats(ids) && i <= |ids|
    ensures NoRepeats(ids[..i] + [id] + ids[i..]) <==> id !in ids
  {
    var r := ids[..i] + [id] + ids[i..];
    if id in ids {
      var j :| 0 <= j < |ids| && ids[j] == id;
      if j < i {
        assert r[j] == r[i];
      } else {
        assert r[i] == r[j + 1];
      }
    }
  }

  lemma ReplaceNoRepeatsIff(ids: seq<string>, i: nat, id: string)
    requires NoRepeats(ids) && i < |ids|
    ensures NoRepeats(ids[i := id]) <==> id == ids[i] || id !in ids
  {
    var r := ids[i := id];
    if id in ids && id != ids[i] {
      var j :| 0 <= j < |ids| && ids[j] == id;
      assert r[j] == r[i] && j != i;
    }
  }

  lemma EntityEditUniqueIff(s: Settings, e: Edit)
    requires e.AddEntity? || e.RemoveEntity? || e.UpdateEntity?
    requires NoRepeats(SourceIds(s)) && Perform(s, e).Recorded?
    ensures NoRepeats(SourceIds(Perform(s, e).after)) <==> NewIdFree(s, e)
    ensures Perform(s, e).after.queries == s.queries
  {
    hide First, NoRepeats;
    var t, ids := Perform(s, e).after, SourceIds(s);
    var n := |s.entities|;
    if e.AddEntity? && e.entity.Some? {
      assert SourceIds(t) == ids[..n] + [e.entity.value.id] + ids[n..];
      InsertNoRepeatsIff(ids, n, e.entity.value.id);
    } else if e.RemoveEntity? {
      var i := First(EntityIds(s), e.id).value;
      assert SourceIds(t) == Drop(ids, i);
      DropKeepsNoRepeats(ids, i);
    } else if e.UpdateEntity? && e.entity.Some? {
      var i := First(EntityIds(s), e.id).value;
      assert SourceIds(t) == ids[i := e.entity.value.id] && ids[i] == e.id;
      ReplaceNoRepeatsIff(ids, i, e.entity.value.id);
    } else {
      assert SourceIds(t) == ids;
    }
  }

  lemma RelationshipEditUniqueIff(s: Settings, e: Edit)
    requires e.AddRelationship? || e.RemoveRelationship? || e.UpdateRelationship?
    requires NoRepeats(SourceIds(s)) && Perform(s, e).Recorded?
    ensures NoRepeats(SourceIds(Perform(s, e).after)) <==> NewIdFree(s, e)
    ensures Perform(s, e).after.queries == s.queries
  {
    hide First, NoRepeats;
    var t, ids := Perform(s, e).after, SourceIds(s);
    var n := |s.entities|;
    if e.AddRelationship? && e.relationship.Some? {
      assert SourceIds(t) == ids[..|ids|] + [e.relationship.value.id] + ids[|ids|..];
      InsertNoRepeatsIff(ids, |ids|, e.relationship.value.id);
    } else if e.RemoveRelationship? {
      var i := First(RelationshipIds(s), e.id).value;
      assert SourceIds(t) == Drop(ids, n + i);
      DropKeepsNoRepeats(ids, n + i);
    } else if e.UpdateRelationship? && e.relationship.Some? {
      var i := First(RelationshipIds(s), e.id).value;
      assert SourceIds(t) == ids[n + i := e.relationship.value.id] && ids[n + i] == e.id;
      ReplaceNoRepeatsIff(ids, n + i, e.relationship.value.id);
    } else {
      assert SourceIds(t) == ids;
    }
  }

  lemma QueryEditUniqueIff(s: Settings, e: Edit)
    requires e.AddQuery? || e.RemoveQuery?
    requires NoRepeats(QueryIds(s)) && Perform(s, e).Recorded?
    ensures NoRepeats(QueryIds(Perform(s, e).after)) <==> NewIdFree(s, e)
    ensures SourceIds(Perform(s, e).after) == SourceIds(s)
  {
    hide First, NoRepeats;
    var t, ids := Perform(s, e).after, QueryIds(s);
    if e.AddQuery? && e.query.Some? {
      assert QueryIds(t) == ids[..|ids|] + [e.query.value.id] + ids[|ids|..];
      InsertNoRepeatsIff(ids, |ids|, e.query.value.id);
    } else if e.RemoveQuery? {
      var i := First(QueryIds(s), e.id).value;
      assert QueryIds(t) == Drop(ids, i);
      DropKeepsNoRepeats(ids, i);
    }
  }

  /** An edit keeps all source ids and all query ids distinct exactly when the id it brings in is free, renaming updates
      included. */
  lemma EditUniqueIdsIff(s: Settings, e: Edit)
    requires UniqueIds(s) && Perform(s, e).Recorded?
    ensures UniqueIds(Perform(s, e).after) <==> NewIdFree(s, e)
  {
    hide First, NoRepeats;
    if e.AddEntity? || e.RemoveEntity? || e.UpdateEntity? {
      EntityEditUniqueIff(s, e);
    } else if e.AddRelationship? || e.RemoveRelationship? || e.UpdateRelationship? {
      RelationshipEditUniqueIff(s, e);
    } else if e.AddQuery? || e.RemoveQuery? {
      QueryEditUniqueIff(s, e);
    }
  }

  /** In particular an edit that does not rename keeps them distinct. */
  lemma EditKeepsUniqueIds(s: Settings, e: Edit)
    requires UniqueIds(s) && KeepsId(e) && Perform(s, e).Recorded?
    ensures UniqueIds(Perform(s, e).after)
  {
    hide First, UniqueIds;
    EditUniqueIdsIff(s, e);
  }

  /** A failing edit leaves the builder as it was exactly when the id guard stopped it. Past the guard, a payload that
      fails validation still costs the redo history, and the timeline gains a copy of the current configuration. */
  lemma FailedEditIff(b: Builder, e: Edit)
    requires Rejected(b.current, e) || Invalid(e)
    ensures AfterEdit(b, e) == b <==> Rejected(b.current, e)
    ensures !Rejected(b.current, e) ==>
              var c := AfterEdit(b, e);
              && c.current == b.current && c.redo == [] && c.dirty && Cursor(c) == Cursor(b) + 1
              && Timeline(c) == Timeline(b)[..Cursor(b) + 1] + [b.current]
              && Labels(c) == Labels(b)[..Cursor(b)] + [EditOp(e)]
  {
    hide Perform, Rejected, Timeline, Labels;
    RefusedIff(b.current, e);
    if !Rejected(b.current, e) {
      assert |AfterEdit(b, e).undo| == |b.undo| + 1;
      EditTruncatesFuture(b, e);
    }
  }

  // ---- Whole runs ----

  datatype Action = EditAction(edit: Edit) | UndoAction | RedoAction | RestoreAction(snapshot: Settings) | CleanAction

  function Act(b: Builder, a: Action): Builder {
    match a
    case EditAction(e) => AfterEdit(b, e)
    case UndoAction => if b.undo == [] then b else AfterUndo(b)
    case RedoAction => if b.redo == [] then b else AfterRedo(b)
    case RestoreAction(s) => AfterRestore(b, s)
    case CleanAction => AfterMarkClean(b)
  }

  function Play(b: Builder, actions: seq<Action>): Builder {
    if actions == [] then b else Act(Play(b, actions[..|actions| - 1]), actions[|actions| - 1])
  }

  ghost predicate CleanIsSaved(b: Builder) {
    !b.dirty ==> b.current == b.saved
  }

  /** Each step of a timeline is its operation performed on the configuration before it. */
  ghost predicate Linked(timeline: seq<Settings>, labels: seq<Operation>) {
    && |timeline| == |labels| + 1
    && forall i :: 0 <= i < |labels| && labels[i].EditOp? ==>
         Perform(timeline[i], labels[i].edit) == Recorded(timeline[i + 1])
  }

  lemma LinkedExtends(timeline: seq<Settings>, labels: seq<Operation>, n: nat, after: Settings, op: Operation)
    requires Linked(timeline, labels) && n <= |labels|
    requires op.EditOp? ==> Perform(timeline[n], op.edit) == Recorded(after)
    ensures Linked(timeline[..n + 1] + [after], labels[..n] + [op])
  {
    hide Perform;
  }

  /** After every run: the timeline starts where the builder began, each entry follows from the one before by the
      operation between them (so the history replays to the current configuration), and a clean builder is its save
      point. */
  lemma {:induction false} RunsKeepTimeline(start: Settings, actions: seq<Action>)
    ensures var b := Play(Builder([], start, [], false, start), actions);
            && Timeline(b)[0] == start && Timeline(b)[Cursor(b)] == b.current
            && Linked(Timeline(b), Labels(b))
            && CleanIsSaved(b)
  {
    hide Perform, Timeline, Labels, Linked;
    if actions == [] {
      NothingYet(start);
    } else {
      var init, a := actions[..|actions| - 1], actions[|actions| - 1];
      RunsKeepTimeline(start, init);
      CurrentIsAtCursor(Play(Builder([], start, [], false, start), init));
      ActKeepsTimeline(Play(Builder([], start, [], false, start), init), a, start);
    }
  }

  lemma NothingYet(start: Settings)
    ensures var b := Builder([], start, [], false, start);
            Timeline(b) == [start] && Labels(b) == [] && Linked([start], [])
  {}

  lemma ActKeepsTimeline(b: Builder, a: Action, start: Settings)
    requires |Timeline(b)| > 0 && Timeline(b)[0] == start && Linked(Timeline(b), Labels(b)) && CleanIsSaved(b)
    ensures var c := Act(b, a);
            && |Timeline(c)| > Cursor(c) && Timeline(c)[0] == start && Timeline(c)[Cursor(c)] == c.current
            && Linked(Timeline(c), Labels(c)) && CleanIsSaved(c)
  {
    hide Perform, Linked;
    CurrentIsAtCursor(b);
    CurrentIsAtCursor(Act(b, a));
    match a
    case EditAction(e) =>
      if Perform(b.current, e).Recorded? {
        EditTruncatesFuture(b, e);
        LinkedExtends(Timeline(b), Labels(b), Cursor(b), Perform(b.current, e).after, EditOp(e));
      }
    case UndoAction => if b.undo != [] { UndoMovesCursor(b); }
    case RedoAction => if b.redo != [] { RedoMovesCursor(b); }
    case RestoreAction(s) =>
      RestoreTruncatesFuture(b, s);
      LinkedExtends(Timeline(b), Labels(b), Cursor(b), s, RestoreOp);
    case CleanAction =>
      assert Timeline(Act(b, a)) == Timeline(b) && Labels(Act(b, a)) == Labels(b);
  }
}
