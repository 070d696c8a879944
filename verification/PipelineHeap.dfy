/** The builder on the heap: one live configuration object, and deep copies everywhere else. */
module PipelineHeap {
  import opened Values
  import opened PipelineBuilding

  /** PipelineConfig: its lists are edited in place. */
  class Config {
    var entities: seq<EntitySource>
    var relationships: seq<RelationshipSource>
    var queries: seq<Query>
    var outputs: seq<Output>

    constructor (s: Settings)
      ensures Value() == s
    {
      entities, relationships, queries, outputs := s.entities, s.relationships, s.queries, s.outputs;
    }

    function Value(): Settings
      reads this
    {
      Settings(entities, relationships, queries, outputs)
    }

    method DeepCopy() returns (c: Config)
      ensures fresh(c) && c.Value() == Value()
    {
      c := new Config(Value());
    }
  }

  datatype UndoEntry = UndoEntry(configBefore: Config, operation: Operation)

  ghost function Configs(entries: seq<UndoEntry>): set<Config> {
    set e | e in entries :: e.configBefore
  }

  ghost function Entries(entries: seq<UndoEntry>): (r: seq<Entry>)
    reads Configs(entries)
    ensures |r| == |entries|
    ensures forall i :: 0 <= i < |r| ==> r[i] == Entry(entries[i].configBefore.Value(), entries[i].operation)
  {
    if entries == [] then []
    else
      var last := entries[|entries| - 1];
      Entries(entries[..|entries| - 1]) + [Entry(last.configBefore.Value(), last.operation)]
  }

  lemma ConfigsPop(entries: seq<UndoEntry>)
    requires entries != []
    ensures Configs(entries) == Configs(entries[..|entries| - 1]) + {entries[|entries| - 1].configBefore}
  {
    hide Entries;
    var init, last := entries[..|entries| - 1], entries[|entries| - 1];
    assert entries == init + [last];
    assert forall e :: e in entries <==> e in init || e == last;
  }

  lemma EntriesPop(entries: seq<UndoEntry>)
    requires entries != []
    ensures Configs(entries) == Configs(entries[..|entries| - 1]) + {entries[|entries| - 1].configBefore}
    ensures var last := entries[|entries| - 1];
            Entries(entries) == Entries(entries[..|entries| - 1]) + [Entry(last.configBefore.Value(), last.operation)]
  {
    hide Configs;
    ConfigsPop(entries);
  }

  lemma EntriesPush(entries: seq<UndoEntry>, e: UndoEntry)
    ensures Configs(entries + [e]) == Configs(entries) + {e.configBefore}
    ensures Entries(entries + [e]) == Entries(entries) + [Entry(e.configBefore.Value(), e.operation)]
  {
    assert (entries + [e])[..|entries|] == entries;
  }

  lemma StoredExist(entries: seq<UndoEntry>)
    ensures forall c :: c in Configs(entries) ==> allocated(c)
  {}

  /** The first position of x. */
  ghost predicate IsFirstAt<T>(keys: seq<T>, x: T, at: nat) {
    at < |keys| && keys[at] == x && x !in keys[..at]
  }

  /** The position an update or removal works on. */
  ghost predicate IsTarget(s: Settings, e: Edit, at: nat) {
    match e
    case RemoveEntity(id) => IsFirstAt(EntityIds(s), id, at)
    case UpdateEntity(id, _) => IsFirstAt(EntityIds(s), id, at)
    case RemoveRelationship(id) => IsFirstAt(RelationshipIds(s), id, at)
    case UpdateRelationship(id, _) => IsFirstAt(RelationshipIds(s), id, at)
    case RemoveQuery(id) => IsFirstAt(QueryIds(s), id, at)
    case RemoveOutput(q, u) => IsFirstAt(OutputKeys(s), (q, u), at)
    case _ => true
  }

  lemma {:induction false} FirstIs<T>(keys: seq<T>, x: T, at: nat)
    requires IsFirstAt(keys, x, at)
    ensures First(keys, x) == Some(at)
  {
    if at > 0 {
      assert keys[..at][0] == keys[0] && keys[1..][..at - 1] == keys[..at][1..];
      FirstIs(keys[1..], x, at - 1);
    }
  }

  lemma TargetIsFirst(s: Settings, e: Edit, at: nat)
    requires IsTarget(s, e, at)
    ensures e.RemoveEntity? ==> First(EntityIds(s), e.id) == Some(at)
    ensures e.UpdateEntity? ==> First(EntityIds(s), e.id) == Some(at)
    ensures e.RemoveRelationship? ==> First(RelationshipIds(s), e.id) == Some(at)
    ensures e.UpdateRelationship? ==> First(RelationshipIds(s), e.id) == Some(at)
    ensures e.RemoveQuery? ==> First(QueryIds(s), e.id) == Some(at)
    ensures e.RemoveOutput? ==> First(OutputKeys(s), (e.queryId, e.uri)) == Some(at)
  {
    hide First;
    match e
    case RemoveEntity(id) => FirstIs(EntityIds(s), id, at);
    case UpdateEntity(id, _) => FirstIs(EntityIds(s), id, at);
    case RemoveRelationship(id) => FirstIs(RelationshipIds(s), id, at);
    case UpdateRelationship(id, _) => FirstIs(RelationshipIds(s), id, at);
    case RemoveQuery(id) => FirstIs(QueryIds(s), id, at);
    case RemoveOutput(q, u) => FirstIs(OutputKeys(s), (q, u), at);
    case _ =>
  }

  class PipelineBuilder {
    var config: Config
    var undoStack: seq<UndoEntry>
    var redoStack: seq<UndoEntry>
    var dirty: bool
    var savePoint: Config

    /** Every stored configuration object. */
    ghost function Stored(): set<Config>
      reads this
    {
      Configs(undoStack) + Configs(redoStack) + {savePoint}
    }

    /** No stored configuration is the live one, and a clean builder equals its save point. */
    ghost predicate Valid()
      reads this, config, savePoint
    {
      config !in Stored() && (!dirty ==> config.Value() == savePoint.Value())
    }

    ghost function State(): Builder
      reads this, config, Stored()
    {
      Builder(Entries(undoStack), config.Value(), Entries(redoStack), dirty, savePoint.Value())
    }

    /** The caller's object becomes the live configuration. */
    constructor (config: Config)
      ensures Valid() && this.config == config
      ensures State() == Builder([], config.Value(), [], false, config.Value())
    {
      this.config, undoStack, redoStack, dirty := config, [], [], false;
      this.savePoint := config;
      new;
      savePoint := config.DeepCopy();
    }

    constructor FromConfig(original: Config)
      ensures Valid() && fresh(config)
      ensures State() == Builder([], original.Value(), [], false, original.Value())
    {
      var live := original.DeepCopy();
      config, undoStack, redoStack, dirty := live, [], [], false;
      savePoint := live;
      new;
      savePoint := live.DeepCopy();
    }

    method MarkClean()
      requires Valid()
      modifies this`dirty, this`savePoint
      ensures Valid() && State() == AfterMarkClean(old(State()))
    {
      dirty := false;
      savePoint := config.DeepCopy();
    }

    method RecordOperation(op: Operation)
      requires Valid()
      modifies this`undoStack, this`redoStack, this`dirty
      ensures Valid() && State() == AfterRecord(old(State()), op)
      ensures fresh(Stored() - old(Stored()))
    {
      hide Entries;
      var before := config.DeepCopy();
      EntriesPush(undoStack, UndoEntry(before, op));
      undoStack := undoStack + [UndoEntry(before, op)];
      redoStack := [];
      dirty := true;
    }

    /** `for i, s in enumerate(...)`: the first position of x. */
    static method Scan<T(==)>(keys: seq<T>, x: T) returns (found: Option<nat>)
      ensures found.Some? ==> found.value < |keys| && keys[found.value] == x && x !in keys[..found.value]
      ensures found.None? ==> x !in keys
    {
      for i := 0 to |keys|
        invariant x !in keys[..i]
      {
        if keys[i] == x {
          return Some(i);
        }
        assert keys[..i + 1] == keys[..i] + [keys[i]];
      }
      assert keys[..|keys|] == keys;
      return None;
    }

    /** _source_id_exists: entity sources first, then relationship sources. */
    method SourceIdExists(id: string) returns (exists_: bool)
      ensures exists_ <==> id in SourceIds(config.Value())
    {
      var s := config.Value();
      var found := Scan(EntityIds(s), id);
      if found.None? {
        found := Scan(RelationshipIds(s), id);
      }
      assert SourceIds(s) == EntityIds(s) + RelationshipIds(s);
      return found.Some?;
    }

    /** The guard of an edit, and for the edits that name an entry its position. */
    method Guard(e: Edit) returns (rejected: bool, at: nat)
      ensures rejected <==> Rejected(config.Value(), e)
      ensures !rejected ==> IsTarget(config.Value(), e, at)
    {
      var s := config.Value();
      var found: Option<nat> := Some(0);
      rejected, at := false, 0;
      match e {
        case AddEntity(id, _) => rejected := SourceIdExists(id);
        case RemoveEntity(id) => found := Scan(EntityIds(s), id);
        case UpdateEntity(id, _) => found := Scan(EntityIds(s), id);
        case AddRelationship(id, _) => rejected := SourceIdExists(id);
        case RemoveRelationship(id) => found := Scan(RelationshipIds(s), id);
        case UpdateRelationship(id, _) => found := Scan(RelationshipIds(s), id);
        case AddQuery(id, _) =>
          var taken := Scan(QueryIds(s), id);
          rejected := taken.Some?;
        case RemoveQuery(id) => found := Scan(QueryIds(s), id);
        case AddOutput(_, _) =>
        case RemoveOutput(q, u) => found := Scan(OutputKeys(s), (q, u));
      }
      if found.None? {
        rejected := true;
      } else {
        at := found.value;
      }
    }

    /** Any of the ten edits: refused without a trace, or recorded and then applied in place. */
    method Apply(e: Edit) returns (ok: bool)
      requires Valid()
      modifies this`undoStack, this`redoStack, this`dirty, config
      ensures Valid() && State() == AfterEdit(old(State()), e)
      ensures config == old(config) && fresh(Stored() - old(Stored()))
      ensures ok <==> !Rejected(old(config.Value()), e) && !Invalid(e)
    {
      hide Entries, Perform, IsTarget, Rejected, Invalid;
      var rejected, at := Guard(e);
      RefusedIff(config.Value(), e);
      if rejected {
        return false;
      }
      RecordOperation(EditOp(e));
      ok := EditInPlace(e, at);
    }

    /** The change itself; a payload that fails validation raises before anything is changed. */
    method EditInPlace(e: Edit, at: nat) returns (ok: bool)
      requires !Rejected(config.Value(), e) && IsTarget(config.Value(), e, at)
      modifies config
      ensures Recorded(config.Value()) == Perform(old(config.Value()), e)
      ensures ok <==> !Invalid(e)
    {
      hide First, Rejected;
      RefusedIff(config.Value(), e);
      TargetIsFirst(config.Value(), e, at);
      ok := true;
      match e
      case AddEntity(_, x) =>
        if x.Some? { config.entities := config.entities + [x.value]; } else { ok := false; }
      case RemoveEntity(_) =>
        config.entities := config.entities[..at] + config.entities[at + 1..];
      case UpdateEntity(_, x) =>
        if x.Some? { config.entities := config.entities[at := x.value]; } else { ok := false; }
      case AddRelationship(_, x) =>
        if x.Some? { config.relationships := config.relationships + [x.value]; } else { ok := false; }
      case RemoveRelationship(_) =>
        config.relationships := config.relationships[..at] + config.relationships[at + 1..];
      case UpdateRelationship(_, x) =>
        if x.Some? { config.relationships := config.relationships[at := x.value]; } else { ok := false; }
      case AddQuery(_, x) =>
        if x.Some? { config.queries := config.queries + [x.value]; } else { ok := false; }
      case RemoveQuery(_) =>
        config.queries := config.queries[..at] + config.queries[at + 1..];
      case AddOutput(_, x) =>
        if x.Some? { config.outputs := config.outputs + [x.value]; } else { ok := false; }
      case RemoveOutput(_, _) =>
        config.outputs := config.outputs[..at] + config.outputs[at + 1..];
    }

    /** Replaces the live configuration by a copy of c. */
    method ApplyConfig(c: Config)
      modifies this`config
      ensures fresh(config) && config.Value() == c.Value()
    {
      config := c.DeepCopy();
    }

    method Undo() returns (ok: bool)
      requires Valid()
      modifies this`config, this`undoStack, this`redoStack, this`dirty
      ensures ok <==> old(undoStack) != []
      ensures Valid() && State() == if ok then AfterUndo(old(State())) else old(State())
      ensures ok ==> fresh(config) && fresh(Stored() - old(Stored()))
    {
      hide Entries, Configs;
      ghost var stored := Stored();
      StoredExist(undoStack);
      StoredExist(redoStack);
      if undoStack == [] {
        return false;
      }
      var entry := undoStack[|undoStack| - 1];
      EntriesPop(undoStack);
      undoStack := undoStack[..|undoStack| - 1];
      var copy := config.DeepCopy();
      EntriesPush(redoStack, UndoEntry(copy, entry.operation));
      redoStack := redoStack + [UndoEntry(copy, entry.operation)];
      ApplyConfig(entry.configBefore);
      dirty := true;
      ok := true;
      assert Stored() <= stored + {copy};
    }

    method Redo() returns (ok: bool)
      requires Valid()
      modifies this`config, this`undoStack, this`redoStack, this`dirty
      ensures ok <==> old(redoStack) != []
      ensures Valid() && State() == if ok then AfterRedo(old(State())) else old(State())
      ensures ok ==> fresh(config) && fresh(Stored() - old(Stored()))
    {
      hide Entries, Configs;
      ghost var stored := Stored();
      StoredExist(undoStack);
      StoredExist(redoStack);
      if redoStack == [] {
        return false;
      }
      var entry := redoStack[|redoStack| - 1];
      EntriesPop(redoStack);
      redoStack := redoStack[..|redoStack| - 1];
      var copy := config.DeepCopy();
      EntriesPush(undoStack, UndoEntry(copy, entry.operation));
      undoStack := undoStack + [UndoEntry(copy, entry.operation)];
      ApplyConfig(entry.configBefore);
      dirty := true;
      ok := true;
      assert Stored() <= stored + {copy};
    }

    method Snapshot() returns (s: Config)
      ensures fresh(s) && s.Value() == config.Value()
    {
      s := config.DeepCopy();
    }

    method Restore(snapshot: Config)
      requires Valid()
      modifies this`config, this`undoStack, this`redoStack, this`dirty
      ensures Valid() && State() == AfterRestore(old(State()), old(snapshot.Value()))
      ensures fresh(config) && fresh(Stored() - old(Stored()))
    {
      hide Entries;
      RecordOperation(RestoreOp);
      ApplyConfig(snapshot);
    }
  }
}
