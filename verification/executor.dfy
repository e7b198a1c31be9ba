/** Statement execution over the whole store (crates/query/src/executor.rs). */
module Executor {
  import opened Bytes
  import opened Wrappers
  import opened Records
  import opened Keys
  import opened StorageModel
  import opened IndexState
  import opened IndexTransitions
  import opened CollectionModel
  import opened Batch
  import opened BatchEffects
  import E = Edges
  import P = Planner
  import Q = QueryExec

  // -------------------------------------------------------------------------
  // Operations without writing
  // -------------------------------------------------------------------------

  method CreateToOps(coll: Collection, id: str, fields: Fields) returns (r: Result<seq<(Key, Blob)>>)
    ensures r == match EntriesFor(coll.t, coll.indexes, id, fields)
      case Ok(keys) => Ok([(DocumentKey(coll.t, id), FieldsBlob(fields))] + EntryPuts(keys))
      case Err(e) => Err(e)
  {
    var keys :- BuildIndexEntries(coll.t, coll.indexes, id, fields);
    r := Ok([(DocumentKey(coll.t, id), FieldsBlob(fields))] + EntryPuts(keys));
  }

  /** What a statement of a batch contributes. */
  datatype Ops = Ops(puts: seq<(Key, Blob)>, dels: seq<Key>, created: nat, updated: nat)

  /** Operations of an upsert, and whether it creates; fails exactly when the resulting document cannot be indexed. */
  method UpsertToOps(coll: Collection, id: str, fields: Fields, updates: Fields) returns (r: Result<(bool, seq<(Key, Blob)>, seq<Key>)>)
    requires coll.Ready()
    ensures id !in coll.Stored() ==> r == match EntriesFor(coll.t, coll.indexes, id, fields)
      case Ok(keys) => Ok((true, [(DocumentKey(coll.t, id), FieldsBlob(fields))] + EntryPuts(keys), []))
      case Err(e) => Err(e)
    ensures id in coll.Stored() ==> coll.Encodable(id, coll.Stored()[id])
    ensures id in coll.Stored() ==> r == match EntriesFor(coll.t, coll.indexes, id, coll.Stored()[id] + updates)
      case Ok(keys) => Ok((false, [(DocumentKey(coll.t, id), FieldsBlob(coll.Stored()[id] + updates))] + EntryPuts(keys), EntriesFor(coll.t, coll.indexes, id, coll.Stored()[id]).value))
      case Err(e) => Err(e)
  {
    var before := coll.Get(id);
    if before.Some? {
      assert coll.Encodable(id, before.value);
      var merged := before.value + updates;
      var oldIdx := BuildIndexEntries(coll.t, coll.indexes, id, before.value);
      var newIdx := BuildIndexEntries(coll.t, coll.indexes, id, merged);
      if newIdx.Err? {
        return Err(Index);
      }
      return Ok((false, [(DocumentKey(coll.t, id), FieldsBlob(merged))] + EntryPuts(newIdx.value), oldIdx.value));
    }
    var puts := CreateToOps(coll, id, fields);
    r := if puts.Ok? then Ok((true, puts.value, [])) else Err(puts.error);
  }

  // -------------------------------------------------------------------------
  // Batches
  // -------------------------------------------------------------------------

  lemma OpsAreDelta(kv: Kv, t: Table, defs: seq<IndexDefinition>, id: str, f: Fields, oldKeys: seq<Key>, dels: set<Key>)
    requires Loaded(Catalog(kv, t), defs) && EntriesFor(t, defs, id, f).Ok?
    requires dels == set k | k in oldKeys
    ensures DocDelta(kv, t, id, f, dels) ==
      Delta(PutsMap([(DocumentKey(t, id), FieldsBlob(f))] + EntryPuts(EntriesFor(t, defs, id, f).value)), dels)
  {
    var first := [(DocumentKey(t, id), FieldsBlob(f))];
    var keys := EntriesFor(t, defs, id, f).value;
    BuiltAreDerived(t, defs, Catalog(kv, t), id, f);
    PutsMapConcat(first, EntryPuts(keys));
    ApplyOne(map[], first[0]);
    EntryPutsMap(keys);
  }

  ghost predicate IsOps(kv: Kv, s: Statement, ops: Ops) {
    && StmtDelta(kv, s) == Delta(PutsMap(ops.puts), set k | k in ops.dels)
    && ops.created == CreatedBy(kv, s) && ops.updated == UpdatedBy(kv, s)
  }

  /** Operations of one CREATE of a batch, computed against the unchanged store. */
  method CreateOps(storage: Storage, s: Statement, defs: seq<IndexDefinition>) returns (r: Result<Ops>)
    requires s.Create? && ValidStatement(s) && Covered(storage.kv, s.t) && Loaded(Catalog(storage.kv, s.t), defs)
    ensures r.Ok? <==> StmtOk(storage.kv, s)
    ensures r.Ok? ==> IsOps(storage.kv, s, r.value)
  {
    var coll := new Collection(storage, s.t, defs);
    var id := TargetId(s);
    ghost var kv := storage.kv;
    if s.conflict.Some? {
      if s.id.None? {
        return Err(Query);
      }
      var u := UpsertToOps(coll, id, s.fields, s.conflict.value);
      r := if u.Err? then Err(u.error) else Ok(Ops(u.value.1, u.value.2, if u.value.0 then 1 else 0, if u.value.0 then 0 else 1));
    } else {
      var puts := CreateToOps(coll, id, s.fields);
      r := if puts.Ok? then Ok(Ops(puts.value, [], 1, 0)) else Err(puts.error);
    }
    if s.conflict.Some? && id in Docs(kv, s.t) {
      ghost var was := Docs(kv, s.t)[id];
      IndexableIffEntries(s.t, Catalog(kv, s.t), defs, id, was + s.conflict.value);
      if r.Ok? {
        BuiltAreDerived(s.t, defs, Catalog(kv, s.t), id, was);
        OpsAreDelta(kv, s.t, defs, id, was + s.conflict.value, r.value.dels, set k | k in r.value.dels);
      }
    } else {
      IndexableIffEntries(s.t, Catalog(kv, s.t), defs, id, s.fields);
      if r.Ok? {
        OpsAreDelta(kv, s.t, defs, id, s.fields, [], {});
      }
    }
  }

  lemma RelateIsDelta(kv: Kv, s: Statement)
    requires s.Relate?
    ensures StmtDelta(kv, s) == Delta(PutsMap(E.RelatePuts(s.t, s.e, s.props)), {})
  {
    E.ApplyTwo(map[], E.OutKey(s.t, s.e), E.PropsBlobOf(s.props), E.InKey(s.t, s.e), Empty);
  }

  /** The operations of all statements together. */
  ghost predicate AreOps(kv: Kv, stmts: seq<Statement>, ops: Ops) {
    && Merged(kv, stmts) == Delta(PutsMap(ops.puts), set k | k in ops.dels)
    && ops.created == CreatedCount(kv, stmts) && ops.updated == UpdatedCount(kv, stmts)
  }

  function Joined(a: Ops, b: Ops): Ops {
    Ops(a.puts + b.puts, a.dels + b.dels, a.created + b.created, a.updated + b.updated)
  }

  lemma MergedNext(kv: Kv, stmts: seq<Statement>, i: nat, ops: Ops, more: Ops)
    requires i < |stmts| && AreOps(kv, stmts[..i], ops) && IsOps(kv, stmts[i], more)
    ensures AreOps(kv, stmts[..i + 1], Joined(ops, more))
  {
    assert stmts[..i + 1][..i] == stmts[..i] && stmts[..i + 1][i] == stmts[i];
    PutsMapConcat(ops.puts, more.puts);
    assert (set k | k in ops.dels + more.dels) == (set k | k in ops.dels) + (set k | k in more.dels);
  }

  /** The conditions under which a batch and a sequence of statements are interchangeable. */
  ghost predicate Independent(kv: Kv, stmts: seq<Statement>) {
    && DistinctTargets(stmts) && PlainCreatesAbsent(kv, stmts)
    && forall s :: s in stmts && s.Create? ==> NoUnique(kv, s.t)
  }

  ghost predicate NoUnique(kv: Kv, t: Table) {
    forall name :: name in Catalog(kv, t) ==> !Catalog(kv, t)[name].unique
  }

  /** Operations of one statement of a batch, loading its table's catalog into the cache when missing. */
  method StatementOps(storage: Storage, s: Statement, idxCache: map<Table, seq<IndexDefinition>>)
    returns (r: Result<Ops>, cache: map<Table, seq<IndexDefinition>>)
    requires AllCovered(storage.kv) && ValidStatement(s)
    requires forall t :: t in idxCache ==> Loaded(Catalog(storage.kv, t), idxCache[t])
    ensures forall t :: t in cache ==> Loaded(Catalog(storage.kv, t), cache[t])
    ensures r.Ok? <==> StmtOk(storage.kv, s)
    ensures r.Ok? ==> IsOps(storage.kv, s, r.value)
  {
    cache := idxCache;
    if s.Create? {
      assert Covered(storage.kv, s.t);
      if s.t !in cache {
        var defs := LoadIndexDefinitions(storage, s.t);
        cache := cache[s.t := defs.value];
      }
      r := CreateOps(storage, s, cache[s.t]);
    } else if s.Relate? {
      RelateIsDelta(storage.kv, s);
      r := Ok(Ops(E.RelatePuts(s.t, s.e, s.props), [], 0, 0));
    } else {
      r := Err(Query);
    }
  }

  /** All operations of a batch, computed against the unchanged store; each catalog is loaded at most once. */
  method CollectBatch(storage: Storage, stmts: seq<Statement>) returns (r: Result<Ops>)
    requires AllCovered(storage.kv) && AllValid(stmts)
    ensures r.Ok? <==> AllOk(storage.kv, stmts)
    ensures r.Ok? ==> AreOps(storage.kv, stmts, r.value)
  {
    ghost var kv := storage.kv;
    var all := Ops([], [], 0, 0);
    var idxCache: map<Table, seq<IndexDefinition>> := map[];
    for i := 0 to |stmts|
      invariant forall j :: 0 <= j < i ==> StmtOk(kv, stmts[j])
      invariant forall t :: t in idxCache ==> Loaded(Catalog(kv, t), idxCache[t])
      invariant AreOps(kv, stmts[..i], all)
    {
      assert stmts[i] in stmts;
      var ops;
      ops, idxCache := StatementOps(storage, stmts[i], idxCache);
      if ops.Err? {
        return Err(ops.error);
      }
      MergedNext(kv, stmts, i, all, ops.value);
      all := Joined(all, ops.value);
    }
    assert stmts[..|stmts|] == stmts;
    r := Ok(all);
  }

  /**
   BEGIN BATCH: one atomic write of all operations. It is refused, with nothing
   written, exactly when a statement is; for independent statements the store
   ends as if they had run one by one. No derived entry is ever missing after
   it, and from a consistent store exactly a batch that leaves no stale entry
   leaves a consistent one.
   */
  method ExecuteBatch(storage: Storage, stmts: seq<Statement>) returns (r: Result<Reply>)
    requires AllCovered(storage.kv) && AllValid(stmts)
    modifies storage
    ensures r.Ok? <==> AllOk(old(storage.kv), stmts)
    ensures r.Ok? ==> r.value == Batched(|stmts|, CreatedCount(old(storage.kv), stmts), UpdatedCount(old(storage.kv), stmts))
    ensures storage.kv == if r.Ok? then AfterBatch(old(storage.kv), stmts) else old(storage.kv)
    ensures AllCovered(storage.kv)
    ensures r.Ok? && old(AllConsistent(storage.kv)) ==> (AllConsistent(storage.kv) <==> NothingStale(old(storage.kv), stmts))
    ensures r.Ok? && old(Independent(storage.kv, stmts)) ==> storage.kv == OneByOne(old(storage.kv), stmts)
  {
    ghost var kv := storage.kv;
    var ops := CollectBatch(storage, stmts);
    if ops.Err? {
      return Err(ops.error);
    }
    storage.WriteBatch(ops.value.puts, ops.value.dels);
    ApplyBatchIsApply(kv, ops.value.puts, ops.value.dels);
    BatchKeepsCovered(kv, stmts);
    if AllConsistent(kv) {
      BatchConsistentIff(kv, stmts);
    }
    if Independent(kv, stmts) {
      BatchEqualsSequence(kv, stmts);
    }
    r := Ok(Batched(|stmts|, ops.value.created, ops.value.updated));
  }

  /** What a statement answers. */
  datatype Reply =
    | Done
    | Created(id: str)
    | Updated(id: str)
    | Deleted(existed: bool)
    | DeletedMany(count: nat)
    | Matched(count: nat)
    | Batched(count: nat, created: nat, updated: nat)
    | Rows(rows: seq<Document>)
    | Counted(count: nat)

  // -------------------------------------------------------------------------
  // Single statements
  // -------------------------------------------------------------------------

  /** The statement succeeds on its own: a batch does not look for taken ids and claimed tuples. */
  ghost predicate Accepted(kv: Kv, s: Statement) {
    && StmtOk(kv, s)
    && (s.Create? && TargetId(s) in Docs(kv, s.t) ==> s.conflict.Some?)
    && (s.Create? && TargetId(s) !in Docs(kv, s.t) ==> TupleUnclaimed(HoldingsOf(kv, s.t), Catalog(kv, s.t), TargetId(s), s.fields))
  }

  /** The documents of its table after an accepted CREATE. */
  ghost function DocsAfterCreate(kv: Kv, s: Statement): map<str, Fields>
    requires s.Create?
  {
    Docs(kv, s.t)[TargetId(s) := Stores(kv, s)]
  }

  /** CREATE, with or without ON CONFLICT UPDATE: it succeeds exactly when it is accepted; a refused one changes nothing. */
  method ExecCreate(storage: Storage, s: Statement) returns (r: Result<Reply>)
    requires s.Create? && ValidStatement(s) && AllCovered(storage.kv)
    modifies storage
    ensures r.Ok? <==> old(Accepted(storage.kv, s))
    ensures r.Ok? ==> r.value == if old(Replaces(storage.kv, s)) then Updated(TargetId(s)) else Created(TargetId(s))
    ensures storage.kv == if r.Ok? then Apply(old(storage.kv), StmtDelta(old(storage.kv), s)) else old(storage.kv)
    ensures KeepsIndexes(old(storage.kv), storage.kv) && OnlyDocs(old(storage.kv), storage.kv, s.t) && LeftoversStay(old(storage.kv), storage.kv, s.t)
    ensures Docs(storage.kv, s.t) == if r.Ok? then DocsAfterCreate(old(storage.kv), s) else old(Docs(storage.kv, s.t))
  {
    ghost var kv := storage.kv;
    assert Covered(kv, s.t);
    var coll := Load(storage, s.t);
    if s.conflict.Some? {
      r := CreateOrMerge(coll, s);
    } else {
      r := CreatePlain(coll, s);
    }
    OtherTables(kv, storage.kv, s.t, TargetId(s));
    DocumentWriteKeepsIndexes(kv, storage.kv, s.t, TargetId(s));
    DocumentWriteKeepsEdges(kv, storage.kv, s.t, TargetId(s));
  }

  method CreatePlain(coll: Collection, s: Statement) returns (r: Result<Reply>)
    requires s.Create? && s.conflict.None? && ValidStatement(s) && coll.Ready() && coll.t == s.t
    modifies coll.storage
    ensures r.Ok? <==> Accepted(old(coll.storage.kv), s)
    ensures r.Ok? ==> !Replaces(old(coll.storage.kv), s) && r.value == Created(TargetId(s))
    ensures coll.storage.kv == if r.Ok? then Apply(old(coll.storage.kv), StmtDelta(old(coll.storage.kv), s)) else old(coll.storage.kv)
    ensures coll.Ready() && (old(coll.Exact()) ==> coll.Exact()) && ChangedOnly(old(coll.storage.kv), coll.storage.kv, s.t, TargetId(s)) && LeftoversStay(old(coll.storage.kv), coll.storage.kv, s.t)
    ensures coll.Defs() == old(coll.Defs())
    ensures coll.Stored() == if r.Ok? then DocsAfterCreate(old(coll.storage.kv), s) else old(coll.Stored())
  {
    ghost var kv := coll.storage.kv;
    var id := TargetId(s);
    PlainAccepted(kv, s, coll.indexes);
    var c := coll.CreateWithId(id, s.fields);
    if c.Err? {
      return Err(c.error);
    }
    PlainIsDelta(kv, s, coll.indexes);
    r := Ok(Created(id));
  }

  lemma PlainAccepted(kv: Kv, s: Statement, defs: seq<IndexDefinition>)
    requires s.Create? && s.conflict.None? && Loaded(Catalog(kv, s.t), defs)
    ensures Accepted(kv, s) <==> TargetId(s) !in Docs(kv, s.t) && EntriesFor(s.t, defs, TargetId(s), s.fields).Ok? && NoneClaimed(HoldingsOf(kv, s.t), defs, TargetId(s), s.fields)
  {
    IndexableIffEntries(s.t, Catalog(kv, s.t), defs, TargetId(s), s.fields);
    UnclaimedLoaded(HoldingsOf(kv, s.t), Catalog(kv, s.t), defs, TargetId(s), s.fields);
  }

  lemma PlainIsDelta(kv: Kv, s: Statement, defs: seq<IndexDefinition>)
    requires s.Create? && s.conflict.None? && Loaded(Catalog(kv, s.t), defs) && EntriesFor(s.t, defs, TargetId(s), s.fields).Ok?
    ensures WriteDoc(kv, s.t, TargetId(s), s.fields, EntriesFor(s.t, defs, TargetId(s), s.fields).value, []) == Apply(kv, StmtDelta(kv, s))
  {
    BuiltAreDerived(s.t, defs, Catalog(kv, s.t), TargetId(s), s.fields);
    WriteDocIsApply(kv, s.t, TargetId(s), s.fields, EntriesFor(s.t, defs, TargetId(s), s.fields).value, []);
    assert (set k: Key | k in []) == {};
  }

  method CreateOrMerge(coll: Collection, s: Statement) returns (r: Result<Reply>)
    requires s.Create? && s.conflict.Some? && ValidStatement(s) && coll.Ready() && coll.t == s.t
    modifies coll.storage
    ensures r.Ok? <==> Accepted(old(coll.storage.kv), s)
    ensures r.Ok? ==> r.value == if Replaces(old(coll.storage.kv), s) then Updated(TargetId(s)) else Created(TargetId(s))
    ensures coll.storage.kv == if r.Ok? then Apply(old(coll.storage.kv), StmtDelta(old(coll.storage.kv), s)) else old(coll.storage.kv)
    ensures coll.Ready() && (old(coll.Exact()) ==> coll.Exact()) && ChangedOnly(old(coll.storage.kv), coll.storage.kv, s.t, TargetId(s)) && LeftoversStay(old(coll.storage.kv), coll.storage.kv, s.t)
    ensures coll.Defs() == old(coll.Defs())
    ensures coll.Stored() == if r.Ok? then DocsAfterCreate(old(coll.storage.kv), s) else old(coll.Stored())
  {
    ghost var kv := coll.storage.kv;
    if s.id.None? {
      return Err(Query);
    }
    var id := TargetId(s);
    var u := coll.Upsert(id, s.fields, s.conflict.value);
    UpsertIsDelta(kv, s, coll.indexes, coll.storage.kv, u.Ok?);
    r := if u.Err? then Err(u.error) else Ok(if u.value then Created(id) else Updated(id));
  }

  lemma UpsertIsDelta(kv: Kv, s: Statement, defs: seq<IndexDefinition>, kv': Kv, ok: bool)
    requires s.Create? && ValidStatement(s) && s.conflict.Some? && s.id.Some? && Covered(kv, s.t) && Loaded(Catalog(kv, s.t), defs)
    requires var id, docs := TargetId(s), Docs(kv, s.t);
      if id in docs then
        && (ok <==> EntriesFor(s.t, defs, id, docs[id] + s.conflict.value).Ok?)
        && (ok ==> EntriesFor(s.t, defs, id, docs[id]).Ok? && kv' == WriteDoc(kv, s.t, id, docs[id] + s.conflict.value,
             EntriesFor(s.t, defs, id, docs[id] + s.conflict.value).value, EntriesFor(s.t, defs, id, docs[id]).value))
      else
        && (ok <==> EntriesFor(s.t, defs, id, s.fields).Ok? && NoneClaimed(HoldingsOf(kv, s.t), defs, id, s.fields))
        && (ok ==> kv' == WriteDoc(kv, s.t, id, s.fields, EntriesFor(s.t, defs, id, s.fields).value, []))
    ensures ok <==> Accepted(kv, s)
    ensures ok ==> kv' == Apply(kv, StmtDelta(kv, s))
  {
    var id, docs, catalog := TargetId(s), Docs(kv, s.t), Catalog(kv, s.t);
    if id in docs {
      var f := docs[id] + s.conflict.value;
      IndexableIffEntries(s.t, catalog, defs, id, f);
      if ok {
        BuiltAreDerived(s.t, defs, catalog, id, f);
        BuiltAreDerived(s.t, defs, catalog, id, docs[id]);
        WriteDocIsApply(kv, s.t, id, f, EntriesFor(s.t, defs, id, f).value, EntriesFor(s.t, defs, id, docs[id]).value);
      }
    } else {
      IndexableIffEntries(s.t, catalog, defs, id, s.fields);
      UnclaimedLoaded(HoldingsOf(kv, s.t), catalog, defs, id, s.fields);
      if ok {
        BuiltAreDerived(s.t, defs, catalog, id, s.fields);
        WriteDocIsApply(kv, s.t, id, s.fields, EntriesFor(s.t, defs, id, s.fields).value, []);
        assert (set k: Key | k in []) == {};
      }
    }
  }

  lemma RelateKeepsOtherEdges(kv: Kv, s: Statement, t: Table)
    requires s.Relate? && ValidStatement(s) && t.Valid() && t != s.t
    ensures EdgesSame(kv, Apply(kv, StmtDelta(kv, s)), t)
  {
    E.DirKeys(s.t, s.e);
    forall k | TablePrefix(t, GRAPH_EDGE) <= k ensures SameAt(kv, Apply(kv, StmtDelta(kv, s)), k) {
      if TablePrefix(s.t, GRAPH_EDGE) <= k { RegionsDisjoint(s.t, GRAPH_EDGE, t, GRAPH_EDGE, k); }
    }
  }

  method ExecRelate(storage: Storage, s: Statement)
    requires s.Relate? && ValidStatement(s) && AllCovered(storage.kv)
    modifies storage
    ensures storage.kv == Apply(old(storage.kv), StmtDelta(old(storage.kv), s))
    ensures KeepsIndexes(old(storage.kv), storage.kv)
    ensures forall t: Table :: t.Valid() ==> SameTable(old(storage.kv), storage.kv, t)
    ensures forall t: Table :: t.Valid() && t != s.t ==> EdgesSame(old(storage.kv), storage.kv, t)
  {
    ghost var kv := storage.kv;
    storage.PutBatch(E.RelatePuts(s.t, s.e, s.props));
    ApplyPutsIsMerge(kv, E.RelatePuts(s.t, s.e, s.props));
    RelateIsDelta(kv, s);
    assert kv - {} == kv;
    RelateStep(kv, s.t, s.e, s.props);
    forall t: Table | t.Valid() && t != s.t ensures EdgesSame(kv, storage.kv, t) { RelateKeepsOtherEdges(kv, s, t); }
  }

  /** The reference: independent statements, run one by one, all succeed and reach the store of `OneByOne`. */
  method RunOneByOne(storage: Storage, stmts: seq<Statement>) returns (r: Result<()>)
    requires AllCovered(storage.kv) && Independent(storage.kv, stmts)
    requires forall s :: s in stmts ==> ValidStatement(s) && StmtOk(storage.kv, s)
    modifies storage
    ensures r.Ok? && storage.kv == OneByOne(old(storage.kv), stmts)
  {
    ghost var kv := storage.kv;
    for i := 0 to |stmts|
      invariant storage.kv == OneByOne(kv, stmts[..i])
    {
      var s := stmts[i];
      assert s in stmts;
      EveryStatementAccepted(kv, stmts, i);
      CatalogStays(kv, stmts, i);
      if s.Create? {
        var created := ExecCreate(storage, s);
        if created.Err? {
          return Err(Query);
        }
      } else {
        ExecRelate(storage, s);
      }
    }
    assert stmts[..|stmts|] == stmts;
    r := Ok(());
  }

  lemma CatalogStays(kv: Kv, stmts: seq<Statement>, i: nat)
    requires AllCovered(kv) && Independent(kv, stmts) && i < |stmts|
    requires forall s :: s in stmts ==> ValidStatement(s) && StmtOk(kv, s)
    ensures stmts[i].Create? ==> NoUnique(OneByOne(kv, stmts[..i]), stmts[i].t)
  {
    var init := stmts[..i];
    assert forall s :: s in init ==> s in stmts;
    assert stmts[i] in stmts;
    BatchEqualsSequence(kv, init);
    if stmts[i].Create? { assert TableUntouched(kv, OneByOne(kv, init), init, stmts[i].t); }
  }

  // -------------------------------------------------------------------------
  // Unique tuples over the whole store
  // -------------------------------------------------------------------------

  ghost predicate AllUnique(kv: Kv) {
    forall t: Table :: t.Valid() ==> UniqueHolds(Docs(kv, t), Catalog(kv, t))
  }

  /** A write to one table leaves the unique tuples of the others alone. */
  lemma UniqueElsewhere(kv: Kv, kv': Kv, t: Table, id: str)
    requires t.Valid() && ChangedOnly(kv, kv', t, id)
    requires UniqueHolds(Docs(kv, t), Catalog(kv, t)) ==> UniqueHolds(Docs(kv', t), Catalog(kv', t))
    ensures AllUnique(kv) ==> AllUnique(kv')
  {
    if AllUnique(kv) {
      forall t': Table | t'.Valid() ensures UniqueHolds(Docs(kv', t'), Catalog(kv', t')) {
        if t' != t {
          OtherTableFrame(kv, kv', t, id, t');
          TableFrame(kv, kv', t');
        }
      }
    }
  }

  // -------------------------------------------------------------------------
  // UPDATE and DELETE
  // -------------------------------------------------------------------------

  predicate Fits(t: Table, catalog: map<str, IndexDefinition>, id: str, f: Fields) {
    AllEncodable(t, map[id := f], catalog)
  }

  /** Documents and index entries of `t` apart, nothing has changed. */
  ghost predicate OnlyDocs(kv: Kv, kv': Kv, t: Table) {
    Catalog(kv', t) == Catalog(kv, t) && Q.OthersSame(kv, kv', t) && GraphSame(kv, kv')
  }

  lemma OnlyDocsTransitive(kv: Kv, kv': Kv, kv'': Kv, t: Table)
    requires OnlyDocs(kv, kv', t) && OnlyDocs(kv', kv'', t)
    ensures OnlyDocs(kv, kv'', t)
  {
    GraphSameTransitive(kv, kv', kv'');
    forall t': Table | t'.Valid() && t' != t ensures SameTable(kv, kv'', t') {
      SameTableTransitive(kv, kv', kv'', t');
    }
  }

  /** `merge` of one stored document, seen from the whole store. */
  method MergeRow(coll: Collection, id: str, fields: Fields) returns (r: Result<()>)
    requires coll.Ready() && AllCovered(coll.storage.kv) && id in coll.Stored()
    modifies coll.storage
    ensures coll.Ready() && KeepsIndexes(old(coll.storage.kv), coll.storage.kv) && coll.Defs() == old(coll.Defs())
    ensures OnlyDocs(old(coll.storage.kv), coll.storage.kv, coll.t) && LeftoversStay(old(coll.storage.kv), coll.storage.kv, coll.t)
    ensures r.Ok? <==> Fits(coll.t, old(coll.Defs()), id, old(coll.Stored())[id] + fields)
    ensures coll.Stored() == if r.Ok? then old(coll.Stored())[id := old(coll.Stored())[id] + fields] else old(coll.Stored())
  {
    ghost var kv := coll.storage.kv;
    DocIdUtf8(kv, coll.t, id);
    IndexableIffEntries(coll.t, Catalog(kv, coll.t), coll.indexes, id, coll.Stored()[id] + fields);
    r := coll.Merge(id, fields);
    OtherTables(kv, coll.storage.kv, coll.t, id);
    DocumentWriteKeepsIndexes(kv, coll.storage.kv, coll.t, id);
    DocumentWriteKeepsEdges(kv, coll.storage.kv, coll.t, id);
  }

  /** `UPDATE table:id`: merges into the record if it exists, and does nothing otherwise. */
  method ExecUpdateRecord(storage: Storage, t: Table, id: str, fields: Fields) returns (r: Result<nat>)
    requires t.Valid() && AllCovered(storage.kv)
    modifies storage
    ensures KeepsIndexes(old(storage.kv), storage.kv) && OnlyDocs(old(storage.kv), storage.kv, t) && LeftoversStay(old(storage.kv), storage.kv, t)
    ensures r.Ok? <==> old(id in Docs(storage.kv, t) ==> Fits(t, Catalog(storage.kv, t), id, Docs(storage.kv, t)[id] + fields))
    ensures r.Ok? ==> r.value == (if id in old(Docs(storage.kv, t)) then 1 else 0)
    ensures Docs(storage.kv, t) == if r.Ok? && r.value == 1 then old(Docs(storage.kv, t)[id := Docs(storage.kv, t)[id] + fields]) else old(Docs(storage.kv, t))
  {
    assert Covered(storage.kv, t);
    var coll := Load(storage, t);
    var before := coll.Get(id);
    if before.None? {
      NothingChanged(storage.kv, t);
      NothingMoves(storage.kv, t);
      return Ok(0);
    }
    var m := MergeRow(coll, id, fields);
    r := if m.Ok? then Ok(1) else Err(m.error);
  }

  lemma NothingChanged(kv: Kv, t: Table)
    ensures OnlyDocs(kv, kv, t)
  {
    forall t' ensures SameTable(kv, kv, t') && EdgesSame(kv, kv, t') {
      forall k ensures SameAt(kv, kv, k) {}
    }
  }

  method ExecDelete(storage: Storage, t: Table, id: str) returns (existed: bool)
    requires t.Valid() && AllCovered(storage.kv)
    modifies storage
    ensures KeepsIndexes(old(storage.kv), storage.kv) && (old(AllUnique(storage.kv)) ==> AllUnique(storage.kv))
    ensures OnlyDocs(old(storage.kv), storage.kv, t) && LeftoversStay(old(storage.kv), storage.kv, t)
    ensures existed == (id in old(Docs(storage.kv, t)))
    ensures Docs(storage.kv, t) == old(Docs(storage.kv, t)) - {id}
  {
    ghost var kv := storage.kv;
    assert Covered(kv, t);
    var coll := Load(storage, t);
    var r := coll.Delete(id);
    existed := r.value;
    OtherTables(kv, storage.kv, t, id);
    DocumentWriteKeepsIndexes(kv, storage.kv, t, id);
    DocumentWriteKeepsEdges(kv, storage.kv, t, id);
    UniqueElsewhere(kv, storage.kv, t, id);
  }

  /** Merging the fields into this document gives one that can be indexed. */
  predicate Mergeable(t: Table, catalog: map<str, IndexDefinition>, fields: Fields, id: str, f: Fields) {
    Fits(t, catalog, id, f + fields)
  }

  /** Documents an UPDATE gets to: those with no selected unmergeable one at or before them. */
  ghost function Reached(t: Table, docs: map<str, Fields>, catalog: map<str, IndexDefinition>, filter: Option<P.WhereClause>, fields: Fields): set<str> {
    set id | id in docs && forall other :: other in Q.Matching(docs, filter) && Le(other, id) ==> Mergeable(t, catalog, fields, other, docs[other])
  }

  /** UPDATE of the rows a filter selects: each is merged in id order, the first one that cannot be indexed stops. */
  method ExecUpdateWhere(storage: Storage, t: Table, filter: Option<P.WhereClause>, fields: Fields) returns (r: Result<nat>)
    requires t.Valid() && AllCovered(storage.kv)
    modifies storage
    ensures KeepsIndexes(old(storage.kv), storage.kv) && OnlyDocs(old(storage.kv), storage.kv, t) && LeftoversStay(old(storage.kv), storage.kv, t)
    ensures Docs(storage.kv, t) == old(var docs := Docs(storage.kv, t); MergedRows(docs, filter, fields, Reached(t, docs, Catalog(storage.kv, t), filter, fields)))
    ensures r.Ok? <==> old(var docs := Docs(storage.kv, t); forall id :: id in Q.Matching(docs, filter) ==> Mergeable(t, Catalog(storage.kv, t), fields, id, docs[id]))
    ensures r.Ok? ==> r.value == |Q.Matching(old(Docs(storage.kv, t)), filter)|
  {
    assert Covered(storage.kv, t);
    var coll := Load(storage, t);
    ghost var docs, catalog := coll.Stored(), coll.Defs();
    var scan := coll.ScanAll();
    ScanIds(coll.Stored(), scan.value);
    ghost var n;
    r, n := MergeRows(coll, filter, fields, scan.value);
    MergedAreReached(t, docs, catalog, filter, fields, scan.value, n);
  }

  /** The rows of a scan: every document, in id order. */
  ghost predicate Rows(docs: map<str, Fields>, rows: seq<Document>) {
    && (forall d :: d in rows <==> d.id in docs && docs[d.id] == d.fields)
    && (forall i, j :: 0 <= i < j < |rows| ==> Lt(rows[i].id, rows[j].id))
  }

  /** `n` is the place of the first row that cannot be passed over, the number of rows when there is none. */
  ghost predicate Stops(t: Table, catalog: map<str, IndexDefinition>, filter: Option<P.WhereClause>, fields: Fields, rows: seq<Document>, n: nat) {
    && n <= |rows|
    && (forall i :: 0 <= i < n ==> PassesOver(t, catalog, filter, fields, rows[i]))
    && (n < |rows| ==> !PassesOver(t, catalog, filter, fields, rows[n]))
  }

  lemma RowOf(docs: map<str, Fields>, rows: seq<Document>, id: str) returns (i: nat)
    requires Rows(docs, rows) && id in docs
    ensures i < |rows| && rows[i] == Document(id, docs[id])
  {
    assert Document(id, docs[id]) in rows;
    i :| i < |rows| && rows[i] == Document(id, docs[id]);
  }

  lemma ReachedRow(t: Table, docs: map<str, Fields>, catalog: map<str, IndexDefinition>, filter: Option<P.WhereClause>, fields: Fields, rows: seq<Document>, n: nat, i: nat)
    requires Rows(docs, rows) && Stops(t, catalog, filter, fields, rows, n) && i < |rows|
    ensures rows[i].id in Reached(t, docs, catalog, filter, fields) <==> i < n
  {
    assert rows[i] in rows;
    if i < n {
      forall other | other in Q.Matching(docs, filter) && Le(other, rows[i].id) ensures Mergeable(t, catalog, fields, other, docs[other]) {
        var j := RowOf(docs, rows, other);
        if j > i { LtTrichotomy(rows[i].id, other); }
        assert PassesOver(t, catalog, filter, fields, rows[j]);
      }
    } else {
      assert rows[n] in rows && (n == i || Lt(rows[n].id, rows[i].id));
    }
  }

  /** The rows before the first that cannot be merged are the reached ones. */
  lemma MergedAreReached(t: Table, docs: map<str, Fields>, catalog: map<str, IndexDefinition>, filter: Option<P.WhereClause>, fields: Fields, rows: seq<Document>, n: nat)
    requires Rows(docs, rows) && Stops(t, catalog, filter, fields, rows, n)
    ensures Q.IdsOf(rows[..n]) == Reached(t, docs, catalog, filter, fields)
    ensures n == |rows| <==> forall id :: id in Q.Matching(docs, filter) ==> Mergeable(t, catalog, fields, id, docs[id])
  {
    forall id ensures id in Q.IdsOf(rows[..n]) <==> id in Reached(t, docs, catalog, filter, fields) {
      if id in Q.IdsOf(rows[..n]) {
        var i :| 0 <= i < n && rows[i].id == id;
        ReachedRow(t, docs, catalog, filter, fields, rows, n, i);
      }
      if id in Reached(t, docs, catalog, filter, fields) {
        var i := RowOf(docs, rows, id);
        ReachedRow(t, docs, catalog, filter, fields, rows, n, i);
        assert rows[i] in rows[..n];
      }
    }
    AllMergeable(t, docs, catalog, filter, fields, rows, n);
  }

  lemma AllMergeable(t: Table, docs: map<str, Fields>, catalog: map<str, IndexDefinition>, filter: Option<P.WhereClause>, fields: Fields, rows: seq<Document>, n: nat)
    requires Rows(docs, rows) && Stops(t, catalog, filter, fields, rows, n)
    ensures n == |rows| <==> forall id :: id in Q.Matching(docs, filter) ==> Mergeable(t, catalog, fields, id, docs[id])
  {
    if n < |rows| {
      assert rows[n] in rows;
    } else {
      forall id | id in Q.Matching(docs, filter) ensures Mergeable(t, catalog, fields, id, docs[id]) {
        var i := RowOf(docs, rows, id);
        assert PassesOver(t, catalog, filter, fields, rows[i]);
      }
    }
  }

  /** The row is not selected, or can be merged. */
  predicate PassesOver(t: Table, catalog: map<str, IndexDefinition>, filter: Option<P.WhereClause>, fields: Fields, d: Document) {
    Q.Keeps(filter, d.fields) ==> Mergeable(t, catalog, fields, d.id, d.fields)
  }

  /** The first `n` rows have been passed over or merged, starting from the store `kv`. */
  ghost predicate Progress(kv: Kv, coll: Collection, filter: Option<P.WhereClause>, fields: Fields, docs: seq<Document>, n: nat)
    reads coll.storage
  {
    coll.Ready() && MergedTo(kv, coll.storage.kv, coll.t, filter, fields, docs, n)
  }

  ghost predicate MergedTo(kv: Kv, kv': Kv, t: Table, filter: Option<P.WhereClause>, fields: Fields, docs: seq<Document>, n: nat) {
    && n <= |docs|
    && KeepsIndexes(kv, kv') && OnlyDocs(kv, kv', t) && LeftoversStay(kv, kv', t)
    && Docs(kv', t) == MergedRows(Docs(kv, t), filter, fields, Q.IdsOf(docs[..n]))
    && AllPass(t, Catalog(kv, t), filter, fields, docs, n)
  }

  ghost predicate AllPass(t: Table, catalog: map<str, IndexDefinition>, filter: Option<P.WhereClause>, fields: Fields, docs: seq<Document>, n: nat)
    requires n <= |docs|
  {
    forall j :: 0 <= j < n ==> PassesOver(t, catalog, filter, fields, docs[j])
  }

  lemma NextPasses(t: Table, catalog: map<str, IndexDefinition>, filter: Option<P.WhereClause>, fields: Fields, docs: seq<Document>, i: nat)
    requires i < |docs| && AllPass(t, catalog, filter, fields, docs, i) && PassesOver(t, catalog, filter, fields, docs[i])
    ensures AllPass(t, catalog, filter, fields, docs, i + 1)
  {
  }

  /** The next row is still as scanned, and merging it, if selected, makes the next step. */
  lemma NextRow(kv: Kv, mid: Kv, t: Table, filter: Option<P.WhereClause>, fields: Fields, docs: seq<Document>, i: nat)
    requires i < |docs| && ScannedRows(kv, t, docs) && MergedTo(kv, mid, t, filter, fields, docs, i)
    ensures var d := docs[i];
      && d.id in Docs(mid, t) && Docs(mid, t)[d.id] == d.fields
      && MergedRows(Docs(kv, t), filter, fields, Q.IdsOf(docs[..i + 1]))
         == if Q.Keeps(filter, d.fields) then Docs(mid, t)[d.id := d.fields + fields] else Docs(mid, t)
  {
    assert docs[i] in docs;
    NextIds(docs, i);
    NextMerge(Docs(kv, t), filter, fields, Q.IdsOf(docs[..i]), docs[i].id);
  }

  lemma MergedOn(kv: Kv, mid: Kv, kv': Kv, t: Table, filter: Option<P.WhereClause>, fields: Fields, docs: seq<Document>, i: nat, n: nat)
    requires i < |docs| && MergedTo(kv, mid, t, filter, fields, docs, i) && i <= n <= i + 1
    requires ScannedRows(kv, t, docs) && KeepsIndexes(mid, kv') && OnlyDocs(mid, kv', t) && LeftoversStay(mid, kv', t)
    requires Docs(kv', t) == MergedRows(Docs(kv, t), filter, fields, Q.IdsOf(docs[..n]))
    requires n > i ==> PassesOver(t, Catalog(kv, t), filter, fields, docs[i])
    ensures MergedTo(kv, kv', t, filter, fields, docs, n)
  {
    KeepsIndexesTransitive(kv, mid, kv');
    OnlyDocsTransitive(kv, mid, kv', t);
    MergedApart(Docs(kv, t), filter, fields, docs, i, n);
    LeftoversStayOn(kv, mid, kv', t);
    if n > i { NextPasses(t, Catalog(kv, t), filter, fields, docs, i); }
  }

  /** One step of the merge changes no row that an earlier one has changed. */
  lemma MergedApart(stored: map<str, Fields>, filter: Option<P.WhereClause>, fields: Fields, docs: seq<Document>, i: nat, n: nat)
    requires i < |docs| && i <= n <= i + 1 && forall a, b :: 0 <= a < b < |docs| ==> Lt(docs[a].id, docs[b].id)
    ensures var before, after := MergedRows(stored, filter, fields, Q.IdsOf(docs[..i])), MergedRows(stored, filter, fields, Q.IdsOf(docs[..n]));
      forall id :: id in stored ==> after[id] == before[id] || before[id] == stored[id]
  {
    NextIds(docs, i);
  }

  lemma KeepsIndexesTransitive(kv: Kv, kv': Kv, kv'': Kv)
    requires KeepsIndexes(kv, kv') && KeepsIndexes(kv', kv'')
    ensures KeepsIndexes(kv, kv'')
  {
  }

  /** Rows as scanned from the store `kv`: stored documents with different ids. */
  ghost predicate ScannedRows(kv: Kv, t: Table, docs: seq<Document>) {
    && (forall d :: d in docs ==> d.id in Docs(kv, t) && Docs(kv, t)[d.id] == d.fields)
    && forall i, j :: 0 <= i < j < |docs| ==> Lt(docs[i].id, docs[j].id)
  }

  method MergeRows(coll: Collection, filter: Option<P.WhereClause>, fields: Fields, docs: seq<Document>) returns (r: Result<nat>, ghost n: nat)
    requires coll.Ready() && AllCovered(coll.storage.kv) && ScannedRows(coll.storage.kv, coll.t, docs)
    modifies coll.storage
    ensures Progress(old(coll.storage.kv), coll, filter, fields, docs, n)
    ensures n < |docs| ==> !PassesOver(coll.t, old(coll.Defs()), filter, fields, docs[n])
    ensures r.Ok? <==> n == |docs|
    ensures r.Ok? ==> r.value == |Q.Matching(old(coll.Stored()), filter) * Q.IdsOf(docs)|
  {
    ghost var kv := coll.storage.kv;
    var matched := 0;
    n := 0;
    StartMerge(kv, coll.t, filter, fields, docs);
    for i := 0 to |docs|
      invariant n == i && Progress(kv, coll, filter, fields, docs, n)
      invariant Counted(Docs(kv, coll.t), filter, docs, i, matched)
    {
      var m := MergeNext(kv, coll, filter, fields, docs, i);
      if m.Err? {
        return Err(m.error), n;
      }
      NextCounted(kv, coll.t, filter, docs, i, matched);
      matched := matched + m.value;
      n := n + 1;
    }
    AllCounted(Docs(kv, coll.t), filter, docs, matched);
    r := Ok(matched);
  }

  /** Matching documents among the first `i` rows. */
  ghost predicate Counted(stored: map<str, Fields>, filter: Option<P.WhereClause>, docs: seq<Document>, i: nat, matched: nat) {
    i <= |docs| && matched == |Q.Matching(stored, filter) * Q.IdsOf(docs[..i])|
  }

  lemma AllCounted(stored: map<str, Fields>, filter: Option<P.WhereClause>, docs: seq<Document>, matched: nat)
    requires Counted(stored, filter, docs, |docs|, matched)
    ensures matched == |Q.Matching(stored, filter) * Q.IdsOf(docs)|
  {
    assert docs[..|docs|] == docs;
  }

  lemma NextCounted(kv: Kv, t: Table, filter: Option<P.WhereClause>, docs: seq<Document>, i: nat, matched: nat)
    requires i < |docs| && ScannedRows(kv, t, docs) && Counted(Docs(kv, t), filter, docs, i, matched)
    ensures Counted(Docs(kv, t), filter, docs, i + 1, matched + if Q.Keeps(filter, docs[i].fields) then 1 else 0)
  {
    assert docs[i] in docs;
    NextIds(docs, i);
    NextCount(Q.Matching(Docs(kv, t), filter), Q.IdsOf(docs[..i]), docs[i].id);
  }

  /** The next row: merged and counted if the filter selects it. */
  method MergeNext(ghost kv: Kv, coll: Collection, filter: Option<P.WhereClause>, fields: Fields, docs: seq<Document>, i: nat) returns (r: Result<nat>)
    requires i < |docs| && ScannedRows(kv, coll.t, docs) && Progress(kv, coll, filter, fields, docs, i)
    modifies coll.storage
    ensures r.Ok? <==> PassesOver(coll.t, Catalog(kv, coll.t), filter, fields, docs[i])
    ensures Progress(kv, coll, filter, fields, docs, if r.Ok? then i + 1 else i)
    ensures r.Ok? ==> r.value == if Q.Keeps(filter, docs[i].fields) then 1 else 0
  {
    ghost var mid := coll.storage.kv;
    NextRow(kv, mid, coll.t, filter, fields, docs, i);
    r := MergeIfKept(coll, docs[i], filter, fields);
    MergedOn(kv, mid, coll.storage.kv, coll.t, filter, fields, docs, i, if r.Ok? then i + 1 else i);
  }

  lemma StartMerge(kv: Kv, t: Table, filter: Option<P.WhereClause>, fields: Fields, docs: seq<Document>)
    requires t.Valid() && AllCovered(kv)
    ensures MergedTo(kv, kv, t, filter, fields, docs, 0) && Counted(Docs(kv, t), filter, docs, 0, 0)
  {
    NothingChanged(kv, t);
    assert Covered(kv, t);
    NothingMoves(kv, t);
    assert Q.IdsOf(docs[..0]) == {};
    assert Docs(kv, t) == MergedRows(Docs(kv, t), filter, fields, {});
    assert Q.Matching(Docs(kv, t), filter) * {} == {};
  }

  /** Merges one row if the filter selects it. */
  method MergeIfKept(coll: Collection, d: Document, filter: Option<P.WhereClause>, fields: Fields) returns (r: Result<nat>)
    requires coll.Ready() && AllCovered(coll.storage.kv) && d.id in coll.Stored() && coll.Stored()[d.id] == d.fields
    modifies coll.storage
    ensures coll.Ready() && KeepsIndexes(old(coll.storage.kv), coll.storage.kv) && coll.Defs() == old(coll.Defs())
    ensures OnlyDocs(old(coll.storage.kv), coll.storage.kv, coll.t) && LeftoversStay(old(coll.storage.kv), coll.storage.kv, coll.t)
    ensures r.Ok? <==> PassesOver(coll.t, old(coll.Defs()), filter, fields, d)
    ensures r.Ok? ==> r.value == if Q.Keeps(filter, d.fields) then 1 else 0
    ensures coll.Stored() == if r.Ok? && Q.Keeps(filter, d.fields) then old(coll.Stored())[d.id := d.fields + fields] else old(coll.Stored())
  {
    NothingChanged(coll.storage.kv, coll.t);
    NothingMoves(coll.storage.kv, coll.t);
    if filter.None? || P.MatchesWhere(d.fields, filter.value) {
      var m := MergeRow(coll, d.id, fields);
      return if m.Ok? then Ok(1) else Err(m.error);
    }
    r := Ok(0);
  }

  lemma ScanIds(stored: map<str, Fields>, docs: seq<Document>)
    requires forall d :: d in docs <==> d.id in stored && stored[d.id] == d.fields
    ensures Q.IdsOf(docs) == stored.Keys
    ensures forall filter :: Q.Matching(stored, filter) * Q.IdsOf(docs) == Q.Matching(stored, filter)
  {
    forall id | id in stored ensures id in Q.IdsOf(docs) {
      assert Document(id, stored[id]) in docs;
    }
  }

  /** The documents after merging `fields` into those of `ids` that the filter selects. */
  ghost function MergedRows(stored: map<str, Fields>, filter: Option<P.WhereClause>, fields: Fields, ids: set<str>): map<str, Fields> {
    map id | id in stored :: MergedRow(stored[id], filter, fields, id in ids)
  }

  ghost function MergedRow(row: Fields, filter: Option<P.WhereClause>, fields: Fields, reached: bool): Fields {
    if reached && Q.Keeps(filter, row) then row + fields else row
  }

  lemma NextMerge(stored: map<str, Fields>, filter: Option<P.WhereClause>, fields: Fields, ids: set<str>, id: str)
    requires id in stored && id !in ids
    ensures var before, after := MergedRows(stored, filter, fields, ids), MergedRows(stored, filter, fields, ids + {id});
      && after == (if Q.Keeps(filter, stored[id]) then before[id := stored[id] + fields] else before)
      && id in before && before[id] == stored[id]
  {
    var before, after := MergedRows(stored, filter, fields, ids), MergedRows(stored, filter, fields, ids + {id});
    var expected := if Q.Keeps(filter, stored[id]) then before[id := stored[id] + fields] else before;
    forall i | i in stored ensures after[i] == expected[i] {}
    assert after.Keys == stored.Keys && expected.Keys == stored.Keys;
  }

  lemma NextCount(all: set<str>, ids: set<str>, id: str)
    requires id !in ids
    ensures |all * (ids + {id})| == |all * ids| + (if id in all then 1 else 0)
  {
    assert all * (ids + {id}) == all * ids + (if id in all then {id} else {});
  }

  lemma NextIds(docs: seq<Document>, i: nat)
    requires i < |docs| && forall a, b :: 0 <= a < b < |docs| ==> Lt(docs[a].id, docs[b].id)
    ensures Q.IdsOf(docs[..i + 1]) == Q.IdsOf(docs[..i]) + {docs[i].id} && docs[i].id !in Q.IdsOf(docs[..i])
  {
    assert docs[..i + 1] == docs[..i] + [docs[i]];
    LtIrreflexive(docs[i].id);
  }

  /** Fewer documents and fewer definitions cannot create a shared tuple. */
  lemma UniqueFewer(docs: map<str, Fields>, less: map<str, Fields>, catalog: map<str, IndexDefinition>, fewer: map<str, IndexDefinition>)
    requires UniqueHolds(docs, catalog)
    requires forall id :: id in less ==> id in docs && less[id] == docs[id]
    requires forall name :: name in fewer ==> name in catalog && fewer[name] == catalog[name]
    ensures UniqueHolds(less, fewer)
  {
    forall name, id | name in fewer && id in less && fewer[name].unique ensures !Taken(less, fewer[name], id, less[id]) {
      if Taken(less, fewer[name], id, less[id]) { assert Taken(docs, catalog[name], id, docs[id]); }
    }
  }

  /** An empty store is consistent. */
  lemma EmptyStoreConsistent()
    ensures AllConsistent(map[]) && AllUnique(map[])
  {
    forall t: Table | t.Valid() ensures Consistent(map[], t) && UniqueHolds(Docs(map[], t), Catalog(map[], t)) {
      assert DocIds(map[], t) == {} && CatalogNames(map[], t) == {};
    }
  }
}
