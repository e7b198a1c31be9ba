/** Whole runs of commands over the store, batches and redefinitions included (crates/query/src/executor.rs). */
module Commands {
  import opened Bytes
  import opened Wrappers
  import opened Records
  import opened Keys
  import opened StorageModel
  import opened IndexState
  import opened IndexTransitions
  import opened CollectionModel
  import opened Batch
  import opened BatchEffects
  import opened Executor
  import P = Planner
  import Q = QueryExec
  import D = IndexDdl

  datatype Command =
    | Run(s: Statement)
    | UpdateRecord(t: Table, id: str, fields: Fields)
    | UpdateWhere(t: Table, filter: Option<P.WhereClause>, fields: Fields)
    | Delete(t: Table, id: str)
    | DeleteWhere(t: Table, filter: Option<P.WhereClause>)
    | DefineIndex(t: Table, name: str, columns: seq<str>, unique: bool)
    | RemoveIndex(t: Table, name: str)
    | Batch(stmts: seq<Statement>)
    | Select(t: Table, filter: Option<P.WhereClause>)
    | Count(t: Table, clause: P.WhereClause)

  predicate ValidCommand(c: Command) {
    match c
    case Run(s) => ValidStatement(s) && !s.Unsupported?
    case UpdateRecord(t, _, _) => t.Valid()
    case UpdateWhere(t, _, _) => t.Valid()
    case Delete(t, _) => t.Valid()
    case DeleteWhere(t, _) => t.Valid()
    case DefineIndex(t, name, _, _) => t.Valid() && Segment(name)
    case RemoveIndex(t, name) => t.Valid() && Segment(name)
    case Batch(stmts) => forall s :: s in stmts ==> ValidStatement(s)
    case Select(t, _) => t.Valid()
    case Count(t, _) => t.Valid()
  }

  // -------------------------------------------------------------------------
  // Commands as transitions between stores
  // -------------------------------------------------------------------------

  ghost predicate DocsBecome(kv: Kv, kv': Kv, t: Table, docs: map<str, Fields>) {
    Docs(kv', t) == docs && OnlyDocs(kv, kv', t) && LeftoversStay(kv, kv', t)
  }

  ghost predicate CatalogBecomes(kv: Kv, kv': Kv, t: Table, catalog: map<str, IndexDefinition>, region: set<Key>) {
    Catalog(kv', t) == catalog && IndexRegion(kv', t) == region && Docs(kv', t) == Docs(kv, t) && Q.OthersSame(kv, kv', t) && GraphSame(kv, kv')
  }

  /** The rows removed answer the filter under some order of the registered indexes. */
  ghost predicate Removes(kv: Kv, t: Table, filter: Option<P.WhereClause>, removed: set<str>) {
    exists defs :: Loaded(Catalog(kv, t), defs) && Q.Answers(defs, Docs(kv, t), HoldingsOf(kv, t), filter, removed)
  }

  ghost predicate Reads(kv: Kv, t: Table, filter: Option<P.WhereClause>, rows: seq<Document>) {
    exists defs :: Loaded(Catalog(kv, t), defs) && Q.Selects(defs, Docs(kv, t), HoldingsOf(kv, t), filter, rows)
  }

  ghost predicate CountIs(kv: Kv, t: Table, clause: P.WhereClause, count: nat) {
    exists defs :: Loaded(Catalog(kv, t), defs) && Q.Counts(defs, Docs(kv, t), HoldingsOf(kv, t), clause, count)
  }

  ghost predicate CreateEffect(kv: Kv, s: Statement, r: Result<Reply>, kv': Kv)
    requires s.Create?
  {
    if Accepted(kv, s) then r == Ok(if Replaces(kv, s) then Updated(TargetId(s)) else Created(TargetId(s)))
      && kv' == Apply(kv, StmtDelta(kv, s)) && DocsBecome(kv, kv', s.t, DocsAfterCreate(kv, s))
    else r.Err? && kv' == kv
  }

  ghost predicate DeletesMany(kv: Kv, t: Table, filter: Option<P.WhereClause>, r: Result<Reply>, kv': Kv) {
    exists removed :: Removes(kv, t, filter, removed) && DocsBecome(kv, kv', t, Docs(kv, t) - removed) && r == Ok(DeletedMany(|removed|))
  }

  /** What a command answers, and what it does to documents, definitions and edges. */
  ghost predicate Effect(kv: Kv, c: Command, r: Result<Reply>, kv': Kv) {
    match c
    case Run(s) =>
      if s.Create? then CreateEffect(kv, s, r, kv') else r == Ok(Done) && kv' == Apply(kv, StmtDelta(kv, s))
    case UpdateRecord(t, id, fields) =>
      var docs := Docs(kv, t);
      if id !in docs then r == Ok(Matched(0)) && DocsBecome(kv, kv', t, docs)
      else if Mergeable(t, Catalog(kv, t), fields, id, docs[id]) then r == Ok(Matched(1)) && DocsBecome(kv, kv', t, docs[id := docs[id] + fields])
      else r.Err? && DocsBecome(kv, kv', t, docs)
    case UpdateWhere(t, filter, fields) =>
      var docs, catalog := Docs(kv, t), Catalog(kv, t);
      && DocsBecome(kv, kv', t, MergedRows(docs, filter, fields, Reached(t, docs, catalog, filter, fields)))
      && if forall id :: id in Q.Matching(docs, filter) ==> Mergeable(t, catalog, fields, id, docs[id]) then r == Ok(Matched(|Q.Matching(docs, filter)|)) else r.Err?
    case Delete(t, id) => r == Ok(Deleted(id in Docs(kv, t))) && DocsBecome(kv, kv', t, Docs(kv, t) - {id})
    case DeleteWhere(t, filter) => DeletesMany(kv, t, filter, r, kv')
    case DefineIndex(t, name, columns, unique) =>
      var def := IndexDefinition(name, columns, unique, BTree);
      if D.Definable(t, Docs(kv, t), def) then r == Ok(Done) && CatalogBecomes(kv, kv', t, Catalog(kv, t)[name := def], IndexRegion(kv, t) + D.Backfill(t, Docs(kv, t), def)) else r.Err? && kv' == kv
    case RemoveIndex(t, name) => r == Ok(Done) && CatalogBecomes(kv, kv', t, Catalog(kv, t) - {name}, IndexRegion(kv, t) - D.Leftover(kv, t, name))
    case Batch(stmts) =>
      if AllOk(kv, stmts) then r == Ok(Batched(|stmts|, CreatedCount(kv, stmts), UpdatedCount(kv, stmts))) && kv' == AfterBatch(kv, stmts)
      else r.Err? && kv' == kv
    case Select(t, filter) => kv' == kv && r.Ok? && r.value.Rows? && Reads(kv, t, filter, r.value.rows)
    case Count(t, clause) => kv' == kv && r.Ok? && r.value.Counted? && CountIs(kv, t, clause, r.value.count)
  }

  /** The command leaves no stale entry behind: a test on the store before it. */
  ghost predicate Clean(kv: Kv, c: Command) {
    match c
    case DefineIndex(t, name, columns, unique) =>
      var def := IndexDefinition(name, columns, unique, BTree);
      D.Definable(t, Docs(kv, t), def) ==> D.Leftover(kv, t, name) <= D.Backfill(t, Docs(kv, t), def)
    case Batch(stmts) => AllOk(kv, stmts) ==> NothingStale(kv, stmts)
    case _ => true
  }

  /**
   The command stores no tuple of a unique index that another document holds: a
   test on the store before it. The commands left out check it or store nothing.
   */
  ghost predicate UniqueSafe(kv: Kv, c: Command) {
    match c
    case Run(s) => Replaces(kv, s) && StmtOk(kv, s) ==> TupleFree(Docs(kv, s.t), Catalog(kv, s.t), TargetId(s), Stores(kv, s))
    case UpdateRecord(t, id, fields) =>
      var docs, catalog := Docs(kv, t), Catalog(kv, t);
      id in docs && Mergeable(t, catalog, fields, id, docs[id]) ==> TupleFree(docs, catalog, id, docs[id] + fields)
    case UpdateWhere(t, filter, fields) =>
      var docs, catalog := Docs(kv, t), Catalog(kv, t);
      ChangesFree(docs, catalog, MergedChanges(docs, filter, fields, Reached(t, docs, catalog, filter, fields)))
    case Batch(stmts) => AllOk(kv, stmts) ==> forall t: Table :: t.Valid() ==> ChangesFree(Docs(kv, t), Catalog(kv, t), LastStores(kv, stmts, t))
    case _ => true
  }

  /** How many edges of the table `t` names the command relates. */
  function RelatedBy(c: Command, t: Table): nat {
    match c
    case Run(s) => if s.Relate? && s.t == t then 1 else 0
    case Batch(stmts) => Relates(stmts, t)
    case _ => 0
  }

  ghost predicate EdgesKept(kv: Kv, c: Command, kv': Kv) {
    forall t: Table :: t.Valid() && RelatedBy(c, t) == 0 ==> EdgesSame(kv, kv', t)
  }

  /**
   What a command keeps: every derived entry is stored after it, a consistent store
   stays one exactly when it is clean, unique tuples stay unique exactly when it is
   safe, and edges it does not relate stay.
   */
  ghost predicate Keeps(kv: Kv, c: Command, kv': Kv) {
    && AllCovered(kv')
    && (AllConsistent(kv) ==> (AllConsistent(kv') <==> Clean(kv, c)))
    && (AllUnique(kv) ==> (AllUnique(kv') <==> UniqueSafe(kv, c)))
    && EdgesKept(kv, c, kv')
  }

  // -------------------------------------------------------------------------
  // Execution
  // -------------------------------------------------------------------------

  /** One command, from any store that lacks no derived entry. */
  method Execute(storage: Storage, c: Command) returns (r: Result<Reply>)
    requires ValidCommand(c) && AllCovered(storage.kv)
    modifies storage
    ensures Effect(old(storage.kv), c, r, storage.kv) && Keeps(old(storage.kv), c, storage.kv)
  {
    match c
    case Run(s) =>
      r := RunStatement(storage, c);
    case UpdateRecord(t, id, fields) =>
      r := RunUpdate(storage, c);
    case UpdateWhere(t, filter, fields) =>
      r := RunUpdate(storage, c);
    case Delete(t, id) =>
      r := RunDelete(storage, c);
    case DeleteWhere(t, filter) =>
      r := RunDeleteWhere(storage, c);
    case DefineIndex(t, name, columns, unique) =>
      r := RunDefine(storage, c);
    case RemoveIndex(t, name) =>
      r := RunRemove(storage, c);
    case Batch(stmts) =>
      r := RunBatch(storage, c);
    case Select(t, filter) =>
      r := RunRead(storage, c);
    case Count(t, clause) =>
      r := RunRead(storage, c);
  }

  method RunStatement(storage: Storage, c: Command) returns (r: Result<Reply>)
    requires c.Run? && ValidCommand(c) && AllCovered(storage.kv)
    modifies storage
    ensures Effect(old(storage.kv), c, r, storage.kv) && Keeps(old(storage.kv), c, storage.kv)
  {
    ghost var kv := storage.kv;
    if c.s.Create? {
      r := ExecCreate(storage, c.s);
      AfterCreate(kv, c.s, r.Ok?, storage.kv);
      OnlyDocsKeepsEdges(kv, storage.kv, c.s.t);
    } else {
      ExecRelate(storage, c.s);
      r := Ok(Done);
      forall t: Table | t.Valid() ensures Docs(storage.kv, t) == Docs(kv, t) && Catalog(storage.kv, t) == Catalog(kv, t) {
        TableFrame(kv, storage.kv, t);
      }
    }
  }

  method RunUpdate(storage: Storage, c: Command) returns (r: Result<Reply>)
    requires (c.UpdateRecord? || c.UpdateWhere?) && ValidCommand(c) && AllCovered(storage.kv)
    modifies storage
    ensures Effect(old(storage.kv), c, r, storage.kv) && Keeps(old(storage.kv), c, storage.kv)
  {
    ghost var kv := storage.kv;
    ghost var docs, catalog := Docs(kv, c.t), Catalog(kv, c.t);
    var matched;
    if c.UpdateRecord? {
      matched := ExecUpdateRecord(storage, c.t, c.id, c.fields);
      UniqueAfterRecord(kv, storage.kv, c);
    } else {
      matched := ExecUpdateWhere(storage, c.t, c.filter, c.fields);
      UniqueAfterWhere(kv, storage.kv, c);
    }
    r := if matched.Ok? then Ok(Matched(matched.value)) else Err(matched.error);
  }

  method RunDelete(storage: Storage, c: Command) returns (r: Result<Reply>)
    requires c.Delete? && ValidCommand(c) && AllCovered(storage.kv)
    modifies storage
    ensures Effect(old(storage.kv), c, r, storage.kv) && Keeps(old(storage.kv), c, storage.kv)
  {
    var existed := ExecDelete(storage, c.t, c.id);
    r := Ok(Deleted(existed));
  }

  method RunDeleteWhere(storage: Storage, c: Command) returns (r: Result<Reply>)
    requires c.DeleteWhere? && ValidCommand(c) && AllCovered(storage.kv)
    modifies storage
    ensures Effect(old(storage.kv), c, r, storage.kv) && Keeps(old(storage.kv), c, storage.kv)
  {
    ghost var kv := storage.kv;
    assert Covered(kv, c.t);
    var coll := Load(storage, c.t);
    var count, removed := Q.ExecDeleteWhere(coll, c.filter);
    r := Ok(DeletedMany(count));
    DeleteWhereEffect(kv, storage.kv, c, coll.indexes, removed);
    AfterDeleteWhere(kv, storage.kv, c.t, removed);
  }

  lemma DeleteWhereEffect(kv: Kv, kv': Kv, c: Command, defs: seq<IndexDefinition>, removed: set<str>)
    requires c.DeleteWhere? && Q.Dropped(kv, kv', c.t, removed) && Loaded(Catalog(kv, c.t), defs)
    requires Q.Answers(defs, Docs(kv, c.t), HoldingsOf(kv, c.t), c.filter, removed)
    ensures Effect(kv, c, Ok(DeletedMany(|removed|)), kv') && EdgesKept(kv, c, kv')
  {
    assert Removes(kv, c.t, c.filter, removed);
  }

  lemma AfterDeleteWhere(kv: Kv, kv': Kv, t: Table, removed: set<str>)
    requires t.Valid() && AllCovered(kv) && Q.Dropped(kv, kv', t, removed)
    ensures KeepsIndexes(kv, kv') && (AllUnique(kv) ==> AllUnique(kv'))
  {
    TablesKept(kv, kv', t);
    if AllUnique(kv) {
      assert UniqueHolds(Docs(kv, t), Catalog(kv, t));
      UniqueFewer(Docs(kv, t), Docs(kv', t), Catalog(kv, t), Catalog(kv', t));
      UniqueKept(kv, kv', t);
    }
  }

  /** The index invariants of one table decide those of the store when the others are as before. */
  lemma TablesKept(kv: Kv, kv': Kv, t: Table)
    requires t.Valid() && AllCovered(kv) && Q.OthersSame(kv, kv', t)
    ensures Covered(kv', t) ==> AllCovered(kv')
    ensures AllConsistent(kv) ==> (AllConsistent(kv') <==> Consistent(kv', t))
  {
    forall t': Table | t'.Valid() && t' != t ensures Covered(kv', t') && (AllConsistent(kv) ==> Consistent(kv', t')) {
      TableFrame(kv, kv', t');
      if AllConsistent(kv) { assert Consistent(kv, t'); }
    }
    if AllConsistent(kv') { assert Consistent(kv', t); }
  }

  /** The unique tuples of one table decide those of the store when the others are as before. */
  lemma UniqueKept(kv: Kv, kv': Kv, t: Table)
    requires t.Valid() && AllUnique(kv) && Q.OthersSame(kv, kv', t)
    ensures AllUnique(kv') <==> UniqueHolds(Docs(kv', t), Catalog(kv', t))
  {
    forall t': Table | t'.Valid() && t' != t ensures UniqueHolds(Docs(kv', t'), Catalog(kv', t')) {
      TableFrame(kv, kv', t');
    }
  }

  lemma AfterCreate(kv: Kv, s: Statement, ok: bool, kv': Kv)
    requires s.Create? && ValidStatement(s) && AllCovered(kv) && OnlyDocs(kv, kv', s.t)
    requires ok <==> Accepted(kv, s)
    requires Docs(kv', s.t) == if ok then DocsAfterCreate(kv, s) else Docs(kv, s.t)
    ensures AllUnique(kv) ==> (AllUnique(kv') <==> UniqueSafe(kv, Run(s)))
  {
    if AllUnique(kv) {
      var docs, catalog, id := Docs(kv, s.t), Catalog(kv, s.t), TargetId(s);
      UniqueKept(kv, kv', s.t);
      assert UniqueHolds(docs, catalog) && Covered(kv, s.t);
      if ok {
        UniqueAfterWriteIff(docs, catalog, id, Stores(kv, s));
        if id !in docs { UnclaimedIsFree(kv, s.t, id, s.fields); }
      }
    }
  }

  lemma UniqueAfterRecord(kv: Kv, kv': Kv, c: Command)
    requires c.UpdateRecord? && c.t.Valid() && OnlyDocs(kv, kv', c.t)
    requires var docs := Docs(kv, c.t);
      Docs(kv', c.t) == if c.id in docs && Mergeable(c.t, Catalog(kv, c.t), c.fields, c.id, docs[c.id]) then docs[c.id := docs[c.id] + c.fields] else docs
    ensures AllUnique(kv) ==> (AllUnique(kv') <==> UniqueSafe(kv, c))
  {
    if AllUnique(kv) {
      var docs, catalog := Docs(kv, c.t), Catalog(kv, c.t);
      UniqueKept(kv, kv', c.t);
      assert UniqueHolds(docs, catalog);
      if c.id in docs { UniqueAfterWriteIff(docs, catalog, c.id, docs[c.id] + c.fields); }
    }
  }

  lemma UniqueAfterWhere(kv: Kv, kv': Kv, c: Command)
    requires c.UpdateWhere? && c.t.Valid() && OnlyDocs(kv, kv', c.t)
    requires var docs := Docs(kv, c.t);
      Docs(kv', c.t) == MergedRows(docs, c.filter, c.fields, Reached(c.t, docs, Catalog(kv, c.t), c.filter, c.fields))
    ensures AllUnique(kv) ==> (AllUnique(kv') <==> UniqueSafe(kv, c))
  {
    if AllUnique(kv) {
      var docs, catalog := Docs(kv, c.t), Catalog(kv, c.t);
      var reached := Reached(c.t, docs, catalog, c.filter, c.fields);
      UniqueKept(kv, kv', c.t);
      assert UniqueHolds(docs, catalog);
      MergedAreChanges(docs, c.filter, c.fields, reached);
      UniqueAfterChangesIff(docs, catalog, MergedChanges(docs, c.filter, c.fields, reached));
    }
  }

  /** The rows an UPDATE changes, as it stores them. */
  ghost function MergedChanges(docs: map<str, Fields>, filter: Option<P.WhereClause>, fields: Fields, reached: set<str>): map<str, Fields> {
    map id | id in Q.Matching(docs, filter) && id in reached :: docs[id] + fields
  }

  lemma MergedAreChanges(docs: map<str, Fields>, filter: Option<P.WhereClause>, fields: Fields, reached: set<str>)
    ensures MergedRows(docs, filter, fields, reached) == docs + MergedChanges(docs, filter, fields, reached)
  {
  }

  lemma OnlyDocsKeepsEdges(kv: Kv, kv': Kv, t: Table)
    requires OnlyDocs(kv, kv', t)
    ensures forall t': Table :: t'.Valid() ==> EdgesSame(kv, kv', t')
  {
  }

  method RunDefine(storage: Storage, c: Command) returns (r: Result<Reply>)
    requires c.DefineIndex? && ValidCommand(c) && AllCovered(storage.kv)
    modifies storage
    ensures Effect(old(storage.kv), c, r, storage.kv) && Keeps(old(storage.kv), c, storage.kv)
  {
    ghost var kv := storage.kv;
    assert Covered(kv, c.t);
    var d := D.ExecDefineIndex(storage, c.t, c.name, c.columns, c.unique);
    r := if d.Ok? then Ok(Done) else Err(d.error);
    DefinitionFrame(kv, storage.kv, c.t, c.name);
    TablesKept(kv, storage.kv, c.t);
    if AllConsistent(kv) { assert Consistent(kv, c.t); }
    if AllUnique(kv) {
      assert UniqueHolds(Docs(kv, c.t), Catalog(kv, c.t));
      UniqueKept(kv, storage.kv, c.t);
      if r.Ok? { D.UniqueAfterDefine(Docs(kv, c.t), Catalog(kv, c.t), IndexDefinition(c.name, c.columns, c.unique, BTree)); }
    }
  }

  lemma DefinitionFrame(kv: Kv, kv': Kv, t: Table, name: str)
    requires t.Valid() && ChangedOnlyDef(kv, kv', t, name)
    ensures Q.OthersSame(kv, kv', t) && GraphSame(kv, kv')
  {
    DefinitionKeepsEdges(kv, kv', t, name);
    forall t': Table | t'.Valid() && t' != t ensures SameTable(kv, kv', t') {
      OtherTableFrameDef(kv, kv', t, name, t');
    }
  }

  method RunRemove(storage: Storage, c: Command) returns (r: Result<Reply>)
    requires c.RemoveIndex? && ValidCommand(c) && AllCovered(storage.kv)
    modifies storage
    ensures Effect(old(storage.kv), c, r, storage.kv) && Keeps(old(storage.kv), c, storage.kv)
  {
    ghost var kv := storage.kv;
    assert Covered(kv, c.t);
    D.ExecRemoveIndex(storage, c.t, c.name);
    r := Ok(Done);
    DefinitionFrame(kv, storage.kv, c.t, c.name);
    TablesKept(kv, storage.kv, c.t);
    if AllConsistent(kv) { assert Consistent(kv, c.t); }
    if AllUnique(kv) {
      assert UniqueHolds(Docs(kv, c.t), Catalog(kv, c.t));
      UniqueFewer(Docs(kv, c.t), Docs(storage.kv, c.t), Catalog(kv, c.t), Catalog(storage.kv, c.t));
      UniqueKept(kv, storage.kv, c.t);
    }
  }

  method RunBatch(storage: Storage, c: Command) returns (r: Result<Reply>)
    requires c.Batch? && ValidCommand(c) && AllCovered(storage.kv)
    modifies storage
    ensures Effect(old(storage.kv), c, r, storage.kv) && Keeps(old(storage.kv), c, storage.kv)
  {
    ghost var kv := storage.kv;
    r := ExecuteBatch(storage, c.stmts);
    forall t: Table | t.Valid() && RelatedBy(c, t) == 0 ensures EdgesSame(kv, storage.kv, t) {
      EdgesOrRelates(kv, c.stmts, t);
      NothingChanged(kv, t);
    }
    if AllUnique(kv) && AllOk(kv, c.stmts) {
      forall t: Table | t.Valid()
        ensures UniqueHolds(Docs(storage.kv, t), Catalog(storage.kv, t)) <==> ChangesFree(Docs(kv, t), Catalog(kv, t), LastStores(kv, c.stmts, t))
      {
        assert UniqueHolds(Docs(kv, t), Catalog(kv, t));
        BatchUniqueIff(kv, c.stmts, t);
      }
    }
  }

  /** SELECT and COUNT change nothing. */
  method RunRead(storage: Storage, c: Command) returns (r: Result<Reply>)
    requires (c.Select? || c.Count?) && ValidCommand(c) && AllCovered(storage.kv)
    ensures Effect(storage.kv, c, r, storage.kv) && Keeps(storage.kv, c, storage.kv)
  {
    assert Covered(storage.kv, c.t);
    NothingChanged(storage.kv, c.t);
    var coll := Load(storage, c.t);
    if c.Select? {
      var rows := Q.SelectWhere(coll, c.filter);
      r := Ok(Rows(rows));
    } else {
      var count := Q.ExecCount(coll, c.clause);
      r := Ok(Counted(count));
    }
  }

  // -------------------------------------------------------------------------
  // Runs
  // -------------------------------------------------------------------------

  /** `states` are the stores before, between and after the commands, each reached from the one before by its command. */
  ghost predicate History(cs: seq<Command>, replies: seq<Result<Reply>>, states: seq<Kv>) {
    |states| == |replies| + 1 <= |cs| + 1 && forall i: nat :: i < |replies| ==> StepAt(cs, replies, states, i)
  }

  ghost predicate StepAt(cs: seq<Command>, replies: seq<Result<Reply>>, states: seq<Kv>, i: nat)
    requires i < |replies| <= |cs| && |states| == |replies| + 1
  {
    Effect(states[i], cs[i], replies[i], states[i + 1]) && Keeps(states[i], cs[i], states[i + 1])
  }

  lemma HistoryNext(cs: seq<Command>, replies: seq<Result<Reply>>, states: seq<Kv>, r: Result<Reply>, kv: Kv)
    requires History(cs, replies, states) && |replies| < |cs|
    requires Effect(states[|replies|], cs[|replies|], r, kv) && Keeps(states[|replies|], cs[|replies|], kv)
    ensures History(cs, replies + [r], states + [kv])
  {
    forall i: nat | i < |replies| + 1 ensures StepAt(cs, replies + [r], states + [kv], i) {
      if i < |replies| { assert StepAt(cs, replies, states, i); }
    }
  }

  method ExecuteNext(storage: Storage, cs: seq<Command>, replies: seq<Result<Reply>>, ghost states: seq<Kv>) returns (r: Result<Reply>)
    requires AllCovered(storage.kv) && forall c :: c in cs ==> ValidCommand(c)
    requires History(cs, replies, states) && |replies| < |cs| && states[|replies|] == storage.kv
    modifies storage
    ensures AllCovered(storage.kv) && History(cs, replies + [r], states + [storage.kv])
  {
    assert cs[|replies|] in cs;
    r := Execute(storage, cs[|replies|]);
    HistoryNext(cs, replies, states, r, storage.kv);
  }

  /**
   Any run of commands: each answers and acts as stated on the store the one before
   left, and no derived entry is ever missing, whatever batches and redefinitions
   ran.
   */
  method RunAll(storage: Storage, cs: seq<Command>) returns (replies: seq<Result<Reply>>, ghost states: seq<Kv>)
    requires AllCovered(storage.kv) && forall c :: c in cs ==> ValidCommand(c)
    modifies storage
    ensures History(cs, replies, states) && |replies| == |cs| && states[0] == old(storage.kv) && states[|cs|] == storage.kv
    ensures AllCovered(storage.kv)
  {
    replies, states := [], [storage.kv];
    ghost var start := storage.kv;
    for i := 0 to |cs|
      invariant AllCovered(storage.kv)
      invariant History(cs, replies, states) && |replies| == i && states[0] == start && states[i] == storage.kv
    {
      var r := ExecuteNext(storage, cs, replies, states);
      replies, states := replies + [r], states + [storage.kv];
    }
  }

  /** What one command of a run does to the invariants. */
  lemma StepKeeps(cs: seq<Command>, replies: seq<Result<Reply>>, states: seq<Kv>, i: nat)
    requires History(cs, replies, states) && i < |replies|
    ensures AllConsistent(states[i]) ==> (AllConsistent(states[i + 1]) <==> Clean(states[i], cs[i]))
    ensures AllUnique(states[i]) ==> (AllUnique(states[i + 1]) <==> UniqueSafe(states[i], cs[i]))
  {
    assert StepAt(cs, replies, states, i);
  }

  /** What a command keeps of a store that has `p`. */
  ghost predicate KeptAt(p: Kv -> bool, safe: (Kv, Command) -> bool, cs: seq<Command>, states: seq<Kv>, i: nat)
    requires i < |cs| && i + 1 < |states|
  {
    p(states[i]) ==> (p(states[i + 1]) <==> safe(states[i], cs[i]))
  }

  lemma {:induction false} HoldsWhile(p: Kv -> bool, safe: (Kv, Command) -> bool, cs: seq<Command>, states: seq<Kv>, n: nat)
    requires n <= |cs| && n < |states| && p(states[0])
    requires forall i: nat :: i < n ==> KeptAt(p, safe, cs, states, i) && safe(states[i], cs[i])
    ensures p(states[n])
  {
    if n > 0 {
      HoldsWhile(p, safe, cs, states, n - 1);
      assert KeptAt(p, safe, cs, states, n - 1);
    }
  }

  ghost function Consistently(): Kv -> bool { kv => AllConsistent(kv) }

  ghost function Cleanly(): (Kv, Command) -> bool { (kv, c) => Clean(kv, c) }

  ghost function Uniquely(): Kv -> bool { kv => AllUnique(kv) }

  ghost function Safely(): (Kv, Command) -> bool { (kv, c) => UniqueSafe(kv, c) }

  lemma StepsKept(cs: seq<Command>, replies: seq<Result<Reply>>, states: seq<Kv>, i: nat)
    requires History(cs, replies, states) && i < |replies|
    ensures KeptAt(Consistently(), Cleanly(), cs, states, i) && KeptAt(Uniquely(), Safely(), cs, states, i)
  {
    StepKeeps(cs, replies, states, i);
  }

  /** A run from a consistent store stays consistent up to the first command that is not clean, and no longer. */
  lemma ConsistentWhileClean(cs: seq<Command>, replies: seq<Result<Reply>>, states: seq<Kv>, n: nat)
    requires History(cs, replies, states) && n <= |replies| && AllConsistent(states[0])
    requires forall i :: 0 <= i < n ==> Clean(states[i], cs[i])
    ensures AllConsistent(states[n])
    ensures n < |replies| ==> (AllConsistent(states[n + 1]) <==> Clean(states[n], cs[n]))
  {
    forall i: nat | i < n ensures KeptAt(Consistently(), Cleanly(), cs, states, i) && Cleanly()(states[i], cs[i]) { StepsKept(cs, replies, states, i); }
    HoldsWhile(Consistently(), Cleanly(), cs, states, n);
    if n < |replies| { StepKeeps(cs, replies, states, n); }
  }

  /** Unique tuples stay unique over a run up to the first command that is not safe, and no longer. */
  lemma UniqueWhileSafe(cs: seq<Command>, replies: seq<Result<Reply>>, states: seq<Kv>, n: nat)
    requires History(cs, replies, states) && n <= |replies| && AllUnique(states[0])
    requires forall i :: 0 <= i < n ==> UniqueSafe(states[i], cs[i])
    ensures AllUnique(states[n])
    ensures n < |replies| ==> (AllUnique(states[n + 1]) <==> UniqueSafe(states[n], cs[n]))
  {
    forall i: nat | i < n ensures KeptAt(Uniquely(), Safely(), cs, states, i) && Safely()(states[i], cs[i]) { StepsKept(cs, replies, states, i); }
    HoldsWhile(Uniquely(), Safely(), cs, states, n);
    if n < |replies| { StepKeeps(cs, replies, states, n); }
  }
}
