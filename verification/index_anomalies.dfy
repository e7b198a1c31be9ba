/**
 Short runs of commands whose answers are not those of scanning and filtering:
 each is an instance of an exact condition proved elsewhere.
 */
module IndexAnomalies {
  import opened Bytes
  import opened Wrappers
  import opened Values
  import opened Records
  import opened Keys
  import opened StorageModel
  import opened IndexScan
  import opened IndexState
  import opened IndexTransitions
  import opened CollectionModel
  import opened Planner
  import opened QueryExec
  import opened Batch
  import opened SmallIndexes
  import B = BatchEffects
  import D = IndexDdl
  import X = Executor
  import C = Commands

  // -------------------------------------------------------------------------
  // Tables with one index
  // -------------------------------------------------------------------------

  /** The documents, definitions and index entries of a table. */
  ghost predicate TableIs(kv: Kv, t: Table, docs: map<str, Fields>, catalog: map<str, IndexDefinition>, region: set<Key>) {
    AllCovered(kv) && Docs(kv, t) == docs && Catalog(kv, t) == catalog && IndexRegion(kv, t) == region
  }

  /** An empty store with one document written to it. */
  method OneDocument(t: Table, id: str, fields: Fields) returns (storage: Storage)
    requires t.Valid() && Utf8(id)
    ensures fresh(storage) && TableIs(storage.kv, t, map[id := fields], map[], {})
  {
    storage := new Storage();
    X.EmptyStoreConsistent();
    ConsistentIsCovered(map[]);
    EmptyTable(t);
    var s := Create(t, Some(id), id, fields, None);
    assert X.Accepted(storage.kv, s);
    var r := C.Execute(storage, C.Run(s));
  }

  lemma EmptyTable(t: Table)
    ensures Docs(map[], t) == map[] && Catalog(map[], t) == map[] && IndexRegion(map[], t) == {}
  {
    assert DocIds(map[], t) == {} && CatalogNames(map[], t) == {};
  }

  /** The table once an index has been defined on it. */
  method DefineOn(storage: Storage, t: Table, idx: IndexDefinition, ghost docs: map<str, Fields>, ghost catalog: map<str, IndexDefinition>, ghost region: set<Key>)
    requires t.Valid() && Segment(idx.name) && idx.kind.BTree? && D.Definable(t, docs, idx) && TableIs(storage.kv, t, docs, catalog, region)
    modifies storage
    ensures TableIs(storage.kv, t, docs, catalog[idx.name := idx], region + D.Backfill(t, docs, idx))
  {
    var r := C.Execute(storage, C.DefineIndex(t, idx.name, idx.fields, idx.unique));
  }

  // -------------------------------------------------------------------------
  // Reads through the only index
  // -------------------------------------------------------------------------

  /** COUNT through a covering plan of the only index counts the entries the plan selects. */
  method CountThrough(storage: Storage, t: Table, idx: IndexDefinition, clause: WhereClause, ghost plan: IndexPlan, ghost entries: set<Entry>) returns (count: nat)
    requires t.Valid() && AllCovered(storage.kv) && Catalog(storage.kv, t) == map[idx.name := idx]
    requires IndexRegion(storage.kv, t) == KeysFor(t, idx.name, entries) && forall e :: e in entries ==> |e.raws| == |idx.fields| && Utf8(e.id)
    requires PlanFits(plan, idx) && plan.covers && Candidate(idx, Conjuncts(clause)) == Some((plan.(covers := false), 1)) && |Conjuncts(clause)| == 1
    ensures count == |PlanEntries(entries, idx, plan)|
  {
    ghost var kv := storage.kv;
    var r := Read(storage, C.Count(t, clause));
    count := r.count;
    ghost var defs :| Loaded(Catalog(kv, t), defs) && Counts(defs, Docs(kv, t), HoldingsOf(kv, t), clause, count);
    OnlyIndexChosen(defs, idx, clause);
    HeldAre(kv, t, idx, entries);
  }

  /** A read of the store. */
  method Read(storage: Storage, c: C.Command) returns (r: X.Reply)
    requires (c.Select? || c.Count?) && C.ValidCommand(c) && AllCovered(storage.kv)
    ensures c.Select? ==> r.Rows? && C.Reads(storage.kv, c.t, c.filter, r.rows)
    ensures c.Count? ==> r.Counted? && C.CountIs(storage.kv, c.t, c.clause, r.count)
  {
    var reply := C.RunRead(storage, c);
    r := reply.value;
  }

  /** SELECT through the only index gives a row for every selected entry of a matching document. */
  method SelectThrough(storage: Storage, t: Table, idx: IndexDefinition, clause: WhereClause, ghost plan: IndexPlan, ghost entries: set<Entry>) returns (rows: seq<Document>)
    requires t.Valid() && AllCovered(storage.kv) && Catalog(storage.kv, t) == map[idx.name := idx]
    requires IndexRegion(storage.kv, t) == KeysFor(t, idx.name, entries) && forall e :: e in entries ==> |e.raws| == |idx.fields| && Utf8(e.id)
    requires PlanFits(plan, idx) && plan.covers && Candidate(idx, Conjuncts(clause)) == Some((plan.(covers := false), 1)) && |Conjuncts(clause)| == 1
    ensures RowsOf(Docs(storage.kv, t), rows) && |rows| == |HitsIn(Docs(storage.kv, t), Some(clause), PlanEntries(entries, idx, plan))|
  {
    ghost var kv := storage.kv;
    var r := Read(storage, C.Select(t, Some(clause)));
    rows := r.rows;
    ghost var defs :| Loaded(Catalog(kv, t), defs) && Selects(defs, Docs(kv, t), HoldingsOf(kv, t), Some(clause), rows);
    OnlyIndexChosen(defs, idx, clause);
    HeldAre(kv, t, idx, entries);
    SelectsMean(defs, Docs(kv, t), HoldingsOf(kv, t), Some(clause), rows);
  }

  /** Without an index COUNT and SELECT scan. */
  method CountByScan(storage: Storage, t: Table, clause: WhereClause) returns (count: nat)
    requires t.Valid() && AllCovered(storage.kv) && Catalog(storage.kv, t) == map[]
    ensures count == |Matching(Docs(storage.kv, t), Some(clause))|
  {
    ghost var kv := storage.kv;
    var r := Read(storage, C.Count(t, clause));
    count := r.count;
    ghost var defs :| Loaded(Catalog(kv, t), defs) && Counts(defs, Docs(kv, t), HoldingsOf(kv, t), clause, count);
    NoIndexes(defs);
  }

  method SelectByScan(storage: Storage, t: Table, clause: WhereClause) returns (rows: seq<Document>)
    requires t.Valid() && AllCovered(storage.kv) && Catalog(storage.kv, t) == map[]
    ensures RowsOf(Docs(storage.kv, t), rows) && |rows| == |Matching(Docs(storage.kv, t), Some(clause))|
  {
    ghost var kv := storage.kv;
    var r := Read(storage, C.Select(t, Some(clause)));
    rows := r.rows;
    ghost var defs :| Loaded(Catalog(kv, t), defs) && Selects(defs, Docs(kv, t), HoldingsOf(kv, t), Some(clause), rows);
    NoIndexes(defs);
    ScanRowsMean(Docs(kv, t), Some(clause), rows);
  }

  // -------------------------------------------------------------------------
  // An index that hides a document, and one that counts too many
  // -------------------------------------------------------------------------

  /** A document without the second field: SELECT finds it, and no longer does once an index on both fields is defined. */
  method IndexHidesDocument(t: Table, name: str, a: str, b: str, id: str) returns (before: seq<Document>, after: seq<Document>)
    requires t.Valid() && Segment(name) && Utf8(id) && a != b
    ensures before == [Document(id, map[a := Int(1)])] && after == []
  {
    var fields: Fields := map[a := Int(1)];
    var clause := Cmp(Field(a), CmpOp.Eq, LInt(1));
    var storage := OneDocument(t, id, fields);
    before := SelectByScan(storage, t, clause);
    assert Matching(map[id := fields], Some(clause)) == {id};
    assert before[0] in before;
    after := SelectHidden(storage, t, IndexDefinition(name, [a, b], false, BTree), id, a, b, clause);
  }

  method SelectHidden(storage: Storage, t: Table, idx: IndexDefinition, ghost id: str, a: str, b: str, clause: WhereClause) returns (after: seq<Document>)
    requires t.Valid() && Segment(idx.name) && a != b && idx == IndexDefinition(idx.name, [a, b], false, BTree) && clause == Cmp(Field(a), CmpOp.Eq, LInt(1))
    requires TableIs(storage.kv, t, map[id := map[a := Int(1)]], map[], {})
    modifies storage
    ensures after == []
  {
    ghost var docs: map<str, Fields> := map[id := map[a := Int(1)]];
    assert idx.fields[1] == b;
    assert D.Backfill(t, docs, idx) == {};
    DefineOn(storage, t, idx, docs, map[], {});
    FirstFieldCandidate(idx, clause, EqPlan(idx, Int(1)).(covers := false));
    after := SelectThrough(storage, t, idx, clause, EqPlan(idx, Int(1)), {});
    assert HitsIn(docs, Some(clause), PlanEntries({}, idx, EqPlan(idx, Int(1)))) == {};
  }

  /** `active > false` on an active document: COUNT says 0, and 1 once an index on the field is defined. */
  method IndexCountsTooMany(t: Table, name: str, a: str, id: str) returns (before: nat, after: nat)
    requires t.Valid() && Segment(name) && Utf8(id)
    ensures before == 0 && after == 1
  {
    var fields: Fields := map[a := Bool(true)];
    var clause := Cmp(Field(a), CmpOp.Gt, LBool(false));
    var storage := OneDocument(t, id, fields);
    before := CountByScan(storage, t, clause);
    assert Matching(map[id := fields], Some(clause)) == {};
    after := CountTrue(storage, t, IndexDefinition(name, [a], false, BTree), id, a, clause);
  }

  method CountTrue(storage: Storage, t: Table, idx: IndexDefinition, ghost id: str, a: str, clause: WhereClause) returns (after: nat)
    requires t.Valid() && Segment(idx.name) && Utf8(id) && idx == IndexDefinition(idx.name, [a], false, BTree) && clause == Cmp(Field(a), CmpOp.Gt, LBool(false))
    requires TableIs(storage.kv, t, map[id := map[a := Bool(true)]], map[], {})
    modifies storage
    ensures after == 1
  {
    ghost var docs: map<str, Fields> := map[id := map[a := Bool(true)]];
    OneEntry(t, idx, id, docs[id], Bool(true));
    DefineOn(storage, t, idx, docs, map[], {});
    TrueSelected(idx, id, a);
    after := CountThrough(storage, t, idx, clause, LowerPlan(idx, Bool(false), false), {EntryWith(Bool(true), id)});
  }

  // -------------------------------------------------------------------------
  // Leftover entries
  // -------------------------------------------------------------------------

  /** A table whose one document was rewritten by a batch: the index keeps the entry of the value it held before. */
  ghost predicate BothHeld(kv: Kv, t: Table, idx: IndexDefinition, id: str, a: str) {
    TableIs(kv, t, map[id := map[a := Int(2)]], map[idx.name := idx], KeysFor(t, idx.name, {EntryWith(Int(1), id), EntryWith(Int(2), id)}))
  }

  method Rewritten(t: Table, idx: IndexDefinition, id: str, a: str) returns (storage: Storage)
    requires t.Valid() && Segment(idx.name) && Utf8(id) && idx.kind.BTree? && idx.fields == [a]
    ensures fresh(storage) && BothHeld(storage.kv, t, idx, id, a)
  {
    storage := OneDocument(t, id, map[a := Int(1)]);
    OneEntry(t, idx, id, map[a := Int(1)], Int(1));
    assert D.Definable(t, map[id := map[a := Int(1)]], idx);
    DefineOn(storage, t, idx, map[id := map[a := Int(1)]], map[], {});
    Rewrite(storage, t, idx, id, a);
  }

  /** The batch that leaves the entry behind. */
  method Rewrite(storage: Storage, t: Table, idx: IndexDefinition, id: str, a: str)
    requires t.Valid() && Utf8(id) && idx.kind.BTree? && idx.fields == [a]
    requires TableIs(storage.kv, t, map[id := map[a := Int(1)]], map[idx.name := idx], KeysFor(t, idx.name, {EntryWith(Int(1), id)}))
    modifies storage
    ensures BothHeld(storage.kv, t, idx, id, a)
  {
    ghost var kv := storage.kv;
    var s := Create(t, Some(id), id, map[a := Int(2)], None);
    OneEntry(t, idx, id, map[a := Int(2)], Int(2));
    var r := X.ExecuteBatch(storage, [s]);
    B.PlainAlone(kv, t, s);
    BothListed(kv, storage.kv, t, idx, id, a);
  }

  /**
   After a batch has rewritten a document, SELECT returns it twice and COUNT counts
   it twice; the unique index refuses a document with the value it no longer
   holds; and once it is deleted, COUNT still counts one.
   */
  method LeftoversAnswer(t: Table, name: str, a: str, id: str, other: str) returns (rows: seq<Document>, count: nat, refused: bool, ghosts: nat)
    requires t.Valid() && Segment(name) && Utf8(id) && Utf8(other) && id != other
    ensures rows == [Document(id, map[a := Int(2)]), Document(id, map[a := Int(2)])] && count == 2
    ensures refused && ghosts == 1
  {
    var idx := IndexDefinition(name, [a], true, BTree);
    var storage := Rewritten(t, idx, id, a);
    rows, count := ReadTwice(storage, t, idx, id, a);
    refused := RefuseFree(storage, t, idx, id, a, other);
    ghosts := CountGhost(storage, t, idx, id, a);
  }

  method ReadTwice(storage: Storage, t: Table, idx: IndexDefinition, ghost id: str, a: str) returns (rows: seq<Document>, count: nat)
    requires t.Valid() && Utf8(id) && idx.kind.BTree? && idx.fields == [a] && BothHeld(storage.kv, t, idx, id, a)
    ensures rows == [Document(id, map[a := Int(2)]), Document(id, map[a := Int(2)])] && count == 2
  {
    var clause := Cmp(Field(a), CmpOp.Gte, LInt(0));
    TwiceSelected(idx, id, a);
    rows := SelectThrough(storage, t, idx, clause, LowerPlan(idx, Int(0), true), {EntryWith(Int(1), id), EntryWith(Int(2), id)});
    TwoRows(rows, id, map[a := Int(2)]);
    count := CountThrough(storage, t, idx, clause, LowerPlan(idx, Int(0), true), {EntryWith(Int(1), id), EntryWith(Int(2), id)});
  }

  /** The value 1 is free, yet a document with it is refused. */
  method RefuseFree(storage: Storage, t: Table, idx: IndexDefinition, ghost id: str, a: str, other: str) returns (refused: bool)
    requires t.Valid() && Utf8(id) && Utf8(other) && other != id && idx.kind.BTree? && idx.fields == [a] && idx.unique
    requires BothHeld(storage.kv, t, idx, id, a)
    modifies storage
    ensures refused && TupleFree(old(Docs(storage.kv, t)), old(Catalog(storage.kv, t)), other, map[a := Int(1)]) && storage.kv == old(storage.kv)
  {
    var s := Create(t, Some(other), other, map[a := Int(1)], None);
    NotAccepted(storage.kv, t, idx, id, a, s);
    var r := X.ExecCreate(storage, s);
    refused := r.Err?;
  }

  lemma NotAccepted(kv: Kv, t: Table, idx: IndexDefinition, id: str, a: str, s: Statement)
    requires Utf8(id) && idx.kind.BTree? && idx.fields == [a] && idx.unique && BothHeld(kv, t, idx, id, a)
    requires s.Create? && s.t == t && s.conflict.None? && TargetId(s) != id && s.fields == map[a := Int(1)]
    ensures !X.Accepted(kv, s) && TupleFree(Docs(kv, t), Catalog(kv, t), TargetId(s), s.fields)
  {
    HeldAre(kv, t, idx, {EntryWith(Int(1), id), EntryWith(Int(2), id)});
    FreeButClaimed(idx, id, TargetId(s), a, HeldBy(kv, t, idx));
    assert Catalog(kv, t)[idx.name] == idx;
    assert TupleClaimed(HoldingsOf(kv, t)(idx), idx, TargetId(s), s.fields);
  }

  /** With the document gone, COUNT of the value it held first is 1. */
  method CountGhost(storage: Storage, t: Table, idx: IndexDefinition, id: str, a: str) returns (ghosts: nat)
    requires t.Valid() && Utf8(id) && idx.kind.BTree? && idx.fields == [a] && BothHeld(storage.kv, t, idx, id, a)
    modifies storage
    ensures Docs(storage.kv, t) == map[] && ghosts == 1
  {
    ghost var kv := storage.kv;
    var existed := X.ExecDelete(storage, t, id);
    AfterDrop(kv, storage.kv, t, idx, id, a);
    OneSelected(idx, id, {EntryWith(Int(1), id)});
    ghosts := CountThrough(storage, t, idx, Cmp(Field(a), CmpOp.Eq, LInt(1)), EqPlan(idx, Int(1)), {EntryWith(Int(1), id)});
  }

  lemma AfterDrop(kv: Kv, kv': Kv, t: Table, idx: IndexDefinition, id: str, a: str)
    requires idx.kind.BTree? && idx.fields == [a] && BothHeld(kv, t, idx, id, a)
    requires Docs(kv', t) == Docs(kv, t) - {id} && Catalog(kv', t) == Catalog(kv, t) && LeftoversStay(kv, kv', t)
    ensures Docs(kv', t) == map[] && IndexRegion(kv', t) == KeysFor(t, idx.name, {EntryWith(Int(1), id)})
  {
    OneEntry(t, idx, id, map[a := Int(2)], Int(2));
    TwoKeys(t, idx.name, id);
    assert DerivedEntries(t, map[], map[idx.name := idx]) == {};
  }

  /** An index redefined on another field counts a value no document holds there. */
  method RedefinitionCounts(t: Table, name: str, a: str, b: str, id: str) returns (before: nat, after: nat)
    requires t.Valid() && Segment(name) && Utf8(id) && a != b
    ensures before == 0 && after == 1
  {
    var fields: Fields := map[a := Int(1), b := Int(2)];
    var clause := Cmp(Field(b), CmpOp.Eq, LInt(1));
    var storage := OneDocument(t, id, fields);
    before := CountByScan(storage, t, clause);
    NoneHolds(id, a, b);
    after := CountRedefined(storage, t, name, a, b, id, clause);
  }

  method CountRedefined(storage: Storage, t: Table, name: str, a: str, b: str, ghost id: str, clause: WhereClause) returns (after: nat)
    requires t.Valid() && Segment(name) && Utf8(id) && a != b && clause == Cmp(Field(b), CmpOp.Eq, LInt(1))
    requires TableIs(storage.kv, t, map[id := map[a := Int(1), b := Int(2)]], map[], {})
    modifies storage
    ensures after == 1
  {
    ghost var fields: Fields := map[a := Int(1), b := Int(2)];
    var second := IndexDefinition(name, [b], false, BTree);
    DefineTwice(storage, t, IndexDefinition(name, [a], false, BTree), second, id, fields);
    OneSelected(second, id, {EntryWith(Int(1), id), EntryWith(Int(2), id)});
    after := CountThrough(storage, t, second, clause, EqPlan(second, Int(1)), {EntryWith(Int(1), id), EntryWith(Int(2), id)});
  }

  /** Two definitions under one name: the entries of both stay. */
  method DefineTwice(storage: Storage, t: Table, first: IndexDefinition, second: IndexDefinition, ghost id: str, ghost fields: Fields)
    requires t.Valid() && Segment(first.name) && first.name == second.name && first.kind.BTree? && second.kind.BTree? && !first.unique && !second.unique
    requires |first.fields| == 1 && |second.fields| == 1 && first.fields[0] in fields && second.fields[0] in fields
    requires fields[first.fields[0]] == Int(1) && fields[second.fields[0]] == Int(2)
    requires TableIs(storage.kv, t, map[id := fields], map[], {})
    modifies storage
    ensures TableIs(storage.kv, t, map[id := fields], map[second.name := second], KeysFor(t, second.name, {EntryWith(Int(1), id), EntryWith(Int(2), id)}))
  {
    OneEntry(t, first, id, fields, Int(1));
    OneEntry(t, second, id, fields, Int(2));
    DefineOn(storage, t, first, map[id := fields], map[], {});
    assert map[first.name := first][second.name := second] == map[second.name := second];
    DefineOn(storage, t, second, map[id := fields], map[first.name := first], KeysFor(t, first.name, {EntryWith(Int(1), id)}));
    KeysUnion(t, second.name, EntryWith(Int(1), id), EntryWith(Int(2), id));
  }

  // -------------------------------------------------------------------------
  // Two documents with one unique tuple
  // -------------------------------------------------------------------------

  /** An UPDATE gives a document the unique value of another. */
  method UpdateShares(t: Table, name: str, a: str, id: str, other: str) returns (storage: Storage, r: Result<nat>)
    requires t.Valid() && Segment(name) && Utf8(id) && Utf8(other) && id != other
    ensures r == Ok(1) && Catalog(storage.kv, t) == map[name := IndexDefinition(name, [a], true, BTree)]
    ensures Docs(storage.kv, t) == map[id := map[a := Int(1)], other := map[a := Int(1)]] && !UniqueHolds(Docs(storage.kv, t), Catalog(storage.kv, t))
  {
    var idx := IndexDefinition(name, [a], true, BTree);
    storage := TwoDocuments(t, idx, id, other, a);
    r := X.ExecUpdateRecord(storage, t, other, map[a := Int(1)]);
    SharedNow(t, idx, id, other, a);
  }

  method TwoDocuments(t: Table, idx: IndexDefinition, id: str, other: str, a: str) returns (storage: Storage)
    requires t.Valid() && idx == IndexDefinition(idx.name, [a], true, BTree) && Segment(idx.name) && Utf8(id) && Utf8(other) && id != other
    ensures fresh(storage) && AllCovered(storage.kv)
    ensures Docs(storage.kv, t) == map[id := map[a := Int(1)], other := map[a := Int(2)]] && Catalog(storage.kv, t) == map[idx.name := idx]
  {
    storage := OneDocument(t, id, map[a := Int(1)]);
    var s := Create(t, Some(other), other, map[a := Int(2)], None);
    assert X.Accepted(storage.kv, s);
    var created := X.ExecCreate(storage, s);
    BothDefinable(t, idx, id, other, a);
    DefineOn(storage, t, idx, map[id := map[a := Int(1)], other := map[a := Int(2)]], map[], IndexRegion(storage.kv, t));
  }

  lemma BothDefinable(t: Table, idx: IndexDefinition, id: str, other: str, a: str)
    requires idx == IndexDefinition(idx.name, [a], true, BTree) && id != other
    ensures D.Definable(t, map[id := map[a := Int(1)], other := map[a := Int(2)]], idx)
  {
    OneEntry(t, idx, id, map[a := Int(1)], Int(1));
    OneEntry(t, idx, other, map[a := Int(2)], Int(2));
    NotShared(idx, a);
  }

  lemma SharedNow(t: Table, idx: IndexDefinition, id: str, other: str, a: str)
    requires idx == IndexDefinition(idx.name, [a], true, BTree) && id != other
    ensures var one: Fields, two: Fields := map[a := Int(1)], map[a := Int(2)];
      && two + one == one && X.Fits(t, map[idx.name := idx], other, two + one)
      && map[id := one, other := two][other := one] == map[id := one, other := one]
      && !UniqueHolds(map[id := one, other := one], map[idx.name := idx])
  {
    var one: Fields, two: Fields := map[a := Int(1)], map[a := Int(2)];
    assert two + one == one;
    OneEntry(t, idx, other, one, Int(1));
    assert TupleOf(one, idx.fields) == [Int(1)];
    EncodeOne(Int(1));
    var docs: map<str, Fields> := map[id := one, other := one];
    assert SharesTuple(idx, one, docs[other]);
    assert Taken(docs, idx, id, docs[id]);
    assert map[idx.name := idx][idx.name].unique;
  }
}
