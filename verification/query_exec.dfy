/**
 Index-backed SELECT, COUNT and DELETE WHERE (crates/query/src/executor.rs):
 the index path against scan-and-filter.
 */
module QueryExec {
  import opened Bytes
  import opened Wrappers
  import opened Records
  import opened Keys
  import opened StorageModel
  import opened IndexEncoding
  import opened IndexScan
  import opened IndexState
  import opened IndexTransitions
  import opened CollectionModel
  import opened Planner

  // -------------------------------------------------------------------------
  // The scan-and-filter answer
  // -------------------------------------------------------------------------

  predicate Keeps(filter: Option<WhereClause>, doc: Fields) {
    filter.Some? ==> MatchesWhere(doc, filter.value)
  }

  /** Ids of the documents that satisfy the filter. */
  ghost function Matching(docs: map<str, Fields>, filter: Option<WhereClause>): set<str> {
    set id | id in docs && Keeps(filter, docs[id])
  }

  function IdsOf(rows: seq<Document>): set<str> {
    set d | d in rows :: d.id
  }

  ghost predicate DistinctIds(rows: seq<Document>) {
    forall i, j :: 0 <= i < j < |rows| ==> rows[i].id != rows[j].id
  }

  /** Every row is a stored document. */
  ghost predicate RowsOf(docs: map<str, Fields>, rows: seq<Document>) {
    forall d :: d in rows ==> d.id in docs && docs[d.id] == d.fields
  }

  // -------------------------------------------------------------------------
  // What an access returns, on any index region
  // -------------------------------------------------------------------------

  /** The plan and index a filtered read goes through; `None` for a scan. */
  ghost function Access(indexes: seq<IndexDefinition>, filter: Option<WhereClause>): Option<(IndexPlan, IndexDefinition)> {
    if filter.None? then None else Choice(indexes, filter.value)
  }

  /** The entries a plan selects. */
  ghost function PlanEntries(held: set<Entry>, idx: IndexDefinition, plan: IndexPlan): set<Entry>
    requires PlanFits(plan, idx)
  {
    SelectedEntries(held, |idx.fields|, EncodeAll(plan.eq).value, RawBound(plan.lower), RawBound(plan.upper))
  }

  /** Those that name a document the filter accepts. */
  ghost function HitsIn(docs: map<str, Fields>, filter: Option<WhereClause>, entries: set<Entry>): set<Entry> {
    set e | e in entries && e.id in Matching(docs, filter)
  }

  ghost function FoundIds(entries: set<Entry>): set<str> {
    set e | e in entries :: e.id
  }

  /** The row an entry leads to, if its document is stored and accepted. */
  function RowOf(docs: map<str, Fields>, filter: Option<WhereClause>, id: str): seq<Document> {
    if id in docs && Keeps(filter, docs[id]) then [Document(id, docs[id])] else []
  }

  /** One row for every entry that leads to an accepted document, in entry order. */
  function HitRows(docs: map<str, Fields>, filter: Option<WhereClause>, found: seq<Entry>): seq<Document> {
    if found == [] then [] else HitRows(docs, filter, found[..|found| - 1]) + RowOf(docs, filter, found[|found| - 1].id)
  }

  /** Every accepted document once, in id order. */
  ghost predicate ScanRows(docs: map<str, Fields>, filter: Option<WhereClause>, rows: seq<Document>) {
    && (forall d :: d in rows <==> d.id in docs && docs[d.id] == d.fields && Keeps(filter, d.fields))
    && (forall i, j :: 0 <= i < j < |rows| ==> Bytes.Lt(rows[i].id, rows[j].id))
  }

  ghost predicate IndexRows(docs: map<str, Fields>, filter: Option<WhereClause>, entries: set<Entry>, rows: seq<Document>) {
    exists found :: Lists(found, entries) && rows == HitRows(docs, filter, found)
  }

  /** The rows of a SELECT without ORDER BY and LIMIT, to the last repetition. */
  ghost predicate Selects(indexes: seq<IndexDefinition>, docs: map<str, Fields>, held: Holdings, filter: Option<WhereClause>, rows: seq<Document>) {
    match Access(indexes, filter)
    case None => ScanRows(docs, filter, rows)
    case Some((plan, idx)) => PlanFits(plan, idx) && IndexRows(docs, filter, PlanEntries(held(idx), idx, plan), rows)
  }

  /** `ids` are those of the rows: all matching documents after a scan, and through an index those that a selected entry names. */
  ghost predicate Answers(indexes: seq<IndexDefinition>, docs: map<str, Fields>, held: Holdings, filter: Option<WhereClause>, ids: set<str>) {
    match Access(indexes, filter)
    case None => ids == Matching(docs, filter)
    case Some((plan, idx)) => PlanFits(plan, idx) && ids == FoundIds(HitsIn(docs, filter, PlanEntries(held(idx), idx, plan)))
  }

  /** What COUNT returns: a covering plan counts the entries it selects, any other access its rows. */
  ghost predicate Counts(indexes: seq<IndexDefinition>, docs: map<str, Fields>, held: Holdings, clause: WhereClause, count: nat) {
    match Choice(indexes, clause)
    case None => count == |Matching(docs, Some(clause))|
    case Some((plan, idx)) =>
      && PlanFits(plan, idx)
      && count == if plan.covers then |PlanEntries(held(idx), idx, plan)| else |HitsIn(docs, Some(clause), PlanEntries(held(idx), idx, plan))|
  }

  lemma {:induction false} HitRowsMean(docs: map<str, Fields>, filter: Option<WhereClause>, found: seq<Entry>, entries: set<Entry>)
    requires Lists(found, entries)
    ensures RowsOf(docs, HitRows(docs, filter, found)) && IdsOf(HitRows(docs, filter, found)) == FoundIds(HitsIn(docs, filter, entries))
    ensures |HitRows(docs, filter, found)| == |HitsIn(docs, filter, entries)|
    decreases |found|
  {
    if found == [] {
      assert HitsIn(docs, filter, entries) == {};
    } else {
      var init, last := found[..|found| - 1], found[|found| - 1];
      ListsInit(found, entries);
      HitRowsMean(docs, filter, init, entries - {last});
      HitsSplit(docs, filter, entries, last);
      IdsOfAppend(HitRows(docs, filter, init), RowOf(docs, filter, last.id));
    }
  }

  lemma ListsInit(found: seq<Entry>, entries: set<Entry>)
    requires found != [] && Lists(found, entries)
    ensures found[|found| - 1] in entries && Lists(found[..|found| - 1], entries - {found[|found| - 1]})
  {
    var init, last := found[..|found| - 1], found[|found| - 1];
    assert found == init + [last];
    forall i | 0 <= i < |init| ensures init[i] != last { ListedOnce(found, entries, i, |found| - 1); }
  }

  lemma IdsOfAppend(a: seq<Document>, b: seq<Document>)
    ensures IdsOf(a + b) == IdsOf(a) + IdsOf(b)
  {
  }

  /** Taking one entry away. */
  lemma HitsSplit(docs: map<str, Fields>, filter: Option<WhereClause>, entries: set<Entry>, e: Entry)
    requires e in entries
    ensures var hits, fewer := HitsIn(docs, filter, entries), HitsIn(docs, filter, entries - {e});
      && FoundIds(hits) == FoundIds(fewer) + IdsOf(RowOf(docs, filter, e.id))
      && |hits| == |fewer| + |RowOf(docs, filter, e.id)|
  {
    var hits, fewer := HitsIn(docs, filter, entries), HitsIn(docs, filter, entries - {e});
    if e.id in Matching(docs, filter) {
      assert hits == fewer + {e};
      assert RowOf(docs, filter, e.id)[0] in RowOf(docs, filter, e.id);
    } else {
      assert hits == fewer;
    }
  }

  lemma {:induction false} RowCount(rows: seq<Document>)
    requires DistinctIds(rows)
    ensures |IdsOf(rows)| == |rows|
  {
    if rows != [] {
      var init, last := rows[..|rows| - 1], rows[|rows| - 1];
      RowCount(init);
      assert rows == init + [last];
      assert IdsOf(rows) == IdsOf(init) + {last.id};
    }
  }

  lemma ScanRowsMean(docs: map<str, Fields>, filter: Option<WhereClause>, rows: seq<Document>)
    requires ScanRows(docs, filter, rows)
    ensures RowsOf(docs, rows) && DistinctIds(rows) && IdsOf(rows) == Matching(docs, filter) && |rows| == |Matching(docs, filter)|
  {
    forall i, j | 0 <= i < j < |rows| ensures rows[i].id != rows[j].id { LtIrreflexive(rows[i].id); }
    forall id | id in Matching(docs, filter) ensures id in IdsOf(rows) { assert Document(id, docs[id]) in rows; }
    assert IdsOf(rows) == Matching(docs, filter);
    RowCount(rows);
  }

  /** The rows of a SELECT are stored documents, their ids answer the filter, and their number is what COUNT gives without a covering plan. */
  lemma SelectsMean(indexes: seq<IndexDefinition>, docs: map<str, Fields>, held: Holdings, filter: Option<WhereClause>, rows: seq<Document>)
    requires Selects(indexes, docs, held, filter, rows)
    ensures RowsOf(docs, rows) && Answers(indexes, docs, held, filter, IdsOf(rows))
    ensures match Access(indexes, filter)
      case None => DistinctIds(rows) && |rows| == |Matching(docs, filter)|
      case Some((plan, idx)) => |rows| == |HitsIn(docs, filter, PlanEntries(held(idx), idx, plan))|
  {
    match Access(indexes, filter)
    case None => ScanRowsMean(docs, filter, rows);
    case Some((plan, idx)) =>
      var entries := PlanEntries(held(idx), idx, plan);
      var found :| Lists(found, entries) && rows == HitRows(docs, filter, found);
      HitRowsMean(docs, filter, found, entries);
  }

  // -------------------------------------------------------------------------
  // Execution
  // -------------------------------------------------------------------------

  /** `run_index_plan` on one of the collection's indexes. */
  method RunIndexPlan(coll: Collection, plan: IndexPlan, ghost idx: IndexDefinition) returns (ids: seq<str>, ghost found: seq<Entry>)
    requires PlanFits(plan, idx)
    ensures Lists(found, PlanEntries(coll.Held()(idx), idx, plan)) && SameIds(found, ids)
  {
    var r;
    r, found := FindIds(coll.storage, coll.t, plan.indexName, plan.eq, plan.lower, plan.upper, plan.fieldCount);
    ids := r.value;
  }

  /** The rows that pass the filter. */
  function Kept(filter: Option<WhereClause>, docs: seq<Document>): seq<Document> {
    if docs == [] then []
    else
      var last := docs[|docs| - 1];
      Kept(filter, docs[..|docs| - 1]) + (if Keeps(filter, last.fields) then [last] else [])
  }

  lemma KeptAppend(filter: Option<WhereClause>, docs: seq<Document>, d: Document)
    ensures Kept(filter, docs + [d]) == Kept(filter, docs) + (if Keeps(filter, d.fields) then [d] else [])
  {
    assert (docs + [d])[..|docs|] == docs;
  }

  /** Fetching the found ids and filtering gives one row per hit. */
  lemma {:induction false} KeptHits(docs: map<str, Fields>, filter: Option<WhereClause>, found: seq<Entry>, ids: seq<str>)
    requires SameIds(found, ids)
    ensures Kept(filter, Fetched(docs, ids)) == HitRows(docs, filter, found)
  {
    if found != [] {
      var n := |found| - 1;
      KeptHits(docs, filter, found[..n], ids[..n]);
      var before := Fetched(docs, ids[..n]);
      if ids[n] in docs {
        assert Fetched(docs, ids) == before + [Document(ids[n], docs[ids[n]])];
        KeptAppend(filter, before, Document(ids[n], docs[ids[n]]));
      } else {
        assert Fetched(docs, ids) == before;
      }
    }
  }

  lemma {:induction false} KeptScan(filter: Option<WhereClause>, docs: seq<Document>)
    requires forall i, j :: 0 <= i < j < |docs| ==> Bytes.Lt(docs[i].id, docs[j].id)
    ensures forall d :: d in Kept(filter, docs) <==> d in docs && Keeps(filter, d.fields)
    ensures forall i, j :: 0 <= i < j < |Kept(filter, docs)| ==> Bytes.Lt(Kept(filter, docs)[i].id, Kept(filter, docs)[j].id)
  {
    if docs != [] {
      var n := |docs| - 1;
      var init := docs[..n];
      KeptScan(filter, init);
      assert docs == init + [docs[n]];
      forall d | d in Kept(filter, init) ensures Bytes.Lt(d.id, docs[n].id) {
        var i :| 0 <= i < n && init[i] == d;
        assert docs[i] == d;
      }
    }
  }

  /** What a filtered read looks at and keeps: through the chosen index, or a scan when no index applies. */
  ghost predicate Offered(coll: Collection, filter: Option<WhereClause>, docs: seq<Document>)
    reads coll.storage
  {
    Selects(coll.indexes, coll.Stored(), coll.Held(), filter, Kept(filter, docs))
  }

  method Candidates(coll: Collection, filter: Option<WhereClause>) returns (docs: seq<Document>)
    requires coll.Ready()
    ensures Offered(coll, filter, docs)
  {
    if filter.Some? {
      var p, b := PlanIndexLookup(coll.indexes, filter.value);
      if p.Some? {
        ghost var idx := coll.indexes[b];
        var ids, found := RunIndexPlan(coll, p.value, idx);
        docs := coll.GetMany(ids);
        KeptHits(coll.Stored(), filter, found, ids);
        assert IndexRows(coll.Stored(), filter, PlanEntries(coll.Held()(idx), idx, p.value), Kept(filter, docs));
        return;
      }
    }
    var all := coll.ScanAll();
    docs := all.value;
    KeptScan(filter, docs);
  }

  /**
   SELECT over a table without ORDER BY and LIMIT. After a scan each matching
   document comes once, in id order; through an index there is one row for every
   selected entry that names a matching document, in entry order.
   */
  method SelectWhere(coll: Collection, filter: Option<WhereClause>) returns (rows: seq<Document>)
    requires coll.Ready()
    ensures Selects(coll.indexes, coll.Stored(), coll.Held(), filter, rows)
    ensures RowsOf(coll.Stored(), rows) && Answers(coll.indexes, coll.Stored(), coll.Held(), filter, IdsOf(rows))
  {
    var docs := Candidates(coll, filter);
    rows := [];
    for i := 0 to |docs|
      invariant rows == Kept(filter, docs[..i])
    {
      assert docs[..i + 1] == docs[..i] + [docs[i]];
      KeptAppend(filter, docs[..i], docs[i]);
      if filter.None? || MatchesWhere(docs[i].fields, filter.value) {
        rows := rows + [docs[i]];
      }
    }
    assert docs[..|docs|] == docs;
    SelectsMean(coll.indexes, coll.Stored(), coll.Held(), filter, rows);
  }

  /** COUNT with a filter; a covering plan counts index entries without reading documents. */
  method ExecCount(coll: Collection, clause: WhereClause) returns (count: nat)
    requires coll.Ready()
    ensures Counts(coll.indexes, coll.Stored(), coll.Held(), clause, count)
  {
    var p, b := PlanIndexLookup(coll.indexes, clause);
    if p.Some? && p.value.covers {
      ghost var idx := coll.indexes[b];
      var ids, found := RunIndexPlan(coll, p.value, idx);
      ListedSize(found, PlanEntries(coll.Held()(idx), idx, p.value));
      return |ids|;
    }
    var rows := SelectWhere(coll, Some(clause));
    SelectsMean(coll.indexes, coll.Stored(), coll.Held(), Some(clause), rows);
    return |rows|;
  }

  /** Every other table is as it was. */
  ghost predicate OthersSame(kv: Kv, kv': Kv, t: Table) {
    forall t': Table :: t'.Valid() && t' != t ==> SameTable(kv, kv', t')
  }

  lemma OthersSameStep(kv: Kv, kv': Kv, kv'': Kv, t: Table, id: str)
    requires t.Valid() && OthersSame(kv, kv', t) && ChangedOnly(kv', kv'', t, id)
    ensures OthersSame(kv, kv'', t)
    ensures GraphSame(kv, kv') ==> GraphSame(kv, kv'')
  {
    forall t': Table | t'.Valid() && t' != t ensures SameTable(kv, kv'', t') {
      OtherTableFrame(kv', kv'', t, id, t');
      SameTableTransitive(kv, kv', kv'', t');
    }
    DocumentWriteKeepsEdges(kv', kv'', t, id);
    if GraphSame(kv, kv') { GraphSameTransitive(kv, kv', kv''); }
  }

  /** The documents `gone` and their entries were removed from a table, and nothing else. */
  ghost predicate Dropped(kv: Kv, kv': Kv, t: Table, gone: set<str>) {
    && Covered(kv', t) && (Consistent(kv, t) ==> Consistent(kv', t))
    && Docs(kv', t) == Docs(kv, t) - gone && Catalog(kv', t) == Catalog(kv, t)
    && OthersSame(kv, kv', t) && GraphSame(kv, kv') && LeftoversStay(kv, kv', t)
  }

  lemma NoneDropped(kv: Kv, t: Table)
    requires Covered(kv, t)
    ensures Dropped(kv, kv, t, {})
  {
    NothingMoves(kv, t);
    forall k: Key ensures SameAt(kv, kv, k) {}
  }

  lemma DroppedNext(kv: Kv, mid: Kv, kv': Kv, t: Table, gone: set<str>, id: str)
    requires t.Valid() && Dropped(kv, mid, t, gone) && ChangedOnly(mid, kv', t, id) && LeftoversStay(mid, kv', t)
    requires Covered(kv', t) && (Consistent(mid, t) ==> Consistent(kv', t)) && Docs(kv', t) == Docs(mid, t) - {id} && Catalog(kv', t) == Catalog(mid, t)
    ensures Dropped(kv, kv', t, gone + {id})
  {
    OthersSameStep(kv, mid, kv', t, id);
    LeftoversStayOn(kv, mid, kv', t);
    assert Docs(kv, t) - gone - {id} == Docs(kv, t) - (gone + {id});
  }

  lemma NextRow(rows: seq<Document>, i: nat)
    requires i < |rows|
    ensures IdsOf(rows[..i + 1]) == IdsOf(rows[..i]) + {rows[i].id}
    ensures |IdsOf(rows[..i + 1])| == |IdsOf(rows[..i])| + (if rows[i].id in IdsOf(rows[..i]) then 0 else 1)
  {
    assert rows[..i + 1] == rows[..i] + [rows[i]];
    if rows[i].id in IdsOf(rows[..i]) { assert IdsOf(rows[..i]) + {rows[i].id} == IdsOf(rows[..i]); }
  }

  method DeleteRows(coll: Collection, rows: seq<Document>) returns (count: nat)
    requires coll.Ready() && RowsOf(coll.Stored(), rows)
    modifies coll.storage
    ensures coll.Ready() && Dropped(old(coll.storage.kv), coll.storage.kv, coll.t, IdsOf(rows)) && count == |IdsOf(rows)|
  {
    ghost var kv := coll.storage.kv;
    count := 0;
    NoneDropped(kv, coll.t);
    assert IdsOf(rows[..0]) == {};
    for i := 0 to |rows|
      invariant coll.Ready() && Dropped(kv, coll.storage.kv, coll.t, IdsOf(rows[..i]))
      invariant count == |IdsOf(rows[..i])|
    {
      var id := rows[i].id;
      assert rows[i] in rows;
      NextRow(rows, i);
      ghost var mid := coll.storage.kv;
      var existed := coll.Delete(id);
      DroppedNext(kv, mid, coll.storage.kv, coll.t, IdsOf(rows[..i]), id);
      if existed.value {
        count := count + 1;
      }
    }
    assert rows[..|rows|] == rows;
  }

  /** DELETE WHERE removes the answer to the filter and counts it. */
  method ExecDeleteWhere(coll: Collection, filter: Option<WhereClause>) returns (count: nat, ghost removed: set<str>)
    requires coll.Ready()
    modifies coll.storage
    ensures coll.Ready() && Dropped(old(coll.storage.kv), coll.storage.kv, coll.t, removed) && count == |removed|
    ensures Answers(coll.indexes, old(coll.Stored()), old(coll.Held()), filter, removed)
  {
    var rows := SelectWhere(coll, filter);
    removed := IdsOf(rows);
    count := DeleteRows(coll, rows);
  }
}
