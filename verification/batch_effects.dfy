/**
 What an accepted batch leaves behind, whatever its statements: the last one to
 target a document wins, every derived entry is stored, and the index invariant
 survives exactly when no entry goes stale.
 */
module BatchEffects {
  import opened Bytes
  import opened Records
  import opened Keys
  import opened StorageModel
  import opened IndexState
  import opened IndexTransitions
  import opened CollectionModel
  import opened Batch
  import E = Edges

  predicate Targets(s: Statement, t: Table, id: str) {
    s.Create? && s.t == t && TargetId(s) == id
  }

  /** The statement merges into a stored document and deletes its entries. */
  predicate Replaces(kv: Kv, s: Statement) {
    s.Create? && s.conflict.Some? && TargetId(s) in Docs(kv, s.t)
  }

  /** The fields a statement stores. */
  function Stores(kv: Kv, s: Statement): Fields
    requires s.Create?
  {
    if Replaces(kv, s) then Docs(kv, s.t)[TargetId(s)] + s.conflict.value else s.fields
  }

  /** The entries it writes. */
  function EntriesOf(kv: Kv, s: Statement): set<Key>
    requires s.Create?
  {
    DocEntries(kv, s.t, TargetId(s), Stores(kv, s))
  }

  /** The last statement that targets a document, -1 when there is none. */
  function LastOf(stmts: seq<Statement>, t: Table, id: str): (i: int)
    ensures -1 <= i < |stmts|
    ensures i >= 0 ==> Targets(stmts[i], t, id)
    ensures forall k :: i < k < |stmts| ==> !Targets(stmts[k], t, id)
  {
    if stmts == [] then -1
    else if Targets(stmts[|stmts| - 1], t, id) then |stmts| - 1
    else
      assert forall k :: 0 <= k < |stmts| - 1 ==> stmts[..|stmts| - 1][k] == stmts[k];
      LastOf(stmts[..|stmts| - 1], t, id)
  }

  ghost predicate AllValid(stmts: seq<Statement>) {
    forall s :: s in stmts ==> ValidStatement(s)
  }

  ghost predicate AllOk(kv: Kv, stmts: seq<Statement>) {
    forall s :: s in stmts ==> StmtOk(kv, s)
  }

  function AfterBatch(kv: Kv, stmts: seq<Statement>): Kv {
    Apply(kv, Merged(kv, stmts))
  }

  // -------------------------------------------------------------------------
  // Which keys a statement touches
  // -------------------------------------------------------------------------

  lemma StatementDoc(kv: Kv, s: Statement, t: Table, id: str)
    requires t.Valid() && ValidStatement(s)
    ensures DocumentKey(t, id) in StmtDelta(kv, s).puts <==> Targets(s, t, id)
    ensures Targets(s, t, id) ==> StmtDelta(kv, s).puts[DocumentKey(t, id)] == FieldsBlob(Stores(kv, s))
    ensures DocumentKey(t, id) !in StmtDelta(kv, s).dels
  {
    var k, p := DocumentKey(t, id), TablePrefix(t, DOCUMENT);
    assert k[|p|..] == id;
    match s
    case Create(t', _, _, _, _) =>
      var id' := TargetId(s);
      OutsideEntries(kv, t', id', Stores(kv, s), t, DOCUMENT, k);
      if Replaces(kv, s) { OutsideEntries(kv, t', id', Docs(kv, t')[id'], t, DOCUMENT, k); }
      if k == DocumentKey(t', id') {
        RegionsDisjoint(t, DOCUMENT, t', DOCUMENT, k);
        assert DocumentKey(t', id')[|p|..] == id';
      }
    case Relate(t', e, _) =>
      E.DirKeys(t', e);
      if TablePrefix(t', GRAPH_EDGE) <= k { RegionsDisjoint(t', GRAPH_EDGE, t, DOCUMENT, k); }
    case Unsupported =>
  }

  lemma OutsideEntries(kv: Kv, t': Table, id': str, f: Fields, t: Table, tag: byte, k: Key)
    requires t.Valid() && t'.Valid() && tag in {DOCUMENT, METADATA, GRAPH_EDGE} && TablePrefix(t, tag) <= k
    ensures k !in DocEntries(kv, t', id', f)
  {
    if k in DocEntries(kv, t', id', f) {
      DocEntryInRegion(kv, t', id', f, k);
      RegionsDisjoint(t', INDEX, t, tag, k);
    }
  }

  lemma StatementMeta(kv: Kv, s: Statement, t: Table, k: Key)
    requires t.Valid() && ValidStatement(s) && TablePrefix(t, METADATA) <= k
    ensures k !in StmtDelta(kv, s).puts && k !in StmtDelta(kv, s).dels
  {
    match s
    case Create(t', _, _, _, _) =>
      var id' := TargetId(s);
      OutsideEntries(kv, t', id', Stores(kv, s), t, METADATA, k);
      if Replaces(kv, s) { OutsideEntries(kv, t', id', Docs(kv, t')[id'], t, METADATA, k); }
      if k == DocumentKey(t', id') { RegionsDisjoint(t, METADATA, t', DOCUMENT, k); }
    case Relate(t', e, _) =>
      E.DirKeys(t', e);
      if TablePrefix(t', GRAPH_EDGE) <= k { RegionsDisjoint(t', GRAPH_EDGE, t, METADATA, k); }
    case Unsupported =>
  }

  /** Statement `i` writes the entry. */
  ghost predicate PutBy(kv: Kv, stmts: seq<Statement>, i: int, t: Table, k: Key) {
    0 <= i < |stmts| && stmts[i].Create? && stmts[i].t == t && k in EntriesOf(kv, stmts[i])
  }

  /** Statement `i` deletes the entry of the document stored before. */
  ghost predicate DroppedBy(kv: Kv, stmts: seq<Statement>, i: int, t: Table, k: Key) {
    0 <= i < |stmts| && Replaces(kv, stmts[i]) && stmts[i].t == t && k in DocEntries(kv, t, TargetId(stmts[i]), Docs(kv, t)[TargetId(stmts[i])])
  }

  lemma StatementEntry(kv: Kv, s: Statement, t: Table, k: Key)
    requires t.Valid() && ValidStatement(s) && TablePrefix(t, INDEX) <= k
    ensures k in StmtDelta(kv, s).puts <==> PutBy(kv, [s], 0, t, k)
    ensures k in StmtDelta(kv, s).puts ==> StmtDelta(kv, s).puts[k] == Empty
    ensures k in StmtDelta(kv, s).dels <==> DroppedBy(kv, [s], 0, t, k)
  {
    match s
    case Create(t', _, _, _, _) =>
      var id' := TargetId(s);
      if k == DocumentKey(t', id') { RegionsDisjoint(t, INDEX, t', DOCUMENT, k); }
      EntryOfTable(kv, t', id', Stores(kv, s), t, k);
      if Replaces(kv, s) { EntryOfTable(kv, t', id', Docs(kv, t')[id'], t, k); }
    case Relate(t', e, _) =>
      E.DirKeys(t', e);
      if TablePrefix(t', GRAPH_EDGE) <= k { RegionsDisjoint(t', GRAPH_EDGE, t, INDEX, k); }
    case Unsupported =>
  }

  lemma EntryOfTable(kv: Kv, t': Table, id': str, f: Fields, t: Table, k: Key)
    requires t.Valid() && t'.Valid() && TablePrefix(t, INDEX) <= k
    ensures k in DocEntries(kv, t', id', f) ==> t' == t
  {
    if k in DocEntries(kv, t', id', f) {
      DocEntryInRegion(kv, t', id', f, k);
      RegionsDisjoint(t', INDEX, t, INDEX, k);
    }
  }

  // -------------------------------------------------------------------------
  // Which keys a batch touches
  // -------------------------------------------------------------------------

  lemma {:induction false} MergedDoc(kv: Kv, stmts: seq<Statement>, t: Table, id: str)
    requires t.Valid() && AllValid(stmts)
    ensures DocumentKey(t, id) in Merged(kv, stmts).puts <==> LastOf(stmts, t, id) >= 0
    ensures LastOf(stmts, t, id) >= 0 ==> Merged(kv, stmts).puts[DocumentKey(t, id)] == FieldsBlob(Stores(kv, stmts[LastOf(stmts, t, id)]))
    ensures DocumentKey(t, id) !in Merged(kv, stmts).dels
  {
    if stmts != [] {
      var init, last := stmts[..|stmts| - 1], stmts[|stmts| - 1];
      assert last in stmts && forall s :: s in init ==> s in stmts;
      MergedDoc(kv, init, t, id);
      StatementDoc(kv, last, t, id);
    }
  }

  lemma {:induction false} MergedMeta(kv: Kv, stmts: seq<Statement>, t: Table, k: Key)
    requires t.Valid() && AllValid(stmts) && TablePrefix(t, METADATA) <= k
    ensures k !in Merged(kv, stmts).puts && k !in Merged(kv, stmts).dels
  {
    if stmts != [] {
      var init, last := stmts[..|stmts| - 1], stmts[|stmts| - 1];
      assert last in stmts && forall s :: s in init ==> s in stmts;
      MergedMeta(kv, init, t, k);
      StatementMeta(kv, last, t, k);
    }
  }

  lemma {:induction false} MergedEntry(kv: Kv, stmts: seq<Statement>, t: Table, k: Key)
    requires t.Valid() && AllValid(stmts) && TablePrefix(t, INDEX) <= k
    ensures k in Merged(kv, stmts).puts <==> exists i :: PutBy(kv, stmts, i, t, k)
    ensures k in Merged(kv, stmts).puts ==> Merged(kv, stmts).puts[k] == Empty
    ensures k in Merged(kv, stmts).dels <==> exists i :: DroppedBy(kv, stmts, i, t, k)
  {
    if stmts != [] {
      var n := |stmts| - 1;
      var init, last := stmts[..n], stmts[n];
      assert last in stmts && forall s :: s in init ==> s in stmts;
      MergedEntry(kv, init, t, k);
      StatementEntry(kv, last, t, k);
      assert PutBy(kv, [last], 0, t, k) <==> PutBy(kv, stmts, n, t, k);
      assert DroppedBy(kv, [last], 0, t, k) <==> DroppedBy(kv, stmts, n, t, k);
      forall i ensures PutBy(kv, init, i, t, k) <==> i != n && PutBy(kv, stmts, i, t, k) {
        if 0 <= i < n { assert init[i] == stmts[i]; }
      }
      forall i ensures DroppedBy(kv, init, i, t, k) <==> i != n && DroppedBy(kv, stmts, i, t, k) {
        if 0 <= i < n { assert init[i] == stmts[i]; }
      }
    }
  }

  // -------------------------------------------------------------------------
  // The table after a batch
  // -------------------------------------------------------------------------

  /** A document is what the last statement that targets it stores, or what it was. */
  lemma LastStatementWins(kv: Kv, stmts: seq<Statement>, t: Table, id: str)
    requires t.Valid() && AllValid(stmts)
    ensures var docs, i := Docs(AfterBatch(kv, stmts), t), LastOf(stmts, t, id);
      && (id in docs <==> id in Docs(kv, t) || i >= 0)
      && (id in docs ==> docs[id] == if i >= 0 then Stores(kv, stmts[i]) else Docs(kv, t)[id])
  {
    InDocIds(kv, t, id);
    InDocIds(AfterBatch(kv, stmts), t, id);
    MergedDoc(kv, stmts, t, id);
  }

  /** The documents a batch targets, with what the last statement on each stores. */
  ghost function LastStores(kv: Kv, stmts: seq<Statement>, t: Table): map<str, Fields> {
    map id | id in TargetIds(stmts, t) && LastOf(stmts, t, id) >= 0 :: Stores(kv, stmts[LastOf(stmts, t, id)])
  }

  ghost function TargetIds(stmts: seq<Statement>, t: Table): set<str> {
    set s | s in stmts && s.Create? && s.t == t :: TargetId(s)
  }

  lemma DocsAfterBatch(kv: Kv, stmts: seq<Statement>, t: Table)
    requires t.Valid() && AllValid(stmts)
    ensures Docs(AfterBatch(kv, stmts), t) == Docs(kv, t) + LastStores(kv, stmts, t)
  {
    var docs, after, last := Docs(kv, t), Docs(AfterBatch(kv, stmts), t), LastStores(kv, stmts, t);
    forall id ensures (id in after <==> id in docs + last) && (id in after ==> after[id] == (docs + last)[id]) {
      LastStatementWins(kv, stmts, t, id);
      var i := LastOf(stmts, t, id);
      if i >= 0 { assert stmts[i] in stmts && id in TargetIds(stmts, t); }
    }
  }

  /**
   A batch checks no unique tuple: it keeps them unique exactly when the last
   statements' tuples differ from each other and from those of the documents it
   does not target.
   */
  lemma BatchUniqueIff(kv: Kv, stmts: seq<Statement>, t: Table)
    requires t.Valid() && AllValid(stmts) && UniqueHolds(Docs(kv, t), Catalog(kv, t))
    ensures UniqueHolds(Docs(AfterBatch(kv, stmts), t), Catalog(AfterBatch(kv, stmts), t)) <==> ChangesFree(Docs(kv, t), Catalog(kv, t), LastStores(kv, stmts, t))
  {
    DocsAfterBatch(kv, stmts, t);
    BatchKeepsCatalog(kv, stmts, t);
    UniqueAfterChangesIff(Docs(kv, t), Catalog(kv, t), LastStores(kv, stmts, t));
  }

  lemma BatchKeepsCatalog(kv: Kv, stmts: seq<Statement>, t: Table)
    requires t.Valid() && AllValid(stmts)
    ensures Catalog(AfterBatch(kv, stmts), t) == Catalog(kv, t)
  {
    assert TablePrefix(t, METADATA) <= CatalogPrefix(t);
    forall k | CatalogPrefix(t) <= k ensures SameAt(kv, AfterBatch(kv, stmts), k) { MergedMeta(kv, stmts, t, k); }
    CatalogFrame(kv, AfterBatch(kv, stmts), t);
  }

  lemma EntryAfter(kv: Kv, stmts: seq<Statement>, t: Table, k: Key)
    requires t.Valid() && AllValid(stmts) && TablePrefix(t, INDEX) <= k
    ensures k in AfterBatch(kv, stmts) <==> (exists i :: PutBy(kv, stmts, i, t, k)) || (k in kv && forall i :: !DroppedBy(kv, stmts, i, t, k))
  {
    MergedEntry(kv, stmts, t, k);
  }

  lemma DocsAfterOne(kv: Kv, t: Table, s: Statement)
    requires t.Valid() && ValidStatement(s) && s.Create? && s.t == t && s.conflict.None?
    ensures Docs(AfterBatch(kv, [s]), t) == Docs(kv, t)[TargetId(s) := s.fields]
  {
    var docs, after := Docs(kv, t)[TargetId(s) := s.fields], Docs(AfterBatch(kv, [s]), t);
    assert !Replaces(kv, s);
    forall id ensures (id in after <==> id in docs) && (id in docs ==> after[id] == docs[id]) {
      LastStatementWins(kv, [s], t, id);
      OnlyTarget(s, t, id);
    }
  }

  lemma OnlyTarget(s: Statement, t: Table, id: str)
    requires s.Create? && s.t == t
    ensures LastOf([s], t, id) == if id == TargetId(s) then 0 else -1
  {
    assert [s][0] == s && [s][..0] == [];
  }

  lemma RegionAfterOne(kv: Kv, t: Table, s: Statement)
    requires t.Valid() && ValidStatement(s) && s.Create? && s.t == t && s.conflict.None?
    ensures IndexRegion(AfterBatch(kv, [s]), t) == IndexRegion(kv, t) + DocEntries(kv, t, TargetId(s), s.fields)
  {
    var stmts, keys := [s], DocEntries(kv, t, TargetId(s), s.fields);
    forall k | TablePrefix(t, INDEX) <= k ensures k in AfterBatch(kv, stmts) <==> k in kv || k in keys {
      EntryAfter(kv, stmts, t, k);
      assert PutBy(kv, stmts, 0, t, k) <==> k in keys;
    }
    forall k | k in keys ensures TablePrefix(t, INDEX) <= k { DocEntryInRegion(kv, t, TargetId(s), s.fields, k); }
  }

  /** A batch of one plain CREATE stores the document and adds its entries, whatever was stored before. */
  lemma PlainAlone(kv: Kv, t: Table, s: Statement)
    requires t.Valid() && ValidStatement(s) && s.Create? && s.t == t && s.conflict.None?
    ensures Docs(AfterBatch(kv, [s]), t) == Docs(kv, t)[TargetId(s) := s.fields] && Catalog(AfterBatch(kv, [s]), t) == Catalog(kv, t)
    ensures IndexRegion(AfterBatch(kv, [s]), t) == IndexRegion(kv, t) + DocEntries(kv, t, TargetId(s), s.fields)
  {
    DocsAfterOne(kv, t, s);
    BatchKeepsCatalog(kv, [s], t);
    RegionAfterOne(kv, t, s);
  }

  lemma WellFormedAfter(kv: Kv, stmts: seq<Statement>, t: Table)
    requires t.Valid() && AllValid(stmts) && WellFormed(kv, t)
    ensures WellFormed(AfterBatch(kv, stmts), t)
  {
    var kv' := AfterBatch(kv, stmts);
    forall k | k in kv' ensures GoodBlob(kv', t, k) {
      assert k in kv ==> GoodBlob(kv, t, k);
      if TablePrefix(t, INDEX) <= k {
        MergedEntry(kv, stmts, t, k);
        OneRegion(t, INDEX, k);
      } else if TablePrefix(t, METADATA) <= k {
        MergedMeta(kv, stmts, t, k);
        OneRegion(t, METADATA, k);
      } else {
        assert TablePrefix(t, METADATA) <= CatalogPrefix(t);
        if TablePrefix(t, DOCUMENT) <= k { GoodDocument(kv, stmts, t, k); }
      }
    }
  }

  lemma OneRegion(t: Table, tag: byte, k: Key)
    requires t.Valid() && tag in {INDEX, METADATA} && TablePrefix(t, tag) <= k
    ensures !(TablePrefix(t, DOCUMENT) <= k) && (tag == INDEX ==> !(CatalogPrefix(t) <= k)) && (tag == METADATA ==> !(TablePrefix(t, INDEX) <= k))
  {
    assert TablePrefix(t, METADATA) <= CatalogPrefix(t);
    if TablePrefix(t, DOCUMENT) <= k { RegionsDisjoint(t, DOCUMENT, t, tag, k); }
    if TablePrefix(t, METADATA) <= k && TablePrefix(t, INDEX) <= k { RegionsDisjoint(t, METADATA, t, INDEX, k); }
  }

  lemma GoodDocument(kv: Kv, stmts: seq<Statement>, t: Table, k: Key)
    requires t.Valid() && AllValid(stmts) && WellFormed(kv, t) && k in AfterBatch(kv, stmts) && TablePrefix(t, DOCUMENT) <= k
    ensures AfterBatch(kv, stmts)[k].FieldsBlob? && Utf8(k[|TablePrefix(t, DOCUMENT)|..])
  {
    var id := k[|TablePrefix(t, DOCUMENT)|..];
    assert k == DocumentKey(t, id);
    MergedDoc(kv, stmts, t, id);
    assert k in kv ==> GoodBlob(kv, t, k);
    var i := LastOf(stmts, t, id);
    if i >= 0 { assert stmts[i] in stmts; }
  }

  lemma EncodableAfter(kv: Kv, stmts: seq<Statement>, t: Table)
    requires t.Valid() && AllValid(stmts) && AllOk(kv, stmts) && AllEncodable(t, Docs(kv, t), Catalog(kv, t))
    ensures AllEncodable(t, Docs(AfterBatch(kv, stmts), t), Catalog(kv, t))
  {
    var docs, catalog := Docs(AfterBatch(kv, stmts), t), Catalog(kv, t);
    forall id, name | id in docs && name in catalog ensures EntryFor(t, catalog[name], id, docs[id]).Ok? {
      LastStatementWins(kv, stmts, t, id);
      var i := LastOf(stmts, t, id);
      if i >= 0 {
        assert stmts[i] in stmts && CanIndex(kv, t, id, Stores(kv, stmts[i]));
        assert EntryFor(t, catalog[name], id, map[id := docs[id]][id]).Ok?;
      }
    }
  }

  lemma InDocEntries(kv: Kv, t: Table, docs: map<str, Fields>, k: Key) returns (id: str)
    requires k in DerivedEntries(t, docs, Catalog(kv, t))
    ensures id in docs && k in DocEntries(kv, t, id, docs[id])
  {
    var name;
    id, name := DerivedFrom(t, docs, Catalog(kv, t), k);
    InDerived(t, map[id := docs[id]], Catalog(kv, t), id, name);
  }

  lemma DocEntriesDerived(kv: Kv, t: Table, docs: map<str, Fields>, id: str)
    requires id in docs
    ensures DocEntries(kv, t, id, docs[id]) <= DerivedEntries(t, docs, Catalog(kv, t))
  {
    DerivedMonotone(t, map[id := docs[id]], docs, Catalog(kv, t));
  }

  /** An entry of one document is not an entry of another. */
  lemma OneOwner(kv: Kv, t: Table, id: str, f: Fields, id': str, f': Fields, k: Key)
    requires t.Valid() && Covered(kv, t) && k in DocEntries(kv, t, id, f) && k in DocEntries(kv, t, id', f')
    ensures id == id'
  {
    EntriesOfOneDocument(kv, t, id, f, t, id', f', k);
  }

  lemma DroppedByOwner(kv: Kv, stmts: seq<Statement>, i: int, t: Table, id: str, f: Fields, k: Key)
    requires t.Valid() && Covered(kv, t) && DroppedBy(kv, stmts, i, t, k) && k in DocEntries(kv, t, id, f)
    ensures Targets(stmts[i], t, id) && stmts[i].conflict.Some?
  {
    OneOwner(kv, t, id, f, TargetId(stmts[i]), Docs(kv, t)[TargetId(stmts[i])], k);
  }

  /** Whatever the batch, every entry derived from the documents it leaves is stored. */
  lemma TableCoveredAfter(kv: Kv, stmts: seq<Statement>, t: Table)
    requires t.Valid() && AllValid(stmts) && AllOk(kv, stmts) && Covered(kv, t)
    ensures Covered(AfterBatch(kv, stmts), t)
  {
    var kv' := AfterBatch(kv, stmts);
    BatchKeepsCatalog(kv, stmts, t);
    WellFormedAfter(kv, stmts, t);
    EncodableAfter(kv, stmts, t);
    forall k | k in DerivedEntries(t, Docs(kv', t), Catalog(kv, t)) ensures k in IndexRegion(kv', t) {
      var id := InDocEntries(kv, t, Docs(kv', t), k);
      DerivedIsStored(kv, stmts, t, id, k);
    }
  }

  lemma DerivedIsStored(kv: Kv, stmts: seq<Statement>, t: Table, id: str, k: Key)
    requires t.Valid() && AllValid(stmts) && Covered(kv, t) && id in Docs(AfterBatch(kv, stmts), t)
    requires k in DocEntries(kv, t, id, Docs(AfterBatch(kv, stmts), t)[id])
    ensures k in IndexRegion(AfterBatch(kv, stmts), t)
  {
    var f := Docs(AfterBatch(kv, stmts), t)[id];
    DocEntryInRegion(kv, t, id, f, k);
    EntryAfter(kv, stmts, t, k);
    LastStatementWins(kv, stmts, t, id);
    var j := LastOf(stmts, t, id);
    if j >= 0 {
      assert PutBy(kv, stmts, j, t, k);
    } else {
      DocEntriesDerived(kv, t, Docs(kv, t), id);
      forall i ensures !DroppedBy(kv, stmts, i, t, k) {
        if DroppedBy(kv, stmts, i, t, k) { DroppedByOwner(kv, stmts, i, t, id, f, k); }
      }
    }
  }

  lemma BatchKeepsCovered(kv: Kv, stmts: seq<Statement>)
    requires AllValid(stmts) && AllOk(kv, stmts) && AllCovered(kv)
    ensures AllCovered(AfterBatch(kv, stmts))
  {
    forall t: Table | t.Valid() ensures Covered(AfterBatch(kv, stmts), t) {
      assert Covered(kv, t);
      TableCoveredAfter(kv, stmts, t);
    }
  }

  // -------------------------------------------------------------------------
  // When the index invariant survives
  // -------------------------------------------------------------------------

  /** What statement `i` writes for its document, the last statement on that document writes too. */
  ghost predicate WritesLast(kv: Kv, stmts: seq<Statement>, i: nat)
    requires i < |stmts|
  {
    stmts[i].Create? ==> EntriesOf(kv, stmts[i]) <= EntriesOf(kv, stmts[LastOf(stmts, stmts[i].t, TargetId(stmts[i]))])
  }

  /** Entries of the document stored before are deleted by some statement on it, or written again by the last. */
  ghost predicate LeavesNone(kv: Kv, stmts: seq<Statement>, i: nat)
    requires i < |stmts|
  {
    stmts[i].Create? && TargetId(stmts[i]) in Docs(kv, stmts[i].t) ==>
      var t, id := stmts[i].t, TargetId(stmts[i]);
      (exists j :: 0 <= j < |stmts| && Targets(stmts[j], t, id) && stmts[j].conflict.Some?)
      || DocEntries(kv, t, id, Docs(kv, t)[id]) <= EntriesOf(kv, stmts[LastOf(stmts, t, id)])
  }

  /** No entry goes stale: a test on the statements and the documents they name. */
  ghost predicate NothingStale(kv: Kv, stmts: seq<Statement>) {
    forall i :: 0 <= i < |stmts| ==> WritesLast(kv, stmts, i) && LeavesNone(kv, stmts, i)
  }

  /** From a consistent store an accepted batch leaves a consistent one exactly when no entry goes stale. */
  lemma BatchConsistentIff(kv: Kv, stmts: seq<Statement>)
    requires AllValid(stmts) && AllOk(kv, stmts) && AllConsistent(kv)
    ensures AllConsistent(AfterBatch(kv, stmts)) <==> NothingStale(kv, stmts)
  {
    ConsistentIsCovered(kv);
    BatchKeepsCovered(kv, stmts);
    var kv' := AfterBatch(kv, stmts);
    if NothingStale(kv, stmts) {
      forall t: Table | t.Valid() ensures Consistent(kv', t) {
        assert Consistent(kv, t) && Covered(kv', t);
        forall k | k in IndexRegion(kv', t) ensures k in DerivedEntries(t, Docs(kv', t), Catalog(kv', t)) { StoredIsDerived(kv, stmts, t, k); }
      }
    }
    if AllConsistent(kv') {
      forall i | 0 <= i < |stmts| ensures WritesLast(kv, stmts, i) && LeavesNone(kv, stmts, i) {
        if stmts[i].Create? {
          assert stmts[i] in stmts && Consistent(kv, stmts[i].t) && Consistent(kv', stmts[i].t);
          NoneStaleAt(kv, stmts, i);
        }
      }
    }
  }

  lemma StoredIsDerived(kv: Kv, stmts: seq<Statement>, t: Table, k: Key)
    requires t.Valid() && AllValid(stmts) && Consistent(kv, t) && NothingStale(kv, stmts) && k in IndexRegion(AfterBatch(kv, stmts), t)
    ensures k in DerivedEntries(t, Docs(AfterBatch(kv, stmts), t), Catalog(AfterBatch(kv, stmts), t))
  {
    var kv' := AfterBatch(kv, stmts);
    BatchKeepsCatalog(kv, stmts, t);
    EntryAfter(kv, stmts, t, k);
    var id, f := OwnerAfter(kv, stmts, t, k);
    LastStatementWins(kv, stmts, t, id);
    DocEntriesDerived(kv, t, Docs(kv', t), id);
  }

  /** The document whose entry a stored key is once nothing is stale. */
  lemma OwnerAfter(kv: Kv, stmts: seq<Statement>, t: Table, k: Key) returns (id: str, f: Fields)
    requires t.Valid() && AllValid(stmts) && Consistent(kv, t) && NothingStale(kv, stmts) && k in IndexRegion(AfterBatch(kv, stmts), t)
    ensures id in Docs(AfterBatch(kv, stmts), t) && f == Docs(AfterBatch(kv, stmts), t)[id] && k in DocEntries(kv, t, id, f)
  {
    EntryAfter(kv, stmts, t, k);
    if i :| PutBy(kv, stmts, i, t, k) {
      id := TargetId(stmts[i]);
      LastStatementWins(kv, stmts, t, id);
      assert WritesLast(kv, stmts, i);
    } else {
      id := InDocEntries(kv, t, Docs(kv, t), k);
      LastStatementWins(kv, stmts, t, id);
      var j := LastOf(stmts, t, id);
      if j >= 0 {
        assert LeavesNone(kv, stmts, j);
        forall i ensures !(0 <= i < |stmts| && Targets(stmts[i], t, id) && stmts[i].conflict.Some?) {
          assert !DroppedBy(kv, stmts, i, t, k);
        }
      }
    }
    f := Docs(AfterBatch(kv, stmts), t)[id];
  }

  lemma NoneStaleAt(kv: Kv, stmts: seq<Statement>, i: nat)
    requires i < |stmts| && stmts[i].Create? && AllValid(stmts) && stmts[i].t.Valid()
    requires Consistent(kv, stmts[i].t) && Consistent(AfterBatch(kv, stmts), stmts[i].t)
    ensures WritesLast(kv, stmts, i) && LeavesNone(kv, stmts, i)
  {
    var t, id := stmts[i].t, TargetId(stmts[i]);
    var j := LastOf(stmts, t, id);
    assert Targets(stmts[i], t, id);
    forall k | k in EntriesOf(kv, stmts[i]) ensures k in EntriesOf(kv, stmts[j]) {
      DocEntryInRegion(kv, t, id, Stores(kv, stmts[i]), k);
      EntryAfter(kv, stmts, t, k);
      assert PutBy(kv, stmts, i, t, k);
      StaysWithOwner(kv, stmts, t, id, Stores(kv, stmts[i]), k);
    }
    if id in Docs(kv, t) && !(exists j :: 0 <= j < |stmts| && Targets(stmts[j], t, id) && stmts[j].conflict.Some?) {
      var f := Docs(kv, t)[id];
      DocEntriesDerived(kv, t, Docs(kv, t), id);
      forall k | k in DocEntries(kv, t, id, f) ensures k in EntriesOf(kv, stmts[j]) {
        DocEntryInRegion(kv, t, id, f, k);
        EntryAfter(kv, stmts, t, k);
        forall m ensures !DroppedBy(kv, stmts, m, t, k) {
          if DroppedBy(kv, stmts, m, t, k) { DroppedByOwner(kv, stmts, m, t, id, f, k); }
        }
        StaysWithOwner(kv, stmts, t, id, f, k);
      }
    }
  }

  /** A stored entry of a targeted document is one of those the last statement writes. */
  lemma StaysWithOwner(kv: Kv, stmts: seq<Statement>, t: Table, id: str, f: Fields, k: Key)
    requires t.Valid() && AllValid(stmts) && Consistent(kv, t) && Consistent(AfterBatch(kv, stmts), t)
    requires LastOf(stmts, t, id) >= 0 && k in DocEntries(kv, t, id, f) && k in AfterBatch(kv, stmts)
    ensures k in EntriesOf(kv, stmts[LastOf(stmts, t, id)])
  {
    var kv' := AfterBatch(kv, stmts);
    DocEntryInRegion(kv, t, id, f, k);
    BatchKeepsCatalog(kv, stmts, t);
    assert k in IndexRegion(kv', t);
    var id' := InDocEntries(kv, t, Docs(kv', t), k);
    OneOwner(kv, t, id, f, id', Docs(kv', t)[id'], k);
    LastStatementWins(kv, stmts, t, id);
  }

  // -------------------------------------------------------------------------
  // Batches and the edges they leave alone
  // -------------------------------------------------------------------------

  ghost predicate RelatesTo(s: Statement, t: Table) {
    s.Relate? && s.t == t
  }

  /** A statement writes no edge key of a table it does not relate. */
  lemma StatementKeys(kv: Kv, s: Statement, t: Table, k: Key)
    requires ValidStatement(s) && t.Valid() && TablePrefix(t, GRAPH_EDGE) <= k && !RelatesTo(s, t)
    ensures k !in StmtDelta(kv, s).puts && k !in StmtDelta(kv, s).dels
  {
    match s
    case Create(t', _, _, fields, conflict) =>
      var id := TargetId(s);
      if k == DocumentKey(t', id) { RegionsDisjoint(t', DOCUMENT, t, GRAPH_EDGE, k); }
      OutsideEntries(kv, t', id, fields, t, GRAPH_EDGE, k);
      if conflict.Some? && id in Docs(kv, t') {
        OutsideEntries(kv, t', id, Docs(kv, t')[id] + conflict.value, t, GRAPH_EDGE, k);
        OutsideEntries(kv, t', id, Docs(kv, t')[id], t, GRAPH_EDGE, k);
      }
    case Relate(t', e, _) =>
      E.DirKeys(t', e);
      if TablePrefix(t', GRAPH_EDGE) <= k { RegionsDisjoint(t', GRAPH_EDGE, t, GRAPH_EDGE, k); }
    case Unsupported =>
  }

  lemma {:induction false} BatchKeys(kv: Kv, stmts: seq<Statement>, t: Table, k: Key)
    requires AllValid(stmts) && (forall s :: s in stmts ==> !RelatesTo(s, t)) && t.Valid() && TablePrefix(t, GRAPH_EDGE) <= k
    ensures k !in Merged(kv, stmts).puts && k !in Merged(kv, stmts).dels
  {
    if stmts != [] {
      var init, last := stmts[..|stmts| - 1], stmts[|stmts| - 1];
      assert last in stmts && forall s :: s in init ==> s in stmts;
      BatchKeys(kv, init, t, k);
      StatementKeys(kv, last, t, k);
    }
  }

  lemma BatchKeepsEdges(kv: Kv, stmts: seq<Statement>, t: Table)
    requires AllValid(stmts) && (forall s :: s in stmts ==> !RelatesTo(s, t)) && t.Valid()
    ensures EdgesSame(kv, AfterBatch(kv, stmts), t)
  {
    forall k | TablePrefix(t, GRAPH_EDGE) <= k ensures SameAt(kv, AfterBatch(kv, stmts), k) {
      BatchKeys(kv, stmts, t, k);
    }
  }

  lemma EdgesOrRelates(kv: Kv, stmts: seq<Statement>, t: Table)
    requires AllValid(stmts) && t.Valid()
    ensures Relates(stmts, t) > 0 || EdgesSame(kv, AfterBatch(kv, stmts), t)
  {
    NoneRelates(stmts, t);
    if Relates(stmts, t) == 0 { BatchKeepsEdges(kv, stmts, t); }
  }

  function Relates(stmts: seq<Statement>, t: Table): nat {
    if stmts == [] then 0
    else Relates(stmts[..|stmts| - 1], t) + (if stmts[|stmts| - 1].Relate? && stmts[|stmts| - 1].t == t then 1 else 0)
  }

  lemma {:induction false} NoneRelates(stmts: seq<Statement>, t: Table)
    ensures Relates(stmts, t) == 0 <==> forall s :: s in stmts ==> !RelatesTo(s, t)
  {
    if stmts != [] {
      var init, last := stmts[..|stmts| - 1], stmts[|stmts| - 1];
      NoneRelates(init, t);
      assert last in stmts && forall s :: s in stmts <==> s in init || s == last;
    }
  }

  // -------------------------------------------------------------------------
  // The counts of the reply
  // -------------------------------------------------------------------------

  function CreatedBy(kv: Kv, s: Statement): nat {
    if s.Create? && !Replaces(kv, s) then 1 else 0
  }

  function UpdatedBy(kv: Kv, s: Statement): nat {
    if Replaces(kv, s) then 1 else 0
  }

  /** Creates counted as such: those that do not meet a stored document with a conflict clause. */
  function CreatedCount(kv: Kv, stmts: seq<Statement>): nat {
    if stmts == [] then 0 else CreatedCount(kv, stmts[..|stmts| - 1]) + CreatedBy(kv, stmts[|stmts| - 1])
  }

  function UpdatedCount(kv: Kv, stmts: seq<Statement>): nat {
    if stmts == [] then 0 else UpdatedCount(kv, stmts[..|stmts| - 1]) + UpdatedBy(kv, stmts[|stmts| - 1])
  }

  /** Every CREATE of a batch is counted once. */
  lemma {:induction false} CountsAddUp(kv: Kv, stmts: seq<Statement>)
    ensures CreatedCount(kv, stmts) + UpdatedCount(kv, stmts) == CreateCount(stmts)
  {
    if stmts != [] { CountsAddUp(kv, stmts[..|stmts| - 1]); }
  }

  function CreateCount(stmts: seq<Statement>): nat {
    if stmts == [] then 0 else CreateCount(stmts[..|stmts| - 1]) + (if stmts[|stmts| - 1].Create? then 1 else 0)
  }
}
