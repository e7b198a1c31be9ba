/**
 Batches (`execute_batch`, crates/query/src/executor.rs): all operations are
 computed against the store before the batch, then written at once, deletes
 before puts. The result is compared with running the statements one by one.
 */
module Batch {
  import opened Bytes
  import opened Wrappers
  import opened Records
  import opened Keys
  import opened StorageModel
  import opened IndexState
  import opened IndexTransitions
  import E = Edges

  /** `generated` is the generated id used when the statement names none. */
  datatype Statement =
    | Create(t: Table, id: Option<str>, generated: str, fields: Fields, conflict: Option<Fields>)
    | Relate(t: Table, e: E.EdgeId, props: Fields)
    | Unsupported

  predicate ValidStatement(s: Statement) {
    match s
    case Create(t, id, generated, _, _) => t.Valid() && Utf8(generated) && (id.Some? ==> Utf8(id.value))
    case Relate(t, e, _) => t.Valid() && E.ValidEdge(e)
    case Unsupported => true
  }

  function TargetId(s: Statement): str
    requires s.Create?
  {
    if s.id.Some? then s.id.value else s.generated
  }

  // -------------------------------------------------------------------------
  // Effects as map operations
  // -------------------------------------------------------------------------

  datatype Delta = Delta(puts: map<Key, Blob>, dels: set<Key>)

  function Apply(kv: Kv, d: Delta): Kv {
    (kv - d.dels) + d.puts
  }

  function PutsMap(puts: seq<(Key, Blob)>): map<Key, Blob> {
    ApplyPuts(map[], puts)
  }

  lemma {:induction false} ApplyPutsIsMerge(kv: Kv, puts: seq<(Key, Blob)>)
    ensures ApplyPuts(kv, puts) == kv + PutsMap(puts)
    decreases |puts|
  {
    if puts != [] {
      var init, last := puts[..|puts| - 1], puts[|puts| - 1];
      assert puts == init + [last];
      ApplyPutsAppend(kv, init, [last]);
      ApplyPutsAppend(map[], init, [last]);
      ApplyPutsIsMerge(kv, init);
      ApplyOne(ApplyPuts(kv, init), last);
      ApplyOne(PutsMap(init), last);
    }
  }

  lemma ApplyOne(kv: Kv, p: (Key, Blob))
    ensures ApplyPuts(kv, [p]) == kv[p.0 := p.1]
  {
    assert [p][1..] == [];
  }

  lemma PutsMapConcat(a: seq<(Key, Blob)>, b: seq<(Key, Blob)>)
    ensures PutsMap(a + b) == PutsMap(a) + PutsMap(b)
  {
    ApplyPutsAppend(map[], a, b);
    ApplyPutsIsMerge(PutsMap(a), b);
  }

  lemma ApplyBatchIsApply(kv: Kv, puts: seq<(Key, Blob)>, deletes: seq<Key>)
    ensures ApplyBatch(kv, puts, deletes) == Apply(kv, Delta(PutsMap(puts), set k | k in deletes))
  {
    ApplyPutsIsMerge(ApplyDeletes(kv, deletes), puts);
    assert ApplyDeletes(kv, deletes) == kv - (set k | k in deletes);
  }

  function EmptyAt(keys: set<Key>): map<Key, Blob> {
    map k | k in keys :: Empty
  }

  lemma {:induction false} EntryPutsMap(keys: seq<Key>)
    ensures PutsMap(EntryPuts(keys)) == EmptyAt(set k | k in keys)
  {
    var puts := EntryPuts(keys);
    forall k ensures k in PutsMap(puts) <==> k in keys
      ensures k in keys ==> PutsMap(puts)[k] == Empty
    {
      ApplyPutsDomain(map[], puts, k);
    }
  }

  /** Entries one document derives from the catalog. */
  function DocEntries(kv: Kv, t: Table, id: str, f: Fields): set<Key> {
    DerivedEntries(t, map[id := f], Catalog(kv, t))
  }

  function DocDelta(kv: Kv, t: Table, id: str, f: Fields, dels: set<Key>): Delta {
    Delta(map[DocumentKey(t, id) := FieldsBlob(f)] + EmptyAt(DocEntries(kv, t, id, f)), dels)
  }

  lemma WriteDocIsApply(kv: Kv, t: Table, id: str, f: Fields, newKeys: seq<Key>, oldKeys: seq<Key>)
    requires (set k | k in newKeys) == DocEntries(kv, t, id, f)
    ensures WriteDoc(kv, t, id, f, newKeys, oldKeys) == Apply(kv, DocDelta(kv, t, id, f, set k | k in oldKeys))
  {
    var first := [(DocumentKey(t, id), FieldsBlob(f))];
    ApplyBatchIsApply(kv, first + EntryPuts(newKeys), oldKeys);
    PutsMapConcat(first, EntryPuts(newKeys));
    ApplyOne(map[], first[0]);
    EntryPutsMap(newKeys);
  }

  /** What a statement writes and deletes, computed against `kv`. */
  function StmtDelta(kv: Kv, s: Statement): Delta {
    match s
    case Create(t, _, _, fields, conflict) =>
      var id := TargetId(s);
      if conflict.Some? && id in Docs(kv, t)
      then DocDelta(kv, t, id, Docs(kv, t)[id] + conflict.value, DocEntries(kv, t, id, Docs(kv, t)[id]))
      else DocDelta(kv, t, id, fields, {})
    case Relate(t, e, props) => Delta(map[E.OutKey(t, e) := E.PropsBlobOf(props)] + map[E.InKey(t, e) := Empty], {})
    case Unsupported => Delta(map[], {})
  }

  predicate CanIndex(kv: Kv, t: Table, id: str, f: Fields) {
    AllEncodable(t, map[id := f], Catalog(kv, t))
  }

  /** The batch accepts the statement. */
  predicate StmtOk(kv: Kv, s: Statement) {
    match s
    case Create(t, id, _, fields, conflict) =>
      && (conflict.Some? ==> id.Some?)
      && CanIndex(kv, t, TargetId(s), if conflict.Some? && TargetId(s) in Docs(kv, t) then Docs(kv, t)[TargetId(s)] + conflict.value else fields)
    case Relate(_, _, _) => true
    case Unsupported => false
  }

  /** All deltas against one store, later puts over earlier ones. */
  function Merged(kv: Kv, stmts: seq<Statement>): Delta {
    if stmts == [] then Delta(map[], {})
    else
      var before, last := Merged(kv, stmts[..|stmts| - 1]), StmtDelta(kv, stmts[|stmts| - 1]);
      Delta(before.puts + last.puts, before.dels + last.dels)
  }

  /** The store after running the statements one by one. */
  function OneByOne(kv: Kv, stmts: seq<Statement>): Kv {
    if stmts == [] then kv
    else
      var before := OneByOne(kv, stmts[..|stmts| - 1]);
      Apply(before, StmtDelta(before, stmts[|stmts| - 1]))
  }

  /** Every table of the store has all its derived entries. */
  ghost predicate AllCovered(kv: Kv) {
    forall t: Table :: t.Valid() ==> Covered(kv, t)
  }

  /** Every table of the store satisfies the index invariant. */
  ghost predicate AllConsistent(kv: Kv) {
    forall t: Table :: t.Valid() ==> Consistent(kv, t)
  }

  lemma ConsistentIsCovered(kv: Kv)
    requires AllConsistent(kv)
    ensures AllCovered(kv)
  {
    forall t: Table | t.Valid() ensures Covered(kv, t) { assert Consistent(kv, t); }
  }

  // -------------------------------------------------------------------------
  // One statement
  // -------------------------------------------------------------------------

  lemma {:induction false} DefsExist(catalog: map<str, IndexDefinition>) returns (defs: seq<IndexDefinition>)
    requires GoodNames(catalog)
    ensures Loaded(catalog, defs)
    decreases |catalog|
  {
    if catalog == map[] {
      defs := [];
    } else {
      var name :| name in catalog;
      var rest := DefsExist(catalog - {name});
      defs := rest + [catalog[name]];
      forall n | n in catalog ensures catalog[n] in defs {
        if n != name { assert n in catalog - {name}; }
      }
    }
  }

  lemma IndexableIffEntries(t: Table, catalog: map<str, IndexDefinition>, defs: seq<IndexDefinition>, id: str, f: Fields)
    requires Loaded(catalog, defs)
    ensures AllEncodable(t, map[id := f], catalog) <==> EntriesFor(t, defs, id, f).Ok?
  {
    var one := map[id := f];
    if EntriesFor(t, defs, id, f).Ok? {
      forall id', name | id' in one && name in catalog ensures EntryFor(t, catalog[name], id', one[id']).Ok? {
        assert catalog[name] in defs;
      }
    }
    if AllEncodable(t, one, catalog) {
      forall d | d in defs ensures EntryFor(t, d, id, f).Ok? {
        assert EntryFor(t, catalog[d.name], id, one[id]).Ok?;
      }
    }
  }

  /** Nothing but the document `id` of `t` and index regions of `t` differs. */
  ghost predicate SameElsewhere(kv: Kv, kv': Kv, t: Table, id: str) {
    && Catalog(kv', t) == Catalog(kv, t)
    && (forall i :: i != id ==> (i in Docs(kv', t) <==> i in Docs(kv, t)) && (i in Docs(kv, t) ==> Docs(kv', t)[i] == Docs(kv, t)[i]))
    && forall t': Table :: t'.Valid() && t' != t ==> SameTable(kv, kv', t')
  }

  /** The write of one document, seen from its own table. */
  lemma CreateAtTable(kv: Kv, t: Table, id: str, f: Fields, dels: set<Key>)
    requires t.Valid() && Utf8(id) && Covered(kv, t) && CanIndex(kv, t, id, f)
    requires dels == if id in Docs(kv, t) then DocEntries(kv, t, id, Docs(kv, t)[id]) else {}
    ensures var kv' := Apply(kv, DocDelta(kv, t, id, f, dels));
      && Covered(kv', t) && (Consistent(kv, t) ==> Consistent(kv', t))
      && ChangedOnly(kv, kv', t, id) && Docs(kv', t) == Docs(kv, t)[id := f] && Catalog(kv', t) == Catalog(kv, t)
  {
    CatalogIsGood(kv, t);
    var defs := DefsExist(Catalog(kv, t));
    IndexableIffEntries(t, Catalog(kv, t), defs, id, f);
    var newKeys := EntriesFor(t, defs, id, f).value;
    BuiltAreDerived(t, defs, Catalog(kv, t), id, f);
    var oldKeys := OldKeys(kv, t, defs, id);
    WriteDocIsApply(kv, t, id, f, newKeys, oldKeys);
    WriteKeepsConsistent(kv, t, defs, id, f, newKeys, oldKeys, WriteDoc(kv, t, id, f, newKeys, oldKeys));
  }

  lemma OldKeys(kv: Kv, t: Table, defs: seq<IndexDefinition>, id: str) returns (oldKeys: seq<Key>)
    requires Covered(kv, t) && Loaded(Catalog(kv, t), defs)
    ensures if id in Docs(kv, t) then EntriesFor(t, defs, id, Docs(kv, t)[id]) == Ok(oldKeys) else oldKeys == []
    ensures (set k | k in oldKeys) == if id in Docs(kv, t) then DocEntries(kv, t, id, Docs(kv, t)[id]) else {}
  {
    oldKeys := [];
    if id in Docs(kv, t) {
      assert EntriesFor(t, defs, id, Docs(kv, t)[id]).Ok?;
      oldKeys := EntriesFor(t, defs, id, Docs(kv, t)[id]).value;
      BuiltAreDerived(t, defs, Catalog(kv, t), id, Docs(kv, t)[id]);
    }
  }

  /** A document write that removes the old entries keeps every table consistent. */
  lemma CreateStep(kv: Kv, t: Table, id: str, f: Fields, dels: set<Key>, kv': Kv)
    requires t.Valid() && Utf8(id) && AllCovered(kv) && CanIndex(kv, t, id, f)
    requires dels == if id in Docs(kv, t) then DocEntries(kv, t, id, Docs(kv, t)[id]) else {}
    requires kv' == Apply(kv, DocDelta(kv, t, id, f, dels))
    ensures AllCovered(kv') && (AllConsistent(kv) ==> AllConsistent(kv')) && SameElsewhere(kv, kv', t, id)
  {
    assert Covered(kv, t);
    CreateAtTable(kv, t, id, f, dels);
    OtherTables(kv, kv', t, id);
    ElsewhereAfterWrite(kv, kv', t, id, f);
    forall t': Table | t'.Valid() ensures Covered(kv', t') && (AllConsistent(kv) ==> Consistent(kv', t')) {
      if t' != t { assert SameTable(kv, kv', t'); }
      if AllConsistent(kv) { assert Consistent(kv, t) && Consistent(kv, t'); }
    }
  }

  lemma ElsewhereAfterWrite(kv: Kv, kv': Kv, t: Table, id: str, f: Fields)
    requires Docs(kv', t) == Docs(kv, t)[id := f] && Catalog(kv', t) == Catalog(kv, t)
    requires forall t': Table :: t'.Valid() && t' != t ==> SameTable(kv, kv', t')
    ensures SameElsewhere(kv, kv', t, id)
  {
    var docs, docs' := Docs(kv, t), Docs(kv', t);
    forall i | i != id ensures (i in docs' <==> i in docs) && (i in docs ==> docs'[i] == docs[i]) {}
  }

  lemma OtherTables(kv: Kv, kv': Kv, t: Table, id: str)
    requires t.Valid() && AllCovered(kv) && ChangedOnly(kv, kv', t, id)
    ensures forall t': Table :: t'.Valid() && t' != t ==> SameTable(kv, kv', t') && Covered(kv', t') && (Consistent(kv, t') ==> Consistent(kv', t'))
  {
    forall t': Table | t'.Valid() && t' != t ensures SameTable(kv, kv', t') && Covered(kv', t') && (Consistent(kv, t') ==> Consistent(kv', t')) {
      OtherTableFrame(kv, kv', t, id, t');
      TableFrame(kv, kv', t');
    }
  }

  /** No derived entry is missing afterwards, and a consistent store stays one. */
  ghost predicate KeepsIndexes(kv: Kv, kv': Kv) {
    AllCovered(kv') && (AllConsistent(kv) ==> AllConsistent(kv'))
  }

  lemma DocumentWriteKeepsIndexes(kv: Kv, kv': Kv, t: Table, id: str)
    requires t.Valid() && AllCovered(kv) && ChangedOnly(kv, kv', t, id)
    requires Covered(kv', t) && (Consistent(kv, t) ==> Consistent(kv', t))
    ensures KeepsIndexes(kv, kv')
  {
    OtherTables(kv, kv', t, id);
    forall t': Table | t'.Valid() ensures Covered(kv', t') && (AllConsistent(kv) ==> Consistent(kv', t')) {
      if AllConsistent(kv) { assert Consistent(kv, t') && Consistent(kv, t); }
    }
  }

  lemma GraphFrame(kv: Kv, kv': Kv, t: Table)
    requires t.Valid() && E.GraphOnly(kv, kv', t)
    ensures forall t': Table :: t'.Valid() ==> SameTable(kv, kv', t')
  {
    forall t': Table, k, tag | t'.Valid() && tag in {DOCUMENT, METADATA, INDEX} && TablePrefix(t', tag) <= k ensures SameAt(kv, kv', k) {
      if TablePrefix(t, GRAPH_EDGE) <= k { RegionsDisjoint(t, GRAPH_EDGE, t', tag, k); }
    }
  }

  lemma RelateStep(kv: Kv, t: Table, e: E.EdgeId, props: Fields)
    requires t.Valid() && AllCovered(kv)
    ensures var kv' := Apply(kv, StmtDelta(kv, Relate(t, e, props)));
      AllCovered(kv') && (AllConsistent(kv) ==> AllConsistent(kv')) && forall t': Table :: t'.Valid() ==> SameTable(kv, kv', t')
  {
    var kv' := Apply(kv, StmtDelta(kv, Relate(t, e, props)));
    E.DirKeys(t, e);
    GraphFrame(kv, kv', t);
    forall t': Table | t'.Valid() ensures Covered(kv', t') && (AllConsistent(kv) ==> Consistent(kv', t')) {
      TableFrame(kv, kv', t');
      if AllConsistent(kv) { assert Consistent(kv, t'); }
    }
  }

  // -------------------------------------------------------------------------
  // Independent statements
  // -------------------------------------------------------------------------

  /** Creates target pairwise distinct documents. */
  predicate DistinctTargets(stmts: seq<Statement>) {
    forall i, j :: 0 <= i < j < |stmts| && stmts[i].Create? && stmts[j].Create? && stmts[i].t == stmts[j].t ==> TargetId(stmts[i]) != TargetId(stmts[j])
  }

  /** A plain CREATE names a document that does not exist yet. */
  predicate PlainCreatesAbsent(kv: Kv, stmts: seq<Statement>) {
    forall s :: s in stmts && s.Create? && s.conflict.None? ==> TargetId(s) !in Docs(kv, s.t)
  }

  /** `k` is written by a statement of the batch. */
  ghost predicate Written(kv: Kv, stmts: seq<Statement>, k: Key) {
    exists i :: 0 <= i < |stmts| && k in StmtDelta(kv, stmts[i]).puts
  }

  lemma {:induction false} MergedPuts(kv: Kv, stmts: seq<Statement>, k: Key)
    requires k in Merged(kv, stmts).puts
    ensures Written(kv, stmts, k)
  {
    var n := |stmts| - 1;
    if k in StmtDelta(kv, stmts[n]).puts {
    } else {
      MergedPuts(kv, stmts[..n], k);
      var i :| 0 <= i < n && k in StmtDelta(kv, stmts[..n][i]).puts;
      assert stmts[..n][i] == stmts[i];
    }
  }

  /** A statement with another target never writes an index entry of document `id`. */
  lemma NoWriteToEntries(kv: Kv, s: Statement, t: Table, id: str, f: Fields, k: Key)
    requires t.Valid() && ValidStatement(s) && AllCovered(kv)
    requires s.Create? && s.t == t ==> TargetId(s) != id
    requires k in DocEntries(kv, t, id, f)
    ensures k !in StmtDelta(kv, s).puts
  {
    DocEntryInRegion(kv, t, id, f, k);
    match s
    case Create(t', _, _, _, _) =>
      var id' := TargetId(s);
      if s.conflict.Some? && id' in Docs(kv, t') {
        NoWriteByDocument(kv, t, id, f, t', id', Docs(kv, t')[id'] + s.conflict.value, DocEntries(kv, t', id', Docs(kv, t')[id']), k);
      } else {
        NoWriteByDocument(kv, t, id, f, t', id', s.fields, {}, k);
      }
    case Relate(t', e, _) =>
      E.DirKeys(t', e);
      if TablePrefix(t', GRAPH_EDGE) <= k { RegionsDisjoint(t, INDEX, t', GRAPH_EDGE, k); }
    case Unsupported =>
  }

  lemma NoWriteByDocument(kv: Kv, t: Table, id: str, f: Fields, t': Table, id': str, f': Fields, dels: set<Key>, k: Key)
    requires t.Valid() && t'.Valid() && AllCovered(kv) && (t == t' ==> id != id')
    requires k in DocEntries(kv, t, id, f)
    ensures k !in DocDelta(kv, t', id', f', dels).puts
  {
    assert Covered(kv, t) && Covered(kv, t');
    DocEntryInRegion(kv, t, id, f, k);
    if k == DocumentKey(t', id') { RegionsDisjoint(t, INDEX, t', DOCUMENT, k); }
    if k in DocEntries(kv, t', id', f') { EntriesOfOneDocument(kv, t, id, f, t', id', f', k); }
  }

  lemma DocEntryInRegion(kv: Kv, t: Table, id: str, f: Fields, k: Key)
    requires k in DocEntries(kv, t, id, f)
    ensures TablePrefix(t, INDEX) <= k
  {
    var _, name := DerivedFrom(t, map[id := f], Catalog(kv, t), k);
    EntryInRegion(t, Catalog(kv, t)[name], id, f);
  }

  /** An entry key belongs to one document of one table. */
  lemma EntriesOfOneDocument(kv: Kv, t: Table, id: str, f: Fields, t': Table, id': str, f': Fields, k: Key)
    requires t.Valid() && t'.Valid() && Covered(kv, t) && Covered(kv, t')
    requires k in DocEntries(kv, t, id, f) && k in DocEntries(kv, t', id', f')
    ensures t == t' && id == id'
  {
    DocEntryInRegion(kv, t, id, f, k);
    DocEntryInRegion(kv, t', id', f', k);
    RegionsDisjoint(t, INDEX, t', INDEX, k);
    CatalogIsGood(kv, t);
    var _, name := DerivedFrom(t, map[id := f], Catalog(kv, t), k);
    var _, name' := DerivedFrom(t, map[id' := f'], Catalog(kv, t), k);
    EntryKeyInjective(t, Catalog(kv, t)[name], id, f, Catalog(kv, t)[name'], id', f');
  }

  /** What the statements run so far leave of the initial store. */
  ghost predicate Untouched(kv: Kv, kv': Kv, stmts: seq<Statement>) {
    forall t: Table :: t.Valid() ==> TableUntouched(kv, kv', stmts, t)
  }

  ghost predicate TableUntouched(kv: Kv, kv': Kv, stmts: seq<Statement>, t: Table) {
    && Catalog(kv', t) == Catalog(kv, t)
    && forall id :: (forall i :: 0 <= i < |stmts| && stmts[i].Create? && stmts[i].t == t ==> TargetId(stmts[i]) != id) ==>
         (id in Docs(kv', t) <==> id in Docs(kv, t)) && (id in Docs(kv, t) ==> Docs(kv', t)[id] == Docs(kv, t)[id])
  }

  /** An independent statement has the same effect later as at the start. */
  lemma SameDelta(kv: Kv, kv': Kv, stmts: seq<Statement>, s: Statement)
    requires Untouched(kv, kv', stmts) && ValidStatement(s)
    requires s.Create? ==> forall i :: 0 <= i < |stmts| && stmts[i].Create? && stmts[i].t == s.t ==> TargetId(stmts[i]) != TargetId(s)
    ensures StmtDelta(kv', s) == StmtDelta(kv, s) && (StmtOk(kv', s) <==> StmtOk(kv, s))
  {
    if s.Create? {
      assert TableUntouched(kv, kv', stmts, s.t);
    }
  }

  lemma StatementStep(kv: Kv, s: Statement)
    requires ValidStatement(s) && AllCovered(kv) && StmtOk(kv, s)
    requires s.Create? && s.conflict.None? ==> TargetId(s) !in Docs(kv, s.t)
    ensures AllCovered(Apply(kv, StmtDelta(kv, s))) && (AllConsistent(kv) ==> AllConsistent(Apply(kv, StmtDelta(kv, s))))
    ensures Untouched(kv, Apply(kv, StmtDelta(kv, s)), [s])
  {
    var kv' := Apply(kv, StmtDelta(kv, s));
    match s
    case Create(t, _, _, fields, conflict) =>
      var id := TargetId(s);
      if conflict.Some? && id in Docs(kv, t) {
        CreateStep(kv, t, id, Docs(kv, t)[id] + conflict.value, DocEntries(kv, t, id, Docs(kv, t)[id]), kv');
      } else {
        CreateStep(kv, t, id, fields, {}, kv');
      }
      forall t': Table | t'.Valid() ensures TableUntouched(kv, kv', [s], t') {
        if t' != t { TableFrame(kv, kv', t'); } else { assert [s][0] == s; }
      }
    case Relate(t, e, props) =>
      RelateStep(kv, t, e, props);
      forall t': Table | t'.Valid() ensures TableUntouched(kv, kv', [s], t') {
        TableFrame(kv, kv', t');
      }
  }

  lemma UntouchedStep(kv: Kv, kv': Kv, kv'': Kv, stmts: seq<Statement>, s: Statement)
    requires Untouched(kv, kv', stmts) && Untouched(kv', kv'', [s])
    ensures Untouched(kv, kv'', stmts + [s])
  {
    forall t: Table | t.Valid() ensures TableUntouched(kv, kv'', stmts + [s], t) {
      assert TableUntouched(kv, kv', stmts, t) && TableUntouched(kv', kv'', [s], t);
      forall id | forall i :: 0 <= i < |stmts + [s]| && (stmts + [s])[i].Create? && (stmts + [s])[i].t == t ==> TargetId((stmts + [s])[i]) != id
        ensures (id in Docs(kv'', t) <==> id in Docs(kv, t)) && (id in Docs(kv, t) ==> Docs(kv'', t)[id] == Docs(kv, t)[id])
      {
        assert forall i :: 0 <= i < |stmts| ==> (stmts + [s])[i] == stmts[i];
        assert (stmts + [s])[|stmts|] == s;
      }
    }
  }

  lemma ApplyCommutes(kv: Kv, a: Delta, b: Delta)
    requires forall k :: k in b.dels ==> k !in a.puts
    ensures Apply(Apply(kv, a), b) == Apply(kv, Delta(a.puts + b.puts, a.dels + b.dels))
  {
  }

  /**
   One atomic batch leaves the same store as the statements run one by one,
   when creates target distinct documents and plain creates absent ones.
   */
  lemma {:induction false} BatchEqualsSequence(kv: Kv, stmts: seq<Statement>)
    requires AllCovered(kv) && DistinctTargets(stmts) && PlainCreatesAbsent(kv, stmts)
    requires forall s :: s in stmts ==> ValidStatement(s) && StmtOk(kv, s)
    ensures OneByOne(kv, stmts) == Apply(kv, Merged(kv, stmts))
    ensures AllCovered(OneByOne(kv, stmts)) && (AllConsistent(kv) ==> AllConsistent(OneByOne(kv, stmts)))
    ensures Untouched(kv, OneByOne(kv, stmts), stmts)
  {
    if stmts == [] {
      assert kv - {} + map[] == kv;
    } else {
      var n := |stmts| - 1;
      var init, s := stmts[..n], stmts[n];
      assert stmts == init + [s] && s in stmts;
      assert forall r :: r in init ==> r in stmts;
      BatchEqualsSequence(kv, init);
      LastStatement(kv, init, s);
      assert OneByOne(kv, stmts) == Apply(OneByOne(kv, init), StmtDelta(OneByOne(kv, init), s));
    }
  }

  /** Run one by one, every statement is accepted and meets a store that keeps the invariants. */
  lemma EveryStatementAccepted(kv: Kv, stmts: seq<Statement>, i: nat)
    requires AllCovered(kv) && DistinctTargets(stmts) && PlainCreatesAbsent(kv, stmts) && i < |stmts|
    requires forall s :: s in stmts ==> ValidStatement(s) && StmtOk(kv, s)
    ensures AllCovered(OneByOne(kv, stmts[..i])) && (AllConsistent(kv) ==> AllConsistent(OneByOne(kv, stmts[..i])))
    ensures StmtOk(OneByOne(kv, stmts[..i]), stmts[i])
    ensures stmts[i].Create? && stmts[i].conflict.None? ==> TargetId(stmts[i]) !in Docs(OneByOne(kv, stmts[..i]), stmts[i].t)
    ensures OneByOne(kv, stmts[..i + 1]) == Apply(OneByOne(kv, stmts[..i]), StmtDelta(OneByOne(kv, stmts[..i]), stmts[i]))
  {
    var init, s := stmts[..i], stmts[i];
    assert s in stmts && forall r :: r in init ==> r in stmts;
    assert stmts[..i + 1] == init + [s] && stmts[..i + 1][..i] == init;
    BatchEqualsSequence(kv, init);
    LastStatement(kv, init, s);
  }

  /** The induction step: the last statement after the independent ones before it. */
  lemma LastStatement(kv: Kv, init: seq<Statement>, s: Statement)
    requires AllCovered(kv) && DistinctTargets(init + [s]) && ValidStatement(s) && StmtOk(kv, s)
    requires s.Create? && s.conflict.None? ==> TargetId(s) !in Docs(kv, s.t)
    requires forall r :: r in init ==> ValidStatement(r)
    requires OneByOne(kv, init) == Apply(kv, Merged(kv, init))
    requires AllCovered(OneByOne(kv, init)) && Untouched(kv, OneByOne(kv, init), init)
    ensures var before := OneByOne(kv, init);
      var after := Apply(before, StmtDelta(before, s));
      && after == Apply(kv, Merged(kv, init + [s]))
      && AllCovered(after) && (AllConsistent(before) ==> AllConsistent(after)) && Untouched(kv, after, init + [s]) && StmtOk(before, s)
      && (s.Create? && s.conflict.None? ==> TargetId(s) !in Docs(before, s.t))
  {
    var before := OneByOne(kv, init);
    if s.Create? { OthersTargeted(init, s); }
    SameDelta(kv, before, init, s);
    if s.Create? { assert TableUntouched(kv, before, init, s.t); }
    StatementStep(before, s);
    UntouchedStep(kv, before, Apply(before, StmtDelta(before, s)), init, s);
    DelsNotWritten(kv, init, s);
    ApplyCommutes(kv, Merged(kv, init), StmtDelta(kv, s));
    assert (init + [s])[..|init|] == init;
  }

  lemma OthersTargeted(init: seq<Statement>, s: Statement)
    requires DistinctTargets(init + [s]) && s.Create?
    ensures forall i :: 0 <= i < |init| && init[i].Create? && init[i].t == s.t ==> TargetId(init[i]) != TargetId(s)
  {
    var all := init + [s];
    forall i | 0 <= i < |init| && init[i].Create? && init[i].t == s.t ensures TargetId(init[i]) != TargetId(s) {
      assert all[i] == init[i] && all[|init|] == s;
    }
  }

  lemma DelsNotWritten(kv: Kv, init: seq<Statement>, s: Statement)
    requires AllCovered(kv) && ValidStatement(s)
    requires forall r :: r in init ==> ValidStatement(r)
    requires s.Create? ==> forall i :: 0 <= i < |init| && init[i].Create? && init[i].t == s.t ==> TargetId(init[i]) != TargetId(s)
    ensures forall k :: k in StmtDelta(kv, s).dels ==> k !in Merged(kv, init).puts
  {
    forall k | k in StmtDelta(kv, s).dels ensures k !in Merged(kv, init).puts {
      if k in Merged(kv, init).puts {
        MergedPuts(kv, init, k);
        var i :| 0 <= i < |init| && k in StmtDelta(kv, init[i]).puts;
        NoWriteToEntries(kv, init[i], s.t, TargetId(s), Docs(kv, s.t)[TargetId(s)], k);
      }
    }
  }
}
