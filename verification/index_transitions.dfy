/** How one atomic batch moves a table from state to state, and why the index invariant survives. */
module IndexTransitions {
  import opened Bytes
  import opened Wrappers
  import opened Records
  import opened Keys
  import opened StorageModel
  import opened IndexEncoding
  import opened IndexState

  predicate SameAt(kv: Kv, kv': Kv, k: Key) {
    if k in kv then k in kv' && kv'[k] == kv[k] else k !in kv'
  }

  lemma ApplyBatchAt(kv: Kv, puts: seq<(Key, Blob)>, deletes: seq<Key>, k: Key)
    ensures k in ApplyBatch(kv, puts, deletes) <==> k in KeysOf(puts) || (k in kv && k !in deletes)
    ensures k !in KeysOf(puts) && k !in deletes ==> SameAt(kv, ApplyBatch(kv, puts, deletes), k)
    ensures k in KeysOf(puts) ==> exists i :: 0 <= i < |puts| && puts[i].0 == k && ApplyBatch(kv, puts, deletes)[k] == puts[i].1
  {
    ApplyPutsDomain(ApplyDeletes(kv, deletes), puts, k);
  }

  // -------------------------------------------------------------------------
  // Frames
  // -------------------------------------------------------------------------

  /** Nothing of table `t` that its documents, catalog or indexes can see has changed. */
  ghost predicate SameTable(kv: Kv, kv': Kv, t: Table) {
    && (forall k :: TablePrefix(t, DOCUMENT) <= k ==> SameAt(kv, kv', k))
    && (forall k :: TablePrefix(t, METADATA) <= k ==> SameAt(kv, kv', k))
    && (forall k :: TablePrefix(t, INDEX) <= k ==> SameAt(kv, kv', k))
  }

  lemma SameTableTransitive(kv: Kv, kv': Kv, kv'': Kv, t: Table)
    requires SameTable(kv, kv', t) && SameTable(kv', kv'', t)
    ensures SameTable(kv, kv'', t)
  {
    forall k, tag | tag in {DOCUMENT, METADATA, INDEX} && TablePrefix(t, tag) <= k ensures SameAt(kv, kv'', k) {
      assert SameAt(kv, kv', k) && SameAt(kv', kv'', k);
    }
  }

  /** Only the document `id` and the index region of `t` may differ. */
  ghost predicate ChangedOnly(kv: Kv, kv': Kv, t: Table, id: str) {
    forall k :: !(TablePrefix(t, INDEX) <= k) && k != DocumentKey(t, id) ==> SameAt(kv, kv', k)
  }

  /** Only the catalog entry `name` and the index region of `t` may differ. */
  ghost predicate ChangedOnlyDef(kv: Kv, kv': Kv, t: Table, name: str) {
    forall k :: !(TablePrefix(t, INDEX) <= k) && k != CatalogKey(t, name) ==> SameAt(kv, kv', k)
  }

  lemma DocsFrame(kv: Kv, kv': Kv, t: Table)
    requires forall k :: TablePrefix(t, DOCUMENT) <= k ==> SameAt(kv, kv', k)
    ensures Docs(kv', t) == Docs(kv, t)
  {
    forall id ensures id in DocIds(kv, t) <==> id in DocIds(kv', t) {
      InDocIds(kv, t, id);
      InDocIds(kv', t, id);
      assert SameAt(kv, kv', DocumentKey(t, id));
    }
    forall id | id in DocIds(kv, t) ensures FieldsAt(kv, DocumentKey(t, id)) == FieldsAt(kv', DocumentKey(t, id)) {
      assert SameAt(kv, kv', DocumentKey(t, id));
    }
  }

  lemma CatalogFrame(kv: Kv, kv': Kv, t: Table)
    requires forall k :: CatalogPrefix(t) <= k ==> SameAt(kv, kv', k)
    ensures Catalog(kv', t) == Catalog(kv, t)
  {
    forall name ensures name in CatalogNames(kv, t) <==> name in CatalogNames(kv', t) {
      InCatalogNames(kv, t, name);
      InCatalogNames(kv', t, name);
      assert SameAt(kv, kv', CatalogKey(t, name));
    }
    forall name | name in CatalogNames(kv, t) ensures DefAt(kv, CatalogKey(t, name)) == DefAt(kv', CatalogKey(t, name)) {
      assert SameAt(kv, kv', CatalogKey(t, name));
    }
  }

  lemma TableFrame(kv: Kv, kv': Kv, t: Table)
    requires SameTable(kv, kv', t)
    ensures Docs(kv', t) == Docs(kv, t) && Catalog(kv', t) == Catalog(kv, t)
    ensures (Consistent(kv, t) ==> Consistent(kv', t)) && (Covered(kv, t) ==> Covered(kv', t))
  {
    assert TablePrefix(t, METADATA) <= CatalogPrefix(t);
    DocsFrame(kv, kv', t);
    CatalogFrame(kv, kv', t);
    forall k, tag | tag in {DOCUMENT, METADATA, INDEX} && TablePrefix(t, tag) <= k
      ensures k in kv <==> k in kv'
      ensures k in kv ==> kv[k] == kv'[k]
    {
      assert SameAt(kv, kv', k);
    }
    assert IndexRegion(kv', t) == IndexRegion(kv, t);
    if WellFormed(kv, t) {
      forall k | k in kv' ensures GoodBlob(kv', t, k) {
        if TablePrefix(t, DOCUMENT) <= k || TablePrefix(t, METADATA) <= k || TablePrefix(t, INDEX) <= k {
          assert SameAt(kv, kv', k) && GoodBlob(kv, t, k);
        }
      }
    }
  }

  /** Writes confined to one table leave every other table alone. */
  lemma OtherTableFrame(kv: Kv, kv': Kv, t: Table, id: str, t': Table)
    requires t.Valid() && t'.Valid() && t != t' && ChangedOnly(kv, kv', t, id)
    ensures SameTable(kv, kv', t')
  {
    forall k, tag | tag in {DOCUMENT, METADATA, INDEX} && TablePrefix(t', tag) <= k ensures SameAt(kv, kv', k) {
      if TablePrefix(t, INDEX) <= k { RegionsDisjoint(t, INDEX, t', tag, k); }
      if k == DocumentKey(t, id) { RegionsDisjoint(t, DOCUMENT, t', tag, k); }
    }
  }

  lemma OtherTableFrameDef(kv: Kv, kv': Kv, t: Table, name: str, t': Table)
    requires t.Valid() && t'.Valid() && t != t' && ChangedOnlyDef(kv, kv', t, name)
    ensures SameTable(kv, kv', t')
  {
    forall k, tag | tag in {DOCUMENT, METADATA, INDEX} && TablePrefix(t', tag) <= k ensures SameAt(kv, kv', k) {
      if TablePrefix(t, INDEX) <= k { RegionsDisjoint(t, INDEX, t', tag, k); }
      if k == CatalogKey(t, name) { RegionsDisjoint(t, METADATA, t', tag, k); }
    }
  }

  /** No edge of `t` has changed. */
  ghost predicate EdgesSame(kv: Kv, kv': Kv, t: Table) {
    forall k :: TablePrefix(t, GRAPH_EDGE) <= k ==> SameAt(kv, kv', k)
  }

  /** No edge of any table has changed. */
  ghost predicate GraphSame(kv: Kv, kv': Kv) {
    forall t: Table {:trigger EdgesSame(kv, kv', t)} :: t.Valid() ==> EdgesSame(kv, kv', t)
  }

  lemma GraphSameTransitive(kv: Kv, kv': Kv, kv'': Kv)
    requires GraphSame(kv, kv') && GraphSame(kv', kv'')
    ensures GraphSame(kv, kv'')
  {
    forall t: Table | t.Valid() ensures EdgesSame(kv, kv'', t) {
      assert EdgesSame(kv, kv', t) && EdgesSame(kv', kv'', t);
      forall k | TablePrefix(t, GRAPH_EDGE) <= k ensures SameAt(kv, kv'', k) { assert SameAt(kv, kv', k) && SameAt(kv', kv'', k); }
    }
  }

  /** Document writes and index definitions leave every edge alone. */
  lemma DocumentWriteKeepsEdges(kv: Kv, kv': Kv, t: Table, id: str)
    requires t.Valid() && ChangedOnly(kv, kv', t, id)
    ensures GraphSame(kv, kv')
  {
    forall t': Table, k | t'.Valid() && TablePrefix(t', GRAPH_EDGE) <= k ensures SameAt(kv, kv', k) {
      if TablePrefix(t, INDEX) <= k { RegionsDisjoint(t, INDEX, t', GRAPH_EDGE, k); }
      if k == DocumentKey(t, id) { RegionsDisjoint(t, DOCUMENT, t', GRAPH_EDGE, k); }
    }
  }

  lemma DefinitionKeepsEdges(kv: Kv, kv': Kv, t: Table, name: str)
    requires t.Valid() && ChangedOnlyDef(kv, kv', t, name)
    ensures GraphSame(kv, kv')
  {
    forall t': Table, k | t'.Valid() && TablePrefix(t', GRAPH_EDGE) <= k ensures SameAt(kv, kv', k) {
      if TablePrefix(t, INDEX) <= k { RegionsDisjoint(t, INDEX, t', GRAPH_EDGE, k); }
      if k == CatalogKey(t, name) { RegionsDisjoint(t, METADATA, t', GRAPH_EDGE, k); }
    }
  }

  // -------------------------------------------------------------------------
  // Derived entries under document updates
  // -------------------------------------------------------------------------

  predicate GoodNames(catalog: map<str, IndexDefinition>) {
    forall name :: name in catalog ==> catalog[name].name == name && GoodDef(catalog[name])
  }

  lemma CatalogIsGood(kv: Kv, t: Table)
    requires WellFormed(kv, t)
    ensures GoodNames(Catalog(kv, t))
  {
    forall name | name in Catalog(kv, t) ensures Catalog(kv, t)[name].name == name && GoodDef(Catalog(kv, t)[name]) {
      GoodCatalog(kv, t, name);
    }
  }

  /** Entries of distinct documents never collide. */
  lemma EntriesOfOthers(t: Table, docs: map<str, Fields>, catalog: map<str, IndexDefinition>, id: str, f: Fields)
    requires GoodNames(catalog) && id !in docs
    ensures DerivedEntries(t, docs, catalog) !! DerivedEntries(t, map[id := f], catalog)
  {
    forall k | k in DerivedEntries(t, docs, catalog) && k in DerivedEntries(t, map[id := f], catalog) ensures false {
      var id1, n1 := DerivedFrom(t, docs, catalog, k);
      var id2, n2 := DerivedFrom(t, map[id := f], catalog, k);
      EntryKeyInjective(t, catalog[n1], id1, docs[id1], catalog[n2], id2, f);
    }
  }

  lemma InDerived(t: Table, docs: map<str, Fields>, catalog: map<str, IndexDefinition>, id: str, name: str)
    requires id in docs && name in catalog && HasEntry(t, catalog[name], id, docs[id])
    ensures EntryOf(t, catalog[name], id, docs[id]) in DerivedEntries(t, docs, catalog)
  {
  }

  lemma DerivedMonotone(t: Table, docs: map<str, Fields>, more: map<str, Fields>, catalog: map<str, IndexDefinition>)
    requires forall id :: id in docs ==> id in more && more[id] == docs[id]
    ensures DerivedEntries(t, docs, catalog) <= DerivedEntries(t, more, catalog)
  {
    forall k | k in DerivedEntries(t, docs, catalog) ensures k in DerivedEntries(t, more, catalog) {
      var id, name := DerivedFrom(t, docs, catalog, k);
      InDerived(t, more, catalog, id, name);
    }
  }

  /** Adding a document adds exactly its own entries. */
  lemma DerivedAdd(t: Table, docs: map<str, Fields>, catalog: map<str, IndexDefinition>, id: str, f: Fields)
    requires id !in docs
    ensures DerivedEntries(t, docs[id := f], catalog) == DerivedEntries(t, docs, catalog) + DerivedEntries(t, map[id := f], catalog)
  {
    DerivedMonotone(t, docs, docs[id := f], catalog);
    DerivedMonotone(t, map[id := f], docs[id := f], catalog);
    forall k | k in DerivedEntries(t, docs[id := f], catalog)
      ensures k in DerivedEntries(t, docs, catalog) || k in DerivedEntries(t, map[id := f], catalog)
    {
      var id', name := DerivedFrom(t, docs[id := f], catalog, k);
      if id' == id { InDerived(t, map[id := f], catalog, id, name); } else { InDerived(t, docs, catalog, id', name); }
    }
  }

  /** Removing a document removes exactly its own entries. */
  lemma DerivedRemove(t: Table, docs: map<str, Fields>, catalog: map<str, IndexDefinition>, id: str)
    requires GoodNames(catalog) && id in docs
    ensures DerivedEntries(t, docs - {id}, catalog) == DerivedEntries(t, docs, catalog) - DerivedEntries(t, map[id := docs[id]], catalog)
  {
    assert (docs - {id})[id := docs[id]] == docs;
    DerivedAdd(t, docs - {id}, catalog, id, docs[id]);
    EntriesOfOthers(t, docs - {id}, catalog, id, docs[id]);
  }

  /** The keys built for one document are its derived entries. */
  lemma BuiltAreDerived(t: Table, defs: seq<IndexDefinition>, catalog: map<str, IndexDefinition>, id: str, f: Fields)
    requires Loaded(catalog, defs) && EntriesFor(t, defs, id, f).Ok?
    ensures (set k | k in EntriesFor(t, defs, id, f).value) == DerivedEntries(t, map[id := f], catalog)
    ensures forall k :: k in EntriesFor(t, defs, id, f).value ==> TablePrefix(t, INDEX) <= k
  {
    var built := EntriesFor(t, defs, id, f).value;
    forall k ensures k in built <==> k in DerivedEntries(t, map[id := f], catalog) {
      if k in built {
        var d :| d in defs && EntryFor(t, d, id, f) == Ok(Some(k));
        assert d.name in catalog && catalog[d.name] == d;
        InDerived(t, map[id := f], catalog, id, d.name);
      }
      if k in DerivedEntries(t, map[id := f], catalog) {
        var _, name := DerivedFrom(t, map[id := f], catalog, k);
        assert catalog[name] in defs && EntryFor(t, catalog[name], id, f) == Ok(Some(k));
      }
    }
    forall k | k in built ensures TablePrefix(t, INDEX) <= k {
      var d :| d in defs && EntryFor(t, d, id, f) == Ok(Some(k));
      EntryInRegion(t, d, id, f);
    }
  }

  /** `defs` lists the catalog. */
  ghost predicate Loaded(catalog: map<str, IndexDefinition>, defs: seq<IndexDefinition>) {
    && GoodNames(catalog)
    && (forall d :: d in defs ==> d.name in catalog && catalog[d.name] == d)
    && (forall name :: name in catalog ==> catalog[name] in defs)
  }

  // -------------------------------------------------------------------------
  // Leftover entries
  // -------------------------------------------------------------------------

  /** The region changes by derived entries only: what no document derived before stays. */
  ghost predicate LeftoversStay(kv: Kv, kv': Kv, t: Table) {
    IndexRegion(kv', t) == (IndexRegion(kv, t) - DerivedEntries(t, Docs(kv, t), Catalog(kv, t))) + DerivedEntries(t, Docs(kv', t), Catalog(kv', t))
  }

  lemma NothingMoves(kv: Kv, t: Table)
    requires Covered(kv, t)
    ensures LeftoversStay(kv, kv, t)
  {
  }

  /** Two steps in a row, when the second changes no document that the first has changed. */
  lemma LeftoversStayOn(kv: Kv, mid: Kv, kv': Kv, t: Table)
    requires LeftoversStay(kv, mid, t) && LeftoversStay(mid, kv', t) && Catalog(mid, t) == Catalog(kv, t) == Catalog(kv', t)
    requires forall id :: id in Docs(mid, t) ==>
      (id in Docs(kv', t) && Docs(kv', t)[id] == Docs(mid, t)[id]) || (id in Docs(kv, t) && Docs(kv, t)[id] == Docs(mid, t)[id])
    ensures LeftoversStay(kv, kv', t)
  {
    var catalog := Catalog(kv, t);
    var before, between, after := DerivedEntries(t, Docs(kv, t), catalog), DerivedEntries(t, Docs(mid, t), catalog), DerivedEntries(t, Docs(kv', t), catalog);
    forall k | k in between ensures k in before || k in after {
      var id, name := DerivedFrom(t, Docs(mid, t), catalog, k);
      if id in Docs(kv', t) && Docs(kv', t)[id] == Docs(mid, t)[id] {
        InDerived(t, Docs(kv', t), catalog, id, name);
      } else {
        InDerived(t, Docs(kv, t), catalog, id, name);
      }
    }
  }

  // -------------------------------------------------------------------------
  // Writing and deleting one document
  // -------------------------------------------------------------------------

  function WriteDoc(kv: Kv, t: Table, id: str, f: Fields, newKeys: seq<Key>, oldKeys: seq<Key>): Kv {
    ApplyBatch(kv, [(DocumentKey(t, id), FieldsBlob(f))] + EntryPuts(newKeys), oldKeys)
  }

  function DropDoc(kv: Kv, t: Table, id: str, oldKeys: seq<Key>): Kv {
    ApplyDeletes(kv, [DocumentKey(t, id)] + oldKeys)
  }

  ghost predicate IndexKeys(t: Table, keys: seq<Key>) {
    forall k :: k in keys ==> TablePrefix(t, INDEX) <= k
  }

  lemma DocKeyOutsideIndexes(t: Table, id: str)
    requires t.Valid()
    ensures !(TablePrefix(t, INDEX) <= DocumentKey(t, id))
    ensures !(CatalogPrefix(t) <= DocumentKey(t, id))
  {
    var k := DocumentKey(t, id);
    if TablePrefix(t, INDEX) <= k { RegionsDisjoint(t, INDEX, t, DOCUMENT, k); }
    if CatalogPrefix(t) <= k {
      assert TablePrefix(t, METADATA) <= CatalogPrefix(t);
      RegionsDisjoint(t, METADATA, t, DOCUMENT, k);
    }
  }

  lemma WriteDocAt(kv: Kv, t: Table, id: str, f: Fields, newKeys: seq<Key>, oldKeys: seq<Key>, k: Key)
    requires t.Valid() && IndexKeys(t, newKeys) && IndexKeys(t, oldKeys)
    ensures k == DocumentKey(t, id) ==> k in WriteDoc(kv, t, id, f, newKeys, oldKeys) && WriteDoc(kv, t, id, f, newKeys, oldKeys)[k] == FieldsBlob(f)
    ensures k in newKeys ==> k in WriteDoc(kv, t, id, f, newKeys, oldKeys) && WriteDoc(kv, t, id, f, newKeys, oldKeys)[k] == Empty
    ensures k != DocumentKey(t, id) && k !in newKeys && k in oldKeys ==> k !in WriteDoc(kv, t, id, f, newKeys, oldKeys)
    ensures k != DocumentKey(t, id) && k !in newKeys && k !in oldKeys ==> SameAt(kv, WriteDoc(kv, t, id, f, newKeys, oldKeys), k)
  {
    var puts := [(DocumentKey(t, id), FieldsBlob(f))] + EntryPuts(newKeys);
    assert KeysOf(puts) == [DocumentKey(t, id)] + newKeys;
    DocKeyOutsideIndexes(t, id);
    forall i | 0 < i < |puts| ensures puts[i] == (newKeys[i - 1], Empty) && puts[i].0 != DocumentKey(t, id) {
      assert newKeys[i - 1] in newKeys;
    }
    ApplyBatchAt(kv, puts, oldKeys, k);
  }

  /** What one document write leaves behind. */
  lemma WriteView(kv: Kv, t: Table, id: str, f: Fields, newKeys: seq<Key>, oldKeys: seq<Key>, kv': Kv)
    requires t.Valid() && IndexKeys(t, newKeys) && IndexKeys(t, oldKeys)
    requires kv' == WriteDoc(kv, t, id, f, newKeys, oldKeys)
    ensures ChangedOnly(kv, kv', t, id)
    ensures Docs(kv', t) == Docs(kv, t)[id := f] && Catalog(kv', t) == Catalog(kv, t)
    ensures IndexRegion(kv', t) == IndexRegion(kv, t) - (set k | k in oldKeys) + (set k | k in newKeys)
  {
    forall k ensures !(TablePrefix(t, INDEX) <= k) && k != DocumentKey(t, id) ==> SameAt(kv, kv', k) {
      WriteDocAt(kv, t, id, f, newKeys, oldKeys, k);
    }
    WriteDocAt(kv, t, id, f, newKeys, oldKeys, DocumentKey(t, id));
    DocsAfter(kv, kv', t, id);
    CatalogAfter(kv, kv', t, id);
    InDocIds(kv', t, id);
    DocKeyOutsideIndexes(t, id);
    forall k ensures k in IndexRegion(kv', t) <==> k in newKeys || (k in IndexRegion(kv, t) && k !in oldKeys) {
      WriteDocAt(kv, t, id, f, newKeys, oldKeys, k);
    }
  }

  lemma EncodableAdd(t: Table, docs: map<str, Fields>, catalog: map<str, IndexDefinition>, defs: seq<IndexDefinition>, id: str, f: Fields)
    requires Loaded(catalog, defs) && EntriesFor(t, defs, id, f).Ok? && AllEncodable(t, docs, catalog)
    ensures AllEncodable(t, docs[id := f], catalog)
  {
    var more := docs[id := f];
    forall id', name | id' in more && name in catalog ensures EntryFor(t, catalog[name], id', more[id']).Ok? {
      assert catalog[name] in defs;
    }
  }

  lemma DerivedReplace(t: Table, docs: map<str, Fields>, catalog: map<str, IndexDefinition>, id: str, f: Fields)
    requires GoodNames(catalog)
    ensures DerivedEntries(t, docs[id := f], catalog) ==
            DerivedEntries(t, docs, catalog) - (if id in docs then DerivedEntries(t, map[id := docs[id]], catalog) else {})
            + DerivedEntries(t, map[id := f], catalog)
  {
    if id in docs {
      DerivedRemove(t, docs, catalog, id);
      DerivedAdd(t, docs - {id}, catalog, id, f);
      assert (docs - {id})[id := f] == docs[id := f];
    } else {
      DerivedAdd(t, docs, catalog, id, f);
    }
  }

  /** The invariants through one document write that replaces whatever was stored under `id`. */
  lemma WriteKeepsConsistent(kv: Kv, t: Table, defs: seq<IndexDefinition>, id: str, f: Fields, newKeys: seq<Key>, oldKeys: seq<Key>, kv': Kv)
    requires t.Valid() && Utf8(id) && Covered(kv, t) && Loaded(Catalog(kv, t), defs)
    requires EntriesFor(t, defs, id, f) == Ok(newKeys)
    requires if id in Docs(kv, t) then EntriesFor(t, defs, id, Docs(kv, t)[id]) == Ok(oldKeys) else oldKeys == []
    requires kv' == WriteDoc(kv, t, id, f, newKeys, oldKeys)
    ensures Covered(kv', t) && (Consistent(kv, t) ==> Consistent(kv', t))
    ensures Docs(kv', t) == Docs(kv, t)[id := f] && Catalog(kv', t) == Catalog(kv, t)
    ensures ChangedOnly(kv, kv', t, id) && LeftoversStay(kv, kv', t)
  {
    KeysAreIndexKeys(kv, t, defs, id, f);
    if id in Docs(kv, t) { KeysAreIndexKeys(kv, t, defs, id, Docs(kv, t)[id]); }
    WriteView(kv, t, id, f, newKeys, oldKeys, kv');
    WriteMoves(kv, t, defs, id, f, newKeys, oldKeys, kv');
    EncodableAdd(t, Docs(kv, t), Catalog(kv, t), defs, id, f);
    WellFormedAfterWrite(kv, t, id, f, newKeys, oldKeys);
  }

  lemma KeysAreIndexKeys(kv: Kv, t: Table, defs: seq<IndexDefinition>, id: str, f: Fields)
    requires Loaded(Catalog(kv, t), defs) && EntriesFor(t, defs, id, f).Ok?
    ensures IndexKeys(t, EntriesFor(t, defs, id, f).value)
  {
    BuiltAreDerived(t, defs, Catalog(kv, t), id, f);
  }

  /** The region and what the documents derive move together. */
  lemma WriteMoves(kv: Kv, t: Table, defs: seq<IndexDefinition>, id: str, f: Fields, newKeys: seq<Key>, oldKeys: seq<Key>, kv': Kv)
    requires Loaded(Catalog(kv, t), defs) && DerivedEntries(t, Docs(kv, t), Catalog(kv, t)) <= IndexRegion(kv, t)
    requires EntriesFor(t, defs, id, f) == Ok(newKeys)
    requires if id in Docs(kv, t) then EntriesFor(t, defs, id, Docs(kv, t)[id]) == Ok(oldKeys) else oldKeys == []
    requires Docs(kv', t) == Docs(kv, t)[id := f] && Catalog(kv', t) == Catalog(kv, t)
    requires IndexRegion(kv', t) == IndexRegion(kv, t) - (set k | k in oldKeys) + (set k | k in newKeys)
    ensures LeftoversStay(kv, kv', t) && DerivedEntries(t, Docs(kv', t), Catalog(kv', t)) <= IndexRegion(kv', t)
    ensures IndexRegion(kv, t) == DerivedEntries(t, Docs(kv, t), Catalog(kv, t)) ==> IndexRegion(kv', t) == DerivedEntries(t, Docs(kv', t), Catalog(kv', t))
  {
    var docs, catalog := Docs(kv, t), Catalog(kv, t);
    BuiltAreDerived(t, defs, catalog, id, f);
    DerivedReplace(t, docs, catalog, id, f);
    if id in docs {
      BuiltAreDerived(t, defs, catalog, id, docs[id]);
      DerivedMonotone(t, map[id := docs[id]], docs, catalog);
      RegionFollows(kv, kv', t, DerivedEntries(t, map[id := docs[id]], catalog), DerivedEntries(t, map[id := f], catalog));
    } else {
      assert (set k | k in oldKeys) == {};
      RegionFollows(kv, kv', t, {}, DerivedEntries(t, map[id := f], catalog));
    }
  }

  lemma RegionFollows(kv: Kv, kv': Kv, t: Table, before: set<Key>, after: set<Key>)
    requires before <= DerivedEntries(t, Docs(kv, t), Catalog(kv, t)) <= IndexRegion(kv, t)
    requires IndexRegion(kv', t) == IndexRegion(kv, t) - before + after
    requires DerivedEntries(t, Docs(kv', t), Catalog(kv', t)) == DerivedEntries(t, Docs(kv, t), Catalog(kv, t)) - before + after
    ensures LeftoversStay(kv, kv', t) && DerivedEntries(t, Docs(kv', t), Catalog(kv', t)) <= IndexRegion(kv', t)
    ensures IndexRegion(kv, t) == DerivedEntries(t, Docs(kv, t), Catalog(kv, t)) ==> IndexRegion(kv', t) == DerivedEntries(t, Docs(kv', t), Catalog(kv', t))
  {
    RegionMoves(IndexRegion(kv, t), DerivedEntries(t, Docs(kv, t), Catalog(kv, t)), before, after);
  }

  /** A region that gives up `before` for `after`, as its derived part does, keeps the rest. */
  lemma RegionMoves(region: set<Key>, derived: set<Key>, before: set<Key>, after: set<Key>)
    requires before <= derived <= region
    ensures derived - before + after <= region - before + after == (region - derived) + (derived - before + after)
    ensures region == derived ==> region - before + after == derived - before + after
  {
  }

  lemma DocsAfter(kv: Kv, kv': Kv, t: Table, id: str)
    requires t.Valid() && ChangedOnly(kv, kv', t, id)
    ensures forall id' :: id' != id ==> (id' in Docs(kv', t) <==> id' in Docs(kv, t))
    ensures forall id' :: id' != id && id' in Docs(kv, t) ==> Docs(kv', t)[id'] == Docs(kv, t)[id']
  {
    forall id' | id' != id ensures id' in Docs(kv', t) <==> id' in Docs(kv, t)
      ensures id' in Docs(kv, t) ==> Docs(kv', t)[id'] == Docs(kv, t)[id']
    {
      InDocIds(kv, t, id');
      InDocIds(kv', t, id');
      DocKeyOutsideIndexes(t, id');
      var p := TablePrefix(t, DOCUMENT);
      assert DocumentKey(t, id')[|p|..] == id' && DocumentKey(t, id)[|p|..] == id;
      assert SameAt(kv, kv', DocumentKey(t, id'));
    }
  }

  lemma CatalogAfter(kv: Kv, kv': Kv, t: Table, id: str)
    requires t.Valid() && ChangedOnly(kv, kv', t, id)
    ensures Catalog(kv', t) == Catalog(kv, t)
  {
    forall k | CatalogPrefix(t) <= k ensures SameAt(kv, kv', k) {
      CatalogKeyOutside(t, k);
      DocKeyOutsideIndexes(t, id);
    }
    CatalogFrame(kv, kv', t);
  }

  lemma CatalogKeyOutside(t: Table, k: Key)
    requires t.Valid() && CatalogPrefix(t) <= k
    ensures !(TablePrefix(t, INDEX) <= k) && !(TablePrefix(t, DOCUMENT) <= k)
  {
    assert TablePrefix(t, METADATA) <= CatalogPrefix(t);
    if TablePrefix(t, INDEX) <= k { RegionsDisjoint(t, INDEX, t, METADATA, k); }
    if TablePrefix(t, DOCUMENT) <= k { RegionsDisjoint(t, DOCUMENT, t, METADATA, k); }
  }

  lemma WellFormedAfterWrite(kv: Kv, t: Table, id: str, f: Fields, newKeys: seq<Key>, oldKeys: seq<Key>)
    requires t.Valid() && Utf8(id) && WellFormed(kv, t) && IndexKeys(t, newKeys) && IndexKeys(t, oldKeys)
    ensures WellFormed(WriteDoc(kv, t, id, f, newKeys, oldKeys), t)
  {
    var kv' := WriteDoc(kv, t, id, f, newKeys, oldKeys);
    var p := TablePrefix(t, DOCUMENT);
    assert DocumentKey(t, id)[|p|..] == id;
    DocKeyOutsideIndexes(t, id);
    forall k | k in kv' ensures GoodBlob(kv', t, k) {
      WriteDocAt(kv, t, id, f, newKeys, oldKeys, k);
      assert k in kv ==> GoodBlob(kv, t, k);
      if CatalogPrefix(t) <= k { CatalogKeyOutside(t, k); }
      if p <= k && TablePrefix(t, INDEX) <= k { RegionsDisjoint(t, INDEX, t, DOCUMENT, k); }
    }
  }

  lemma DropView(kv: Kv, t: Table, id: str, oldKeys: seq<Key>, kv': Kv)
    requires t.Valid() && IndexKeys(t, oldKeys)
    requires kv' == DropDoc(kv, t, id, oldKeys)
    ensures ChangedOnly(kv, kv', t, id)
    ensures Docs(kv', t) == Docs(kv, t) - {id} && Catalog(kv', t) == Catalog(kv, t)
    ensures IndexRegion(kv', t) == IndexRegion(kv, t) - (set k | k in oldKeys)
  {
    DocsAfter(kv, kv', t, id);
    CatalogAfter(kv, kv', t, id);
    InDocIds(kv', t, id);
    DocKeyOutsideIndexes(t, id);
  }

  /** The invariants through the deletion of a stored document. */
  lemma DropKeepsConsistent(kv: Kv, t: Table, defs: seq<IndexDefinition>, id: str, oldKeys: seq<Key>, kv': Kv)
    requires t.Valid() && Covered(kv, t) && Loaded(Catalog(kv, t), defs)
    requires id in Docs(kv, t) && EntriesFor(t, defs, id, Docs(kv, t)[id]) == Ok(oldKeys)
    requires kv' == DropDoc(kv, t, id, oldKeys)
    ensures Covered(kv', t) && (Consistent(kv, t) ==> Consistent(kv', t))
    ensures Docs(kv', t) == Docs(kv, t) - {id} && Catalog(kv', t) == Catalog(kv, t)
    ensures ChangedOnly(kv, kv', t, id) && LeftoversStay(kv, kv', t)
  {
    var docs, catalog := Docs(kv, t), Catalog(kv, t);
    BuiltAreDerived(t, defs, catalog, id, docs[id]);
    DropView(kv, t, id, oldKeys, kv');
    DerivedRemove(t, docs, catalog, id);
    WellFormedSubset(kv, kv', t);
  }

  lemma WellFormedSubset(kv: Kv, kv': Kv, t: Table)
    requires WellFormed(kv, t) && forall k :: k in kv' ==> k in kv && kv'[k] == kv[k]
    ensures WellFormed(kv', t)
  {
    forall k | k in kv' ensures GoodBlob(kv', t, k) {
      assert GoodBlob(kv, t, k);
    }
  }

  // -------------------------------------------------------------------------
  // Defining and removing an index
  // -------------------------------------------------------------------------

  /** A definition under a new name adds exactly the entries of that definition. */
  lemma DerivedDefine(t: Table, docs: map<str, Fields>, catalog: map<str, IndexDefinition>, def: IndexDefinition)
    requires def.name !in catalog
    ensures DerivedEntries(t, docs, catalog[def.name := def]) == DerivedEntries(t, docs, catalog) + DerivedEntries(t, docs, map[def.name := def])
  {
    var more := catalog[def.name := def];
    forall k ensures k in DerivedEntries(t, docs, more) <==> k in DerivedEntries(t, docs, catalog) || k in DerivedEntries(t, docs, map[def.name := def]) {
      if k in DerivedEntries(t, docs, more) {
        var id, name := DerivedFrom(t, docs, more, k);
        if name == def.name { InDerived(t, docs, map[def.name := def], id, name); } else { InDerived(t, docs, catalog, id, name); }
      } else if k in DerivedEntries(t, docs, catalog) {
        var id, name := DerivedFrom(t, docs, catalog, k);
        InDerived(t, docs, more, id, name);
      } else if k in DerivedEntries(t, docs, map[def.name := def]) {
        var id, name := DerivedFrom(t, docs, map[def.name := def], k);
        InDerived(t, docs, more, id, name);
      }
    }
  }

  /** Removing a name removes exactly the keys of its region. */
  lemma DerivedUndefine(t: Table, docs: map<str, Fields>, catalog: map<str, IndexDefinition>, name: str)
    requires GoodNames(catalog) && Segment(name)
    ensures DerivedEntries(t, docs, catalog - {name}) == set k | k in DerivedEntries(t, docs, catalog) && !(IndexPrefix(t, name) <= k)
  {
    var less := catalog - {name};
    forall k ensures k in DerivedEntries(t, docs, less) <==> k in DerivedEntries(t, docs, catalog) && !(IndexPrefix(t, name) <= k) {
      if k in DerivedEntries(t, docs, less) {
        var id, n := DerivedFrom(t, docs, less, k);
        InDerived(t, docs, catalog, id, n);
        if IndexPrefix(t, name) <= k { NameOfKey(t, catalog[n], id, docs[id], name); }
      } else if k in DerivedEntries(t, docs, catalog) && !(IndexPrefix(t, name) <= k) {
        var id, n := DerivedFrom(t, docs, catalog, k);
        EntryInRegion(t, catalog[n], id, docs[id]);
        InDerived(t, docs, less, id, n);
      }
    }
  }

  lemma NameOfKey(t: Table, def: IndexDefinition, id: str, f: Fields, name: str)
    requires Segment(def.name) && Segment(name) && HasEntry(t, def, id, f)
    requires IndexPrefix(t, name) <= EntryOf(t, def, id, f)
    ensures def.name == name
  {
    EntryInRegion(t, def, id, f);
    var k, p := EntryOf(t, def, id, f), IndexPrefix(t, name);
    assert k == p + k[|p|..];
    IndexKeyDecomposes(t, def.name, Parts(EncodeAll(TupleOf(f, def.fields)).value) + id, name, k[|p|..]);
  }
}
