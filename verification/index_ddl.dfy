/** DEFINE INDEX and REMOVE INDEX (crates/query/src/executor.rs). */
module IndexDdl {
  import opened Bytes
  import opened Wrappers
  import opened Records
  import opened Keys
  import opened StorageModel
  import opened IndexEncoding
  import opened IndexState
  import opened IndexTransitions
  import opened CollectionModel

  lemma CatalogKeyOutsideDocs(t: Table, name: str)
    requires t.Valid()
    ensures !(TablePrefix(t, INDEX) <= CatalogKey(t, name)) && !(TablePrefix(t, DOCUMENT) <= CatalogKey(t, name))
    ensures CatalogPrefix(t) <= CatalogKey(t, name) && CatalogKey(t, name)[|CatalogPrefix(t)|..] == name
  {
    assert CatalogPrefix(t) <= CatalogKey(t, name);
    CatalogKeyOutside(t, CatalogKey(t, name));
  }

  /** What a change of one definition and of index entries leaves in place. */
  lemma DefView(kv: Kv, kv': Kv, t: Table, name: str)
    requires t.Valid() && ChangedOnlyDef(kv, kv', t, name)
    ensures Docs(kv', t) == Docs(kv, t)
    ensures forall n :: n != name ==> (n in Catalog(kv', t) <==> n in Catalog(kv, t))
    ensures forall n :: n != name && n in Catalog(kv, t) ==> Catalog(kv', t)[n] == Catalog(kv, t)[n]
  {
    CatalogKeyOutsideDocs(t, name);
    forall k | TablePrefix(t, DOCUMENT) <= k ensures SameAt(kv, kv', k) {
      if TablePrefix(t, INDEX) <= k { RegionsDisjoint(t, INDEX, t, DOCUMENT, k); }
    }
    DocsFrame(kv, kv', t);
    forall n | n != name
      ensures n in Catalog(kv', t) <==> n in Catalog(kv, t)
      ensures n in Catalog(kv, t) ==> Catalog(kv', t)[n] == Catalog(kv, t)[n]
    {
      InCatalogNames(kv, t, n);
      InCatalogNames(kv', t, n);
      CatalogKeyOutsideDocs(t, n);
      assert SameAt(kv, kv', CatalogKey(t, n));
    }
  }

  /** The store after DEFINE INDEX: definition and backfilled entries in one batch. */
  function DefineBatch(kv: Kv, t: Table, def: IndexDefinition, keys: seq<Key>): Kv {
    ApplyBatch(kv, [(CatalogKey(t, def.name), DefBlob(def))] + EntryPuts(keys), [])
  }

  lemma DefineAt(kv: Kv, t: Table, def: IndexDefinition, keys: seq<Key>, k: Key)
    requires t.Valid() && IndexKeys(t, keys)
    ensures k == CatalogKey(t, def.name) ==> k in DefineBatch(kv, t, def, keys) && DefineBatch(kv, t, def, keys)[k] == DefBlob(def)
    ensures k in keys ==> k in DefineBatch(kv, t, def, keys) && DefineBatch(kv, t, def, keys)[k] == Empty
    ensures k != CatalogKey(t, def.name) && k !in keys ==> SameAt(kv, DefineBatch(kv, t, def, keys), k)
  {
    var puts := [(CatalogKey(t, def.name), DefBlob(def))] + EntryPuts(keys);
    assert KeysOf(puts) == [CatalogKey(t, def.name)] + keys;
    CatalogKeyOutsideDocs(t, def.name);
    forall i | 0 < i < |puts| ensures puts[i] == (keys[i - 1], Empty) && puts[i].0 != CatalogKey(t, def.name) {
      assert keys[i - 1] in keys;
    }
    ApplyBatchAt(kv, puts, [], k);
  }

  lemma DefineView(kv: Kv, t: Table, def: IndexDefinition, keys: seq<Key>, kv': Kv)
    requires t.Valid() && GoodDef(def) && IndexKeys(t, keys) && WellFormed(kv, t)
    requires kv' == DefineBatch(kv, t, def, keys)
    ensures ChangedOnlyDef(kv, kv', t, def.name) && WellFormed(kv', t)
    ensures Docs(kv', t) == Docs(kv, t) && Catalog(kv', t) == Catalog(kv, t)[def.name := def]
    ensures IndexRegion(kv', t) == IndexRegion(kv, t) + (set k | k in keys)
  {
    var ck := CatalogKey(t, def.name);
    CatalogKeyOutsideDocs(t, def.name);
    forall k ensures !(TablePrefix(t, INDEX) <= k) && k != ck ==> SameAt(kv, kv', k) {
      DefineAt(kv, t, def, keys, k);
    }
    DefView(kv, kv', t, def.name);
    DefineAt(kv, t, def, keys, ck);
    InCatalogNames(kv', t, def.name);
    forall k ensures k in IndexRegion(kv', t) <==> k in IndexRegion(kv, t) || k in keys {
      DefineAt(kv, t, def, keys, k);
    }
    forall k | k in kv' ensures GoodBlob(kv', t, k) {
      DefineAt(kv, t, def, keys, k);
      assert k in kv ==> GoodBlob(kv, t, k);
      if k in keys {
        if TablePrefix(t, DOCUMENT) <= k { RegionsDisjoint(t, INDEX, t, DOCUMENT, k); }
        if CatalogPrefix(t) <= k { CatalogKeyOutside(t, k); }
      }
    }
  }

  /** The entries a definition derives from all documents. */
  function Backfill(t: Table, docs: map<str, Fields>, def: IndexDefinition): set<Key> {
    DerivedEntries(t, docs, map[def.name := def])
  }

  /** Entries already stored under the name of a definition. */
  function Leftover(kv: Kv, t: Table, name: str): set<Key> {
    set k | k in IndexRegion(kv, t) && IndexPrefix(t, name) <= k
  }

  lemma BackfillInRegion(t: Table, docs: map<str, Fields>, def: IndexDefinition, k: Key)
    requires k in Backfill(t, docs, def)
    ensures IndexPrefix(t, def.name) <= k && TablePrefix(t, INDEX) <= k
  {
    var id, name := DerivedFrom(t, docs, map[def.name := def], k);
    EntryInRegion(t, def, id, docs[id]);
  }

  /**
   From a consistent table DEFINE INDEX leaves a consistent one exactly when no
   entry stored under the name goes stale; for an unused name there are none.
   Every derived entry is stored in any case.
   */
  lemma DefineConsistentIff(kv: Kv, t: Table, def: IndexDefinition, keys: seq<Key>, kv': Kv)
    requires t.Valid() && GoodDef(def) && Covered(kv, t)
    requires AllEncodable(t, Docs(kv, t), map[def.name := def])
    requires (set k | k in keys) == Backfill(t, Docs(kv, t), def)
    requires kv' == DefineBatch(kv, t, def, keys)
    ensures Docs(kv', t) == Docs(kv, t) && Catalog(kv', t) == Catalog(kv, t)[def.name := def]
    ensures ChangedOnlyDef(kv, kv', t, def.name)
    ensures Covered(kv', t) && IndexRegion(kv', t) == IndexRegion(kv, t) + Backfill(t, Docs(kv, t), def)
    ensures Consistent(kv, t) ==> (Consistent(kv', t) <==> Leftover(kv, t, def.name) <= Backfill(t, Docs(kv, t), def))
    ensures Consistent(kv, t) && def.name !in Catalog(kv, t) ==> Leftover(kv, t, def.name) == {}
  {
    var docs, catalog := Docs(kv, t), Catalog(kv, t);
    forall k | k in keys ensures TablePrefix(t, INDEX) <= k {
      assert k in Backfill(t, docs, def);
      BackfillInRegion(t, docs, def, k);
    }
    DefineView(kv, t, def, keys, kv');
    CatalogIsGood(kv, t);
    DerivedUndefine(t, docs, catalog, def.name);
    DerivedDefine(t, docs, catalog - {def.name}, def);
    assert (catalog - {def.name})[def.name := def] == catalog[def.name := def];
    EncodableDefine(t, docs, catalog, def);
    forall k | k in Backfill(t, docs, def) ensures IndexPrefix(t, def.name) <= k {
      BackfillInRegion(t, docs, def, k);
    }
    RegionSplit(IndexRegion(kv, t), Leftover(kv, t, def.name), Backfill(t, docs, def), t, def.name);
    if def.name !in catalog {
      assert catalog - {def.name} == catalog;
    }
  }

  lemma RegionSplit(region: set<Key>, leftover: set<Key>, backfill: set<Key>, t: Table, name: str)
    requires leftover == set k | k in region && IndexPrefix(t, name) <= k
    requires forall k :: k in backfill ==> IndexPrefix(t, name) <= k
    ensures region + backfill == (set k | k in region && !(IndexPrefix(t, name) <= k)) + backfill <==> leftover <= backfill
  {
    var rest := set k | k in region && !(IndexPrefix(t, name) <= k);
    if region + backfill == rest + backfill {
      forall k | k in leftover ensures k in backfill {
        assert k in region + backfill;
      }
    }
  }

  lemma EncodableDefine(t: Table, docs: map<str, Fields>, catalog: map<str, IndexDefinition>, def: IndexDefinition)
    requires AllEncodable(t, docs, catalog) && AllEncodable(t, docs, map[def.name := def])
    ensures AllEncodable(t, docs, catalog[def.name := def])
  {
    var more, one := catalog[def.name := def], map[def.name := def];
    forall id, name | id in docs && name in more ensures EntryFor(t, more[name], id, docs[id]).Ok? {
      if name == def.name { assert EntryFor(t, one[name], id, docs[id]).Ok?; }
    }
  }

  // -------------------------------------------------------------------------
  // Statements
  // -------------------------------------------------------------------------

  /** Two documents hold the same full tuple. */
  ghost predicate Duplicated(docs: map<str, Fields>, def: IndexDefinition) {
    exists id :: id in docs && Taken(docs, def, id, docs[id])
  }

  /** A unique index without duplicates joins the others. */
  lemma UniqueAfterDefine(docs: map<str, Fields>, catalog: map<str, IndexDefinition>, def: IndexDefinition)
    requires UniqueHolds(docs, catalog) && (def.unique ==> !Duplicated(docs, def))
    ensures UniqueHolds(docs, catalog[def.name := def])
  {
    forall id | id in docs && def.unique ensures !Taken(docs, def, id, docs[id]) {
      assert Taken(docs, def, id, docs[id]) ==> Duplicated(docs, def);
    }
  }

  /** Entry keys of the documents scanned so far. */
  ghost predicate Collected(t: Table, def: IndexDefinition, docs: seq<Document>, keys: seq<Key>) {
    && (forall d :: d in docs ==> EntryFor(t, def, d.id, d.fields).Ok?)
    && (forall k :: k in keys <==> exists d :: d in docs && EntryFor(t, def, d.id, d.fields) == Ok(Some(k)))
  }

  /** The key parts seen so far, all from different tuples. */
  ghost predicate SeenParts(def: IndexDefinition, docs: seq<Document>, seen: set<seq<byte>>) {
    && (forall d :: d in docs && FullTuple(d.fields, def.fields) ==> EncodeAll(TupleOf(d.fields, def.fields)).Ok?)
    && (forall p :: p in seen <==> exists d :: d in docs && FullTuple(d.fields, def.fields) && Parts(EncodeAll(TupleOf(d.fields, def.fields)).value) == p)
    && (forall i, j :: 0 <= i < j < |docs| ==> !SharesTuple(def, docs[i].fields, docs[j].fields))
  }

  lemma SeenNext(def: IndexDefinition, docs: seq<Document>, d: Document, seen: set<seq<byte>>)
    requires SeenParts(def, docs, seen)
    requires FullTuple(d.fields, def.fields) && EncodeAll(TupleOf(d.fields, def.fields)).Ok?
    ensures var p := Parts(EncodeAll(TupleOf(d.fields, def.fields)).value);
      if p in seen then exists e :: e in docs && SharesTuple(def, e.fields, d.fields) else SeenParts(def, docs + [d], seen + {p})
  {
    var raws := EncodeAll(TupleOf(d.fields, def.fields)).value;
    var p := Parts(raws);
    forall e | e in docs && FullTuple(e.fields, def.fields) && Parts(EncodeAll(TupleOf(e.fields, def.fields)).value) == p
      ensures SharesTuple(def, e.fields, d.fields)
    {
      PartsInjective(EncodeAll(TupleOf(e.fields, def.fields)).value, [], raws, []);
    }
    if p !in seen {
      forall i, j | 0 <= i < j < |docs + [d]| ensures !SharesTuple(def, (docs + [d])[i].fields, (docs + [d])[j].fields) {
        if j == |docs| { assert docs[i] in docs; }
      }
      forall q ensures q in seen + {p} <==> exists e :: e in docs + [d] && FullTuple(e.fields, def.fields) && Parts(EncodeAll(TupleOf(e.fields, def.fields)).value) == q {
        if q == p { assert d in docs + [d]; }
        if q in seen {
          var e :| e in docs && FullTuple(e.fields, def.fields) && Parts(EncodeAll(TupleOf(e.fields, def.fields)).value) == q;
          assert e in docs + [d];
        }
      }
    }
  }

  lemma CollectedNext(t: Table, def: IndexDefinition, docs: seq<Document>, d: Document, keys: seq<Key>, more: seq<Key>)
    requires Collected(t, def, docs, keys)
    requires EntriesFor(t, [def], d.id, d.fields) == Ok(more)
    ensures Collected(t, def, docs + [d], keys + more)
  {
    assert def in [def];
    assert EntryFor(t, def, d.id, d.fields).Ok?;
    forall k ensures k in keys + more <==> exists e :: e in docs + [d] && EntryFor(t, def, e.id, e.fields) == Ok(Some(k)) {
      if k in keys {
        var e :| e in docs && EntryFor(t, def, e.id, e.fields) == Ok(Some(k));
        assert e in docs + [d];
      }
      if k in more {
        assert d in docs + [d];
      }
    }
  }

  /** The scan's rows and the stored documents give the same entries and the same duplicates. */
  lemma ScanCovers(t: Table, stored: map<str, Fields>, def: IndexDefinition, docs: seq<Document>, keys: seq<Key>)
    requires forall d :: d in docs <==> d.id in stored && stored[d.id] == d.fields
    requires Collected(t, def, docs, keys)
    ensures AllEncodable(t, stored, map[def.name := def])
    ensures (set k | k in keys) == Backfill(t, stored, def)
  {
    var one := map[def.name := def];
    forall id, name | id in stored && name in one ensures EntryFor(t, one[name], id, stored[id]).Ok? {
      assert Document(id, stored[id]) in docs;
    }
    forall k ensures k in keys <==> k in Backfill(t, stored, def) {
      if k in keys {
        var d :| d in docs && EntryFor(t, def, d.id, d.fields) == Ok(Some(k));
        InDerived(t, stored, one, d.id, def.name);
      }
      if k in Backfill(t, stored, def) {
        var id, name := DerivedFrom(t, stored, one, k);
        assert Document(id, stored[id]) in docs;
      }
    }
  }

  lemma SharedIsDuplicate(stored: map<str, Fields>, def: IndexDefinition, docs: seq<Document>)
    requires forall d :: d in docs <==> d.id in stored && stored[d.id] == d.fields
    requires forall i, j :: 0 <= i < j < |docs| ==> Lt(docs[i].id, docs[j].id)
    ensures Duplicated(stored, def) <==> exists i, j :: 0 <= i < j < |docs| && SharesTuple(def, docs[i].fields, docs[j].fields)
  {
    if Duplicated(stored, def) {
      var id :| id in stored && Taken(stored, def, id, stored[id]);
      var id' :| id' in stored && id' != id && SharesTuple(def, stored[id], stored[id']);
      assert Document(id, stored[id]) in docs && Document(id', stored[id']) in docs;
      var i :| 0 <= i < |docs| && docs[i].id == id && docs[i].fields == stored[id];
      var j :| 0 <= j < |docs| && docs[j].id == id' && docs[j].fields == stored[id'];
      if i < j { assert SharesTuple(def, docs[i].fields, docs[j].fields); } else { assert SharesTuple(def, docs[j].fields, docs[i].fields); }
    }
    if i, j :| 0 <= i < j < |docs| && SharesTuple(def, docs[i].fields, docs[j].fields) {
      LtIrreflexive(docs[i].id);
      assert docs[i] in docs && docs[j] in docs;
      assert SharesTuple(def, stored[docs[i].id], stored[docs[j].id]);
      assert Taken(stored, def, docs[i].id, stored[docs[i].id]);
    }
  }

  ghost predicate Definable(t: Table, docs: map<str, Fields>, def: IndexDefinition) {
    && def.fields != []
    && AllEncodable(t, docs, map[def.name := def])
    && (def.unique ==> !Duplicated(docs, def))
  }

  /** Entries of all scanned documents, or the first failure. */
  method CollectEntries(t: Table, def: IndexDefinition, docs: seq<Document>) returns (r: Result<seq<Key>>)
    requires def.kind.BTree? && def.fields != []
    ensures r.Ok? ==> Collected(t, def, docs, r.value)
    ensures r.Ok? && def.unique ==> forall i, j :: 0 <= i < j < |docs| ==> !SharesTuple(def, docs[i].fields, docs[j].fields)
    ensures r.Err? ==>
      || (exists d :: d in docs && EntryFor(t, def, d.id, d.fields).Err?)
      || (def.unique && exists i, j :: 0 <= i < j < |docs| && SharesTuple(def, docs[i].fields, docs[j].fields))
  {
    var seen: set<seq<byte>> := {};
    var keys: seq<Key> := [];
    for i := 0 to |docs|
      invariant Collected(t, def, docs[..i], keys)
      invariant def.unique ==> SeenParts(def, docs[..i], seen)
    {
      var d := docs[i];
      assert d in docs && docs[..i + 1] == docs[..i] + [d];
      if def.unique {
        var values := CollectIndexValues(d.fields, def);
        if values.Some? {
          var part := EncodeCompositeKeyPart(values.value);
          if part.Err? {
            return Err(Index);
          }
          SeenNext(def, docs[..i], d, seen);
          if part.value in seen {
            ghost var e :| e in docs[..i] && SharesTuple(def, e.fields, d.fields);
            ghost var j :| 0 <= j < i && docs[j] == e;
            assert SharesTuple(def, docs[j].fields, docs[i].fields);
            return Err(Schema);
          }
          seen := seen + {part.value};
        } else {
          SeenSkip(def, docs[..i], d, seen);
        }
      }
      var more := BuildIndexEntries(t, [def], d.id, d.fields);
      if more.Err? {
        return Err(Index);
      }
      CollectedNext(t, def, docs[..i], d, keys, more.value);
      keys := keys + more.value;
    }
    assert docs[..|docs|] == docs;
    r := Ok(keys);
  }

  lemma SeenSkip(def: IndexDefinition, docs: seq<Document>, d: Document, seen: set<seq<byte>>)
    requires SeenParts(def, docs, seen) && !FullTuple(d.fields, def.fields)
    ensures SeenParts(def, docs + [d], seen)
  {
    forall q | q in seen ensures exists e :: e in docs + [d] && FullTuple(e.fields, def.fields) && Parts(EncodeAll(TupleOf(e.fields, def.fields)).value) == q {
      var e :| e in docs && FullTuple(e.fields, def.fields) && Parts(EncodeAll(TupleOf(e.fields, def.fields)).value) == q;
      assert e in docs + [d];
    }
    SkippedSharesNothing(def, docs, d);
  }

  lemma SkippedSharesNothing(def: IndexDefinition, docs: seq<Document>, d: Document)
    requires !FullTuple(d.fields, def.fields) && forall i, j :: 0 <= i < j < |docs| ==> !SharesTuple(def, docs[i].fields, docs[j].fields)
    ensures var more := docs + [d]; forall i, j :: 0 <= i < j < |more| ==> !SharesTuple(def, more[i].fields, more[j].fields)
  {
    var more := docs + [d];
    forall i, j | 0 <= i < j < |more| ensures !SharesTuple(def, more[i].fields, more[j].fields) {
      assert more[i] == docs[i];
    }
  }

  /**
   DEFINE INDEX succeeds exactly when there is a field, every document can be
   indexed, and a unique index finds no duplicate. Under an unused name it keeps
   the index invariant; under a used one exactly when no entry goes stale.
   */
  method ExecDefineIndex(storage: Storage, t: Table, name: str, fields: seq<str>, unique: bool) returns (r: Result<()>)
    requires t.Valid() && Segment(name) && Covered(storage.kv, t)
    modifies storage
    ensures r.Ok? <==> Definable(t, old(Docs(storage.kv, t)), IndexDefinition(name, fields, unique, BTree))
    ensures r.Err? ==> storage.kv == old(storage.kv)
    ensures r.Ok? ==> Docs(storage.kv, t) == old(Docs(storage.kv, t))
    ensures r.Ok? ==> Catalog(storage.kv, t) == old(Catalog(storage.kv, t))[name := IndexDefinition(name, fields, unique, BTree)]
    ensures Covered(storage.kv, t)
    ensures r.Ok? ==> IndexRegion(storage.kv, t) == old(IndexRegion(storage.kv, t) + Backfill(t, Docs(storage.kv, t), IndexDefinition(name, fields, unique, BTree)))
    ensures r.Ok? && old(Consistent(storage.kv, t)) ==> (Consistent(storage.kv, t) <==>
      old(Leftover(storage.kv, t, name)) <= old(Backfill(t, Docs(storage.kv, t), IndexDefinition(name, fields, unique, BTree))))
    ensures old(Consistent(storage.kv, t) && name !in Catalog(storage.kv, t)) ==> Consistent(storage.kv, t)
    ensures ChangedOnlyDef(old(storage.kv), storage.kv, t, name)
  {
    ghost var kv := storage.kv;
    if fields == [] {
      return Err(Query);
    }
    var def := IndexDefinition(name, fields, unique, BTree);
    var coll := new Collection(storage, t, []);
    var docs := coll.ScanAll();
    SharedIsDuplicate(Docs(kv, t), def, docs.value);
    var keys := CollectEntries(t, def, docs.value);
    if keys.Err? {
      NotAllEncodable(t, Docs(kv, t), def, docs.value);
      return Err(keys.error);
    }
    ScanCovers(t, Docs(kv, t), def, docs.value, keys.value);
    storage.WriteBatch([(CatalogKey(t, name), DefBlob(def))] + EntryPuts(keys.value), []);
    DefineConsistentIff(kv, t, def, keys.value, storage.kv);
    r := Ok(());
  }

  lemma NotAllEncodable(t: Table, stored: map<str, Fields>, def: IndexDefinition, docs: seq<Document>)
    requires forall d :: d in docs <==> d.id in stored && stored[d.id] == d.fields
    ensures (exists d :: d in docs && EntryFor(t, def, d.id, d.fields).Err?) ==> !AllEncodable(t, stored, map[def.name := def])
  {
    if d :| d in docs && EntryFor(t, def, d.id, d.fields).Err? {
      var one := map[def.name := def];
      assert EntryFor(t, one[def.name], d.id, stored[d.id]).Err?;
    }
  }

  /** REMOVE INDEX drops the definition and every entry of its region. */
  method ExecRemoveIndex(storage: Storage, t: Table, name: str)
    requires t.Valid() && Segment(name) && Covered(storage.kv, t)
    modifies storage
    ensures Covered(storage.kv, t) && (old(Consistent(storage.kv, t)) ==> Consistent(storage.kv, t))
    ensures Docs(storage.kv, t) == old(Docs(storage.kv, t))
    ensures Catalog(storage.kv, t) == old(Catalog(storage.kv, t)) - {name}
    ensures IndexRegion(storage.kv, t) == old(IndexRegion(storage.kv, t) - Leftover(storage.kv, t, name))
    ensures ChangedOnlyDef(old(storage.kv), storage.kv, t, name)
  {
    ghost var kv := storage.kv;
    PrefixesBounded(t, name);
    var entries := storage.PrefixScan(IndexPrefix(t, name));
    var deletes := KeysOf(entries) + [CatalogKey(t, name)];
    storage.DeleteBatch(deletes);
    RemoveView(kv, storage.kv, t, name, entries);
  }

  lemma RemoveView(kv: Kv, kv': Kv, t: Table, name: str, entries: seq<(Key, Blob)>)
    requires t.Valid() && Segment(name) && Covered(kv, t)
    requires Listing(kv, PrefixKeys(kv, IndexPrefix(t, name)), entries)
    requires kv' == ApplyDeletes(kv, KeysOf(entries) + [CatalogKey(t, name)])
    ensures Covered(kv', t) && (Consistent(kv, t) ==> Consistent(kv', t)) && ChangedOnlyDef(kv, kv', t, name)
    ensures Docs(kv', t) == Docs(kv, t) && Catalog(kv', t) == Catalog(kv, t) - {name}
    ensures IndexRegion(kv', t) == IndexRegion(kv, t) - Leftover(kv, t, name)
  {
    assert TablePrefix(t, INDEX) <= IndexPrefix(t, name);
    forall k ensures k in kv' <==> k in kv && !(IndexPrefix(t, name) <= k) && k != CatalogKey(t, name) {
      if k in kv && IndexPrefix(t, name) <= k { assert k in KeysOf(entries); }
    }
    CatalogKeyOutsideDocs(t, name);
    DefView(kv, kv', t, name);
    InCatalogNames(kv', t, name);
    RemoveKeepsConsistent(kv, kv', t, name, Docs(kv, t), Catalog(kv, t));
    RegionWithout(kv, kv', t, name);
  }

  lemma RemoveKeepsConsistent(kv: Kv, kv': Kv, t: Table, name: str, docs: map<str, Fields>, catalog: map<str, IndexDefinition>)
    requires t.Valid() && Segment(name) && Covered(kv, t) && docs == Docs(kv, t) && catalog == Catalog(kv, t)
    requires forall k :: k in kv' <==> k in kv && !(IndexPrefix(t, name) <= k) && k != CatalogKey(t, name)
    requires forall k :: k in kv' ==> kv'[k] == kv[k]
    requires Docs(kv', t) == docs && name !in Catalog(kv', t)
    requires forall n :: n != name ==> (n in Catalog(kv', t) <==> n in catalog) && (n in catalog ==> Catalog(kv', t)[n] == catalog[n])
    ensures Covered(kv', t) && (Consistent(kv, t) ==> Consistent(kv', t)) && Catalog(kv', t) == catalog - {name}
  {
    RegionWithout(kv, kv', t, name);
    CatalogIsGood(kv, t);
    DerivedUndefine(t, docs, catalog, name);
    WellFormedSubset(kv, kv', t);
    WithoutName(catalog, Catalog(kv', t), name);
    EncodableLess(t, docs, catalog, name);
  }

  lemma WithoutName(catalog: map<str, IndexDefinition>, catalog': map<str, IndexDefinition>, name: str)
    requires name !in catalog'
    requires forall n :: n != name ==> (n in catalog' <==> n in catalog) && (n in catalog ==> catalog'[n] == catalog[n])
    ensures catalog' == catalog - {name}
  {
  }

  lemma EncodableLess(t: Table, docs: map<str, Fields>, catalog: map<str, IndexDefinition>, name: str)
    requires AllEncodable(t, docs, catalog)
    ensures AllEncodable(t, docs, catalog - {name})
  {
    var less := catalog - {name};
    forall id, n | id in docs && n in less ensures EntryFor(t, less[n], id, docs[id]).Ok? {
      assert EntryFor(t, catalog[n], id, docs[id]).Ok?;
    }
  }

  lemma RegionWithout(kv: Kv, kv': Kv, t: Table, name: str)
    requires t.Valid()
    requires forall k :: k in kv' <==> k in kv && !(IndexPrefix(t, name) <= k) && k != CatalogKey(t, name)
    ensures IndexRegion(kv', t) == set k | k in IndexRegion(kv, t) && !(IndexPrefix(t, name) <= k)
  {
    CatalogKeyOutsideDocs(t, name);
  }
}
