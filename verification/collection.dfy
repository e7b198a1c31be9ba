/** Document CRUD with index maintenance (crates/document/src/collection.rs). */
module CollectionModel {
  import opened Bytes
  import opened Wrappers
  import opened Values
  import opened Records
  import opened Keys
  import opened StorageModel
  import opened IndexEncoding
  import opened IndexScan
  import opened IndexState
  import opened IndexTransitions

  // -------------------------------------------------------------------------
  // Unique tuples
  // -------------------------------------------------------------------------

  /** Both documents hold the full tuple of `def`, encoded to the same bytes. */
  predicate SharesTuple(def: IndexDefinition, f: Fields, g: Fields) {
    && FullTuple(f, def.fields) && FullTuple(g, def.fields)
    && EncodeAll(TupleOf(f, def.fields)).Ok?
    && EncodeAll(TupleOf(f, def.fields)) == EncodeAll(TupleOf(g, def.fields))
  }

  /** Some other document already holds the tuple of `f` under `def`. */
  ghost predicate Taken(docs: map<str, Fields>, def: IndexDefinition, id: str, f: Fields) {
    exists id' :: id' in docs && id' != id && SharesTuple(def, f, docs[id'])
  }

  /** No unique index of the catalog has the tuple of `f` taken. */
  ghost predicate TupleFree(docs: map<str, Fields>, catalog: map<str, IndexDefinition>, id: str, f: Fields) {
    forall name :: name in catalog && catalog[name].unique ==> !Taken(docs, catalog[name], id, f)
  }

  /** An entry with these parts carries another id: what a unique check looks for. */
  ghost predicate Claimed(held: set<Entry>, raws: seq<seq<byte>>, id: str) {
    exists e :: e in held && e.raws == raws && e.id != id
  }

  /** An entry of the index gives the tuple of `f` to another id. */
  ghost predicate TupleClaimed(held: set<Entry>, def: IndexDefinition, id: str, f: Fields) {
    && FullTuple(f, def.fields) && EncodeAll(TupleOf(f, def.fields)).Ok?
    && Claimed(held, EncodeAll(TupleOf(f, def.fields)).value, id)
  }

  ghost predicate NoneClaimed(held: Holdings, defs: seq<IndexDefinition>, id: str, f: Fields) {
    forall d :: d in defs && d.unique ==> !TupleClaimed(held(d), d, id, f)
  }

  /** No unique index of the catalog has the tuple of `f` claimed. */
  ghost predicate TupleUnclaimed(held: Holdings, catalog: map<str, IndexDefinition>, id: str, f: Fields) {
    forall name :: name in catalog && catalog[name].unique ==> !TupleClaimed(held(catalog[name]), catalog[name], id, f)
  }

  /** A tuple is claimed exactly when another document holds it or a leftover entry of it carries another id. */
  lemma ClaimedIff(docs: map<str, Fields>, def: IndexDefinition, held: set<Entry>, id: str, f: Fields)
    requires HoldsAll(docs, def, held) && def.kind.BTree?
    ensures TupleClaimed(held, def, id, f) <==> Taken(docs, def, id, f) || TupleClaimed(Stale(docs, def, held), def, id, f)
  {
    if FullTuple(f, def.fields) && EncodeAll(TupleOf(f, def.fields)).Ok? {
      var raws := EncodeAll(TupleOf(f, def.fields)).value;
      forall e | e in held && e.raws == raws && e.id != id
        ensures Taken(docs, def, id, f) || Claimed(Stale(docs, def, held), raws, id)
      {
        if StoredEntry(docs, def, e) { assert SharesTuple(def, f, docs[e.id]); } else { assert e in Stale(docs, def, held); }
      }
      forall id' | id' in docs && id' != id && SharesTuple(def, f, docs[id']) ensures Claimed(held, raws, id) {
        assert StoredEntry(docs, def, Entry(raws, id'));
      }
    }
  }

  /** The leftover entries of every index of a table. */
  ghost function LeftoversOf(kv: Kv, t: Table): Holdings {
    def => Stale(Docs(kv, t), def, HeldBy(kv, t, def))
  }

  /** So the unique checks refuse a free tuple exactly when a leftover entry claims it. */
  lemma UnclaimedIsFree(kv: Kv, t: Table, id: str, f: Fields)
    requires Covered(kv, t)
    ensures TupleUnclaimed(HoldingsOf(kv, t), Catalog(kv, t), id, f) <==>
      && TupleFree(Docs(kv, t), Catalog(kv, t), id, f)
      && TupleUnclaimed(LeftoversOf(kv, t), Catalog(kv, t), id, f)
  {
    forall name | name in Catalog(kv, t) && Catalog(kv, t)[name].unique
      ensures var def := Catalog(kv, t)[name];
        TupleClaimed(HeldBy(kv, t, def), def, id, f) <==> Taken(Docs(kv, t), def, id, f) || TupleClaimed(Stale(Docs(kv, t), def, HeldBy(kv, t, def)), def, id, f)
    {
      GoodCatalog(kv, t, name);
      StoredAreHeld(kv, t, name);
      ClaimedIff(Docs(kv, t), Catalog(kv, t)[name], HeldBy(kv, t, Catalog(kv, t)[name]), id, f);
    }
  }

  lemma UnclaimedLoaded(held: Holdings, catalog: map<str, IndexDefinition>, defs: seq<IndexDefinition>, id: str, f: Fields)
    requires Loaded(catalog, defs)
    ensures NoneClaimed(held, defs, id, f) <==> TupleUnclaimed(held, catalog, id, f)
  {
    forall name | name in catalog ensures catalog[name] in defs {}
    forall d | d in defs ensures d.name in catalog && catalog[d.name] == d {}
  }

  lemma NoneClaimedNext(held: Holdings, defs: seq<IndexDefinition>, i: nat, id: str, f: Fields)
    requires i < |defs| && NoneClaimed(held, defs[..i], id, f) && (defs[i].unique ==> !TupleClaimed(held(defs[i]), defs[i], id, f))
    ensures NoneClaimed(held, defs[..i + 1], id, f)
  {
    assert defs[..i + 1] == defs[..i] + [defs[i]];
  }

  /** No two documents share the tuple of a unique index. */
  ghost predicate UniqueHolds(docs: map<str, Fields>, catalog: map<str, IndexDefinition>) {
    forall name, id :: name in catalog && id in docs && catalog[name].unique ==> !Taken(docs, catalog[name], id, docs[id])
  }

  /** Storing a document keeps unique tuples unique exactly when no other document holds one of its. */
  lemma UniqueAfterWriteIff(docs: map<str, Fields>, catalog: map<str, IndexDefinition>, id: str, f: Fields)
    requires UniqueHolds(docs, catalog)
    ensures UniqueHolds(docs[id := f], catalog) <==> TupleFree(docs, catalog, id, f)
  {
    var more := docs[id := f];
    forall name | name in catalog ensures Taken(more, catalog[name], id, f) <==> Taken(docs, catalog[name], id, f) {
      if Taken(more, catalog[name], id, f) {
        var id' :| id' in more && id' != id && SharesTuple(catalog[name], f, more[id']);
        assert id' in docs;
      }
      if Taken(docs, catalog[name], id, f) {
        var id' :| id' in docs && id' != id && SharesTuple(catalog[name], f, docs[id']);
        assert id' in more;
      }
    }
    if TupleFree(docs, catalog, id, f) {
      forall name, id1 | name in catalog && id1 in more && catalog[name].unique ensures !Taken(more, catalog[name], id1, more[id1]) {
        FreeOfOthers(docs, catalog[name], id, f, id1);
      }
    } else {
      var name :| name in catalog && catalog[name].unique && Taken(docs, catalog[name], id, f);
      assert Taken(more, catalog[name], id, more[id]);
    }
  }

  /** No changed document shares its tuple with another one, changed or not. */
  ghost predicate ClashFree(docs: map<str, Fields>, def: IndexDefinition, changes: map<str, Fields>) {
    && (forall id, id' :: id in changes && id' in changes && id != id' ==> !SharesTuple(def, changes[id], changes[id']))
    && (forall id, id' :: id in changes && id' in docs && id' !in changes ==> !SharesTuple(def, changes[id], docs[id']))
  }

  ghost predicate ChangesFree(docs: map<str, Fields>, catalog: map<str, IndexDefinition>, changes: map<str, Fields>) {
    forall name :: name in catalog && catalog[name].unique ==> ClashFree(docs, catalog[name], changes)
  }

  /** Changing many documents at once keeps unique tuples unique exactly when the changes clash with nothing. */
  lemma UniqueAfterChangesIff(docs: map<str, Fields>, catalog: map<str, IndexDefinition>, changes: map<str, Fields>)
    requires UniqueHolds(docs, catalog)
    ensures UniqueHolds(docs + changes, catalog) <==> ChangesFree(docs, catalog, changes)
  {
    var more := docs + changes;
    forall name | name in catalog && catalog[name].unique
      ensures ClashFree(docs, catalog[name], changes) <==> forall id :: id in more ==> !Taken(more, catalog[name], id, more[id])
    {
      ClashFreeIff(docs, catalog[name], changes);
    }
  }

  lemma ClashFreeIff(docs: map<str, Fields>, def: IndexDefinition, changes: map<str, Fields>)
    requires forall id :: id in docs ==> !Taken(docs, def, id, docs[id])
    ensures ClashFree(docs, def, changes) <==> forall id :: id in docs + changes ==> !Taken(docs + changes, def, id, (docs + changes)[id])
  {
    var more := docs + changes;
    if ClashFree(docs, def, changes) {
      forall id, id' | id in more && id' in more && id != id' ensures !SharesTuple(def, more[id], more[id']) {
        if id !in changes {
          if id' in changes { SharesSymmetric(def, docs[id], changes[id']); } else { assert !Taken(docs, def, id, docs[id]); }
        }
      }
    } else if id, id' :| id in changes && id' in changes && id != id' && SharesTuple(def, changes[id], changes[id']) {
      assert Taken(more, def, id, more[id]);
    } else {
      var id, id' :| id in changes && id' in docs && id' !in changes && SharesTuple(def, changes[id], docs[id']);
      assert Taken(more, def, id, more[id]);
    }
  }

  lemma SharesSymmetric(def: IndexDefinition, f: Fields, g: Fields)
    ensures SharesTuple(def, f, g) <==> SharesTuple(def, g, f)
  {
  }

  lemma FreeOfOthers(docs: map<str, Fields>, def: IndexDefinition, id: str, f: Fields, id1: str)
    requires !Taken(docs, def, id, f) && (id1 == id || (id1 in docs && !Taken(docs, def, id1, docs[id1])))
    ensures !Taken(docs[id := f], def, id1, docs[id := f][id1])
  {
    var more := docs[id := f];
    forall id2 | id2 in more && id2 != id1 ensures !SharesTuple(def, more[id1], more[id2]) {
      if id1 == id {
        assert id2 in docs;
      } else if id2 == id {
        SharesSymmetric(def, f, docs[id1]);
      }
    }
  }

  lemma UniqueAfterDelete(docs: map<str, Fields>, catalog: map<str, IndexDefinition>, id: str)
    requires UniqueHolds(docs, catalog)
    ensures UniqueHolds(docs - {id}, catalog)
  {
    var less := docs - {id};
    forall name, id1 | name in catalog && id1 in less && catalog[name].unique ensures !Taken(less, catalog[name], id1, less[id1]) {
      if Taken(less, catalog[name], id1, less[id1]) { assert Taken(docs, catalog[name], id1, docs[id1]); }
    }
  }

  // -------------------------------------------------------------------------
  // Catalog
  // -------------------------------------------------------------------------

  lemma PrefixesBounded(t: Table, name: str)
    ensures Bounded(CatalogPrefix(t)) && Bounded(TablePrefix(t, DOCUMENT)) && Bounded(IndexPrefix(t, name))
  {
    assert CatalogPrefix(t)[|Sep(t.ns)| - 1] == SEPARATOR;
    assert TablePrefix(t, DOCUMENT)[|Sep(t.ns)| - 1] == SEPARATOR;
    assert IndexPrefix(t, name)[|Sep(t.ns)| - 1] == SEPARATOR;
  }

  /** The definitions registered for a table. */
  method LoadIndexDefinitions(storage: Storage, t: Table) returns (r: Result<seq<IndexDefinition>>)
    requires WellFormed(storage.kv, t)
    ensures r.Ok? && Loaded(Catalog(storage.kv, t), r.value)
  {
    var entries := storage.PrefixScan(CatalogPrefix(t));
    PrefixesBounded(t, []);
    ghost var kv := storage.kv;
    var defs: seq<IndexDefinition> := [];
    for i := 0 to |entries|
      invariant |defs| == i
      invariant forall j :: 0 <= j < i ==> entries[j].1 == DefBlob(defs[j])
    {
      assert GoodBlob(kv, t, entries[i].0);
      if !entries[i].1.DefBlob? {
        return Err(Corrupt);
      }
      defs := defs + [entries[i].1.def];
    }
    CatalogIsGood(kv, t);
    forall d | d in defs ensures d.name in Catalog(kv, t) && Catalog(kv, t)[d.name] == d {
      var j :| 0 <= j < |defs| && defs[j] == d;
      assert GoodBlob(kv, t, entries[j].0);
      InCatalogNames(kv, t, d.name);
    }
    forall name | name in Catalog(kv, t) ensures Catalog(kv, t)[name] in defs {
      InCatalogNames(kv, t, name);
      var k := CatalogKey(t, name);
      assert CatalogPrefix(t) <= k && k in KeysOf(entries);
      var j :| 0 <= j < |entries| && entries[j].0 == k;
      assert entries[j].1 == DefBlob(defs[j]);
    }
    r := Ok(defs);
  }

  /**
   The unique check: passes exactly a tuple that can be encoded and that no entry
   of the index, derived or left over, gives to another record.
   */
  method CheckUniqueConstraint(storage: Storage, t: Table, def: IndexDefinition, values: seq<Value>, excludeId: str) returns (r: Result<()>)
    requires def.fields != [] && |values| == |def.fields|
    ensures !def.unique ==> r.Ok?
    ensures def.unique ==> (r.Ok? <==> EncodeAll(values).Ok? && !Claimed(HeldBy(storage.kv, t, def), EncodeAll(values).value, excludeId))
  {
    if !def.unique {
      return Ok(());
    }
    ghost var held := HeldBy(storage.kv, t, def);
    var ids, found := FindIds(storage, t, def.name, values, None, None, |def.fields|);
    if ids.Err? {
      return Err(ids.error);
    }
    WholeTuple(held, EncodeAll(values).value, found);
    for i := 0 to |ids.value|
      invariant forall j :: 0 <= j < i ==> ids.value[j] == excludeId
    {
      if ids.value[i] != excludeId {
        assert found[i] in found;
        return Err(Schema);
      }
    }
    r := Ok(());
  }

  /** A lookup of a whole tuple finds exactly the entries that carry it. */
  lemma WholeTuple(held: set<Entry>, raws: seq<seq<byte>>, found: seq<Entry>)
    requires Lists(found, SelectedEntries(held, |raws|, raws, None, None))
    ensures forall e :: e in found <==> e in held && e.raws == raws
  {
    forall e ensures e in found <==> e in held && e.raws == raws {
      if e in found { assert e.raws == raws; }
    }
  }

  // -------------------------------------------------------------------------
  // Collections
  // -------------------------------------------------------------------------

  /** The document behind a stored document key. */
  method DecodeDocument(k: Key, blob: Blob, ghost kv: Kv, ghost t: Table) returns (d: Result<Document>)
    requires t.Valid() && TablePrefix(t, DOCUMENT) <= k && k in kv && kv[k] == blob && GoodBlob(kv, t, k)
    ensures d.Ok? && k == DocumentKey(t, d.value.id) && blob == FieldsBlob(d.value.fields)
  {
    ghost var p := TablePrefix(t, DOCUMENT);
    assert k == p + k[|p|..];
    ParseBuilt(t, DOCUMENT, k[|p|..]);
    var parts := ParseKey(k);
    if parts.Err? {
      return Err(Error.Storage);
    }
    if !Utf8(parts.value.remainder) || !blob.FieldsBlob? {
      return Err(Error.Storage);
    }
    d := Ok(Document(parts.value.remainder, blob.fields));
  }

  /** The decoded entries of a document scan are the stored documents, in id order. */
  lemma ScannedDocs(kv: Kv, t: Table, entries: seq<(Key, Blob)>, docs: seq<Document>)
    requires t.Valid() && WellFormed(kv, t) && Listing(kv, PrefixKeys(kv, TablePrefix(t, DOCUMENT)), entries) && |docs| == |entries|
    requires forall j :: 0 <= j < |docs| ==> entries[j].0 == DocumentKey(t, docs[j].id) && entries[j].1 == FieldsBlob(docs[j].fields)
    ensures forall d :: d in docs <==> d.id in Docs(kv, t) && Docs(kv, t)[d.id] == d.fields
    ensures forall i, j :: 0 <= i < j < |docs| ==> Lt(docs[i].id, docs[j].id)
  {
    var p := TablePrefix(t, DOCUMENT);
    forall d ensures d in docs <==> d.id in Docs(kv, t) && Docs(kv, t)[d.id] == d.fields {
      InDocIds(kv, t, d.id);
      var k := DocumentKey(t, d.id);
      if d in docs {
        var j :| 0 <= j < |docs| && docs[j] == d;
        assert entries[j].0 == k;
      }
      if d.id in Docs(kv, t) && Docs(kv, t)[d.id] == d.fields {
        assert p <= k && k in KeysOf(entries);
        var j :| 0 <= j < |entries| && entries[j].0 == k;
        assert k[|p|..] == d.id && DocumentKey(t, docs[j].id)[|p|..] == docs[j].id;
        assert docs[j] == d;
      }
    }
    forall i, j | 0 <= i < j < |docs| ensures Lt(docs[i].id, docs[j].id) {
      assert Lt(KeysOf(entries)[i], KeysOf(entries)[j]);
      LtCommonPrefix(p, docs[i].id, docs[j].id);
    }
  }

  /** A collection with the catalog's indexes registered. */
  class Collection {
    const storage: Storage
    const t: Table
    const indexes: seq<IndexDefinition>

    constructor (storage: Storage, t: Table, indexes: seq<IndexDefinition>)
      ensures this.storage == storage && this.t == t && this.indexes == indexes
    {
      this.storage, this.t, this.indexes := storage, t, indexes;
    }

    /** Every derived entry of the table is stored and every registered index is loaded. */
    ghost predicate Ready()
      reads storage
    {
      t.Valid() && Covered(storage.kv, t) && Loaded(Catalog(storage.kv, t), indexes)
    }

    /** No other entry is stored either. */
    ghost predicate Exact()
      reads storage
    {
      Consistent(storage.kv, t)
    }

    ghost function Stored(): map<str, Fields>
      reads storage
    {
      Docs(storage.kv, t)
    }

    ghost function Defs(): map<str, IndexDefinition>
      reads storage
    {
      Catalog(storage.kv, t)
    }

    ghost function Held(): Holdings
      reads storage
    {
      HoldingsOf(storage.kv, t)
    }

    predicate Encodable(id: str, fields: Fields) {
      EntriesFor(t, indexes, id, fields).Ok?
    }

    method Get(id: str) returns (r: Option<Fields>)
      requires WellFormed(storage.kv, t)
      ensures r == if id in Stored() then Some(Stored()[id]) else None
    {
      InDocIds(storage.kv, t, id);
      var blob := storage.Get(DocumentKey(t, id));
      assert blob.Some? ==> GoodBlob(storage.kv, t, DocumentKey(t, id));
      r := if blob.None? then None else Some(blob.value.fields);
    }

    /** Every stored document once, in id order. */
    method ScanAll() returns (r: Result<seq<Document>>)
      requires t.Valid() && WellFormed(storage.kv, t)
      ensures r.Ok?
      ensures forall d :: d in r.value <==> d.id in Stored() && Stored()[d.id] == d.fields
      ensures forall i, j :: 0 <= i < j < |r.value| ==> Lt(r.value[i].id, r.value[j].id)
    {
      var p := TablePrefix(t, DOCUMENT);
      var entries := storage.PrefixScan(p);
      PrefixesBounded(t, []);
      var docs: seq<Document> := [];
      for i := 0 to |entries|
        invariant |docs| == i
        invariant forall j :: 0 <= j < i ==> entries[j].0 == DocumentKey(t, docs[j].id) && entries[j].1 == FieldsBlob(docs[j].fields)
      {
        assert GoodBlob(storage.kv, t, entries[i].0);
        var d := DecodeDocument(entries[i].0, entries[i].1, storage.kv, t);
        if d.Err? {
          return Err(Error.Storage);
        }
        docs := docs + [d.value];
      }
      ScannedDocs(storage.kv, t, entries, docs);
      r := Ok(docs);
    }

    /** The stored documents among `ids`, in the order asked for. */
    method GetMany(ids: seq<str>) returns (docs: seq<Document>)
      requires WellFormed(storage.kv, t)
      ensures docs == Fetched(Stored(), ids)
    {
      docs := [];
      for i := 0 to |ids|
        invariant docs == Fetched(Stored(), ids[..i])
      {
        assert ids[..i + 1][..i] == ids[..i];
        var f := Get(ids[i]);
        if f.Some? {
          docs := docs + [Document(ids[i], f.value)];
        }
      }
      assert ids[..|ids|] == ids;
    }

    // -----------------------------------------------------------------------
    // Writes
    // -----------------------------------------------------------------------

    /** The unique checks of a create, one per unique index whose full tuple is present. */
    method CheckUniques(id: str, fields: Fields) returns (r: Result<()>)
      requires Ready()
      ensures r.Ok? ==> NoneClaimed(Held(), indexes, id, fields)
      ensures r.Err? ==> !NoneClaimed(Held(), indexes, id, fields) || !Encodable(id, fields)
    {
      for i := 0 to |indexes|
        invariant NoneClaimed(Held(), indexes[..i], id, fields)
      {
        var idx := indexes[i];
        assert idx in indexes;
        if idx.unique {
          var values := CollectIndexValues(fields, idx);
          if values.Some? {
            r := CheckUniqueConstraint(storage, t, idx, values.value, id);
            if r.Err? {
              assert TupleClaimed(Held()(idx), idx, id, fields) || EntryFor(t, idx, id, fields).Err?;
              return;
            }
          }
        }
        NoneClaimedNext(Held(), indexes, i, id, fields);
      }
      assert indexes[..|indexes|] == indexes;
      r := Ok(());
    }

    /**
     Succeeds exactly when the id is free, the document can be indexed and no entry
     claims a unique tuple of it; a failed create changes nothing.
     */
    method CreateWithId(id: str, fields: Fields) returns (r: Result<()>)
      requires Ready() && Utf8(id)
      modifies storage
      ensures r.Ok? <==> id !in old(Stored()) && Encodable(id, fields) && NoneClaimed(old(Held()), indexes, id, fields)
      ensures r.Err? ==> storage.kv == old(storage.kv)
      ensures r.Ok? ==> storage.kv == WriteDoc(old(storage.kv), t, id, fields, EntriesFor(t, indexes, id, fields).value, [])
      ensures Ready() && (old(Exact()) ==> Exact()) && ChangedOnly(old(storage.kv), storage.kv, t, id) && LeftoversStay(old(storage.kv), storage.kv, t)
      ensures Defs() == old(Defs())
      ensures r.Ok? ==> Stored() == old(Stored())[id := fields]
      ensures old(UniqueHolds(Stored(), Defs())) ==> UniqueHolds(Stored(), Defs())
    {
      ghost var kv := storage.kv;
      InDocIds(kv, t, id);
      var exists_ := storage.Contains(DocumentKey(t, id));
      if exists_ {
        return Err(Other);
      }
      var free := CheckUniques(id, fields);
      if free.Err? {
        return Err(free.error);
      }
      var keys := BuildIndexEntries(t, indexes, id, fields);
      if keys.Err? {
        return Err(keys.error);
      }
      storage.PutBatch([(DocumentKey(t, id), FieldsBlob(fields))] + EntryPuts(keys.value));
      assert ApplyDeletes(kv, []) == kv;
      WriteKeepsConsistent(kv, t, indexes, id, fields, keys.value, [], storage.kv);
      if UniqueHolds(Docs(kv, t), Catalog(kv, t)) {
        UnclaimedLoaded(HoldingsOf(kv, t), Catalog(kv, t), indexes, id, fields);
        UnclaimedIsFree(kv, t, id, fields);
        UniqueAfterWriteIff(Docs(kv, t), Catalog(kv, t), id, fields);
      }
      r := Ok(());
    }

    /** Replaces a stored document and its index entries in one batch. */
    method ReplaceWithIndexes(id: str, before: Fields, after: Fields) returns (r: Result<()>)
      requires Ready() && Utf8(id) && id in Stored() && Stored()[id] == before
      modifies storage
      ensures r.Ok? <==> Encodable(id, after)
      ensures r.Err? ==> r.error == Index && storage.kv == old(storage.kv)
      ensures r.Ok? ==> Encodable(id, before) && storage.kv == WriteDoc(old(storage.kv), t, id, after, EntriesFor(t, indexes, id, after).value, EntriesFor(t, indexes, id, before).value)
      ensures Ready() && (old(Exact()) ==> Exact()) && ChangedOnly(old(storage.kv), storage.kv, t, id) && LeftoversStay(old(storage.kv), storage.kv, t)
      ensures Defs() == old(Defs())
      ensures r.Ok? ==> Stored() == old(Stored())[id := after]
    {
      ghost var kv := storage.kv;
      assert Encodable(id, before);
      var oldIdx := BuildIndexEntries(t, indexes, id, before);
      var newIdx := BuildIndexEntries(t, indexes, id, after);
      if oldIdx.Err? || newIdx.Err? {
        return Err(Index);
      }
      storage.WriteBatch([(DocumentKey(t, id), FieldsBlob(after))] + EntryPuts(newIdx.value), oldIdx.value);
      WriteKeepsConsistent(kv, t, indexes, id, after, newIdx.value, oldIdx.value, storage.kv);
      r := Ok(());
    }

    /** Replaces all fields of an existing document. */
    method Update(id: str, fields: Fields) returns (r: Result<()>)
      requires Ready() && Utf8(id)
      modifies storage
      ensures r.Ok? <==> id in old(Stored()) && Encodable(id, fields)
      ensures r.Err? ==> r.error == if id in old(Stored()) then Index else NotFound
      ensures r.Err? ==> storage.kv == old(storage.kv)
      ensures Ready() && (old(Exact()) ==> Exact()) && ChangedOnly(old(storage.kv), storage.kv, t, id) && LeftoversStay(old(storage.kv), storage.kv, t)
      ensures Defs() == old(Defs())
      ensures r.Ok? ==> Stored() == old(Stored())[id := fields]
    {
      var before := Get(id);
      if before.None? {
        return Err(NotFound);
      }
      r := ReplaceWithIndexes(id, before.value, fields);
    }

    /** Merges fields into an existing document; the others are kept. */
    method Merge(id: str, fields: Fields) returns (r: Result<()>)
      requires Ready() && Utf8(id)
      modifies storage
      ensures r.Ok? <==> id in old(Stored()) && Encodable(id, old(Stored())[id] + fields)
      ensures r.Err? ==> r.error == if id in old(Stored()) then Index else NotFound
      ensures r.Err? ==> storage.kv == old(storage.kv)
      ensures r.Ok? ==> storage.kv == WriteDoc(old(storage.kv), t, id, old(Stored())[id] + fields,
          EntriesFor(t, indexes, id, old(Stored())[id] + fields).value, EntriesFor(t, indexes, id, old(Stored())[id]).value)
      ensures Ready() && (old(Exact()) ==> Exact()) && ChangedOnly(old(storage.kv), storage.kv, t, id) && LeftoversStay(old(storage.kv), storage.kv, t)
      ensures Defs() == old(Defs())
      ensures r.Ok? ==> Stored() == old(Stored())[id := old(Stored())[id] + fields]
    {
      var before := Get(id);
      if before.None? {
        return Err(NotFound);
      }
      r := ReplaceWithIndexes(id, before.value, before.value + fields);
    }

    /** Creates the document, or merges `updates` into the stored one. */
    method Upsert(id: str, fields: Fields, updates: Fields) returns (r: Result<bool>)
      requires Ready() && Utf8(id)
      modifies storage
      ensures r.Err? ==> storage.kv == old(storage.kv)
      ensures r.Ok? ==> r.value == (id !in old(Stored()))
      ensures id in old(Stored()) ==> (r.Ok? <==> Encodable(id, old(Stored())[id] + updates))
      ensures id !in old(Stored()) ==> (r.Ok? <==> Encodable(id, fields) && NoneClaimed(old(Held()), indexes, id, fields))
      ensures r.Ok? ==> Stored() == old(Stored())[id := if id in old(Stored()) then old(Stored())[id] + updates else fields]
      ensures r.Ok? && id in old(Stored()) ==> Encodable(id, old(Stored())[id]) && storage.kv == WriteDoc(old(storage.kv), t, id, old(Stored())[id] + updates,
          EntriesFor(t, indexes, id, old(Stored())[id] + updates).value, EntriesFor(t, indexes, id, old(Stored())[id]).value)
      ensures r.Ok? && id !in old(Stored()) ==> storage.kv == WriteDoc(old(storage.kv), t, id, fields, EntriesFor(t, indexes, id, fields).value, [])
      ensures Ready() && (old(Exact()) ==> Exact()) && ChangedOnly(old(storage.kv), storage.kv, t, id) && LeftoversStay(old(storage.kv), storage.kv, t)
      ensures Defs() == old(Defs())
    {
      InDocIds(storage.kv, t, id);
      var exists_ := storage.Contains(DocumentKey(t, id));
      if exists_ {
        var m := Merge(id, updates);
        return if m.Ok? then Ok(false) else Err(m.error);
      }
      var c := CreateWithId(id, fields);
      r := if c.Ok? then Ok(true) else Err(c.error);
    }

    /** Removes a document and its entries; false when there was none. */
    method Delete(id: str) returns (r: Result<bool>)
      requires Ready()
      modifies storage
      ensures r == Ok(id in old(Stored()))
      ensures id in old(Stored()) ==> Encodable(id, old(Stored())[id]) && storage.kv == DropDoc(old(storage.kv), t, id, EntriesFor(t, indexes, id, old(Stored())[id]).value)
      ensures id !in old(Stored()) ==> storage.kv == old(storage.kv)
      ensures Stored() == old(Stored()) - {id}
      ensures Ready() && (old(Exact()) ==> Exact()) && ChangedOnly(old(storage.kv), storage.kv, t, id) && LeftoversStay(old(storage.kv), storage.kv, t)
      ensures Defs() == old(Defs())
      ensures old(UniqueHolds(Stored(), Defs())) ==> UniqueHolds(Stored(), Defs())
    {
      ghost var kv := storage.kv;
      var doc := Get(id);
      if doc.None? {
        assert Stored() == Stored() - {id};
        return Ok(false);
      }
      assert Encodable(id, doc.value);
      var entries := BuildIndexEntries(t, indexes, id, doc.value);
      if entries.Err? {
        return Err(Index);
      }
      storage.DeleteBatch([DocumentKey(t, id)] + entries.value);
      DropKeepsConsistent(kv, t, indexes, id, entries.value, storage.kv);
      if UniqueHolds(Docs(kv, t), Catalog(kv, t)) {
        UniqueAfterDelete(Docs(kv, t), Catalog(kv, t), id);
      }
      r := Ok(true);
    }
  }

  /** Documents stored under `ids`, skipping missing ones. */
  function Fetched(docs: map<str, Fields>, ids: seq<str>): seq<Document> {
    if ids == [] then []
    else
      var last := ids[|ids| - 1];
      Fetched(docs, ids[..|ids| - 1]) + (if last in docs then [Document(last, docs[last])] else [])
  }

  method Load(storage: Storage, t: Table) returns (coll: Collection)
    requires t.Valid() && Covered(storage.kv, t)
    ensures fresh(coll) && coll.storage == storage && coll.t == t && coll.Ready()
  {
    var defs := LoadIndexDefinitions(storage, t);
    coll := new Collection(storage, t, defs.value);
  }
}
