/**
 What one table's part of the keyspace means: its documents, its index catalog
 and the index entries derived from both.
 */
module IndexState {
  import opened Bytes
  import opened Wrappers
  import opened Values
  import opened Records
  import opened Keys
  import opened StorageModel
  import opened IndexEncoding
  import opened IndexScan

  // -------------------------------------------------------------------------
  // Tuples and entries of one document
  // -------------------------------------------------------------------------

  /** Every indexed field is present and not NONE. */
  predicate FullTuple(fields: Fields, names: seq<str>) {
    names != [] && forall i :: 0 <= i < |names| ==> names[i] in fields && !fields[names[i]].NoneValue?
  }

  function TupleOf(fields: Fields, names: seq<str>): (values: seq<Value>)
    requires FullTuple(fields, names)
    ensures |values| == |names|
  {
    seq(|names|, i requires 0 <= i < |names| => fields[names[i]])
  }

  method CollectIndexValues(fields: Fields, def: IndexDefinition) returns (r: Option<seq<Value>>)
    ensures r == if FullTuple(fields, def.fields) then Some(TupleOf(fields, def.fields)) else None
  {
    if def.fields == [] {
      return None;
    }
    var values: seq<Value> := [];
    for i := 0 to |def.fields|
      invariant |values| == i
      invariant forall j :: 0 <= j < i ==> def.fields[j] in fields && !fields[def.fields[j]].NoneValue? && values[j] == fields[def.fields[j]]
    {
      if def.fields[i] in fields && !fields[def.fields[i]].NoneValue? {
        values := values + [fields[def.fields[i]]];
      } else {
        return None;
      }
    }
    assert values == TupleOf(fields, def.fields);
    r := Some(values);
  }

  /** The entry `def` requires for a document: none, one key, or an error. */
  function EntryFor(t: Table, def: IndexDefinition, id: str, fields: Fields): Result<Option<Key>> {
    if !def.kind.BTree? then Ok(None)
    else if def.fields == [] then Err(Index)
    else if !FullTuple(fields, def.fields) then Ok(None)
    else
      var raws :- EncodeAll(TupleOf(fields, def.fields));
      Ok(Some(IndexEntryKey(t, def.name, Parts(raws), id)))
  }

  function EntriesFor(t: Table, defs: seq<IndexDefinition>, id: str, fields: Fields): (r: Result<seq<Key>>)
    ensures r.Ok? <==> forall d :: d in defs ==> EntryFor(t, d, id, fields).Ok?
    ensures r.Err? ==> r.error == Index
    ensures r.Ok? ==> forall k :: k in r.value <==> exists d :: d in defs && EntryFor(t, d, id, fields) == Ok(Some(k))
  {
    if defs == [] then Ok([])
    else
      var init, last := defs[..|defs| - 1], defs[|defs| - 1];
      assert forall d :: d in defs <==> d in init || d == last;
      var keys :- EntriesFor(t, init, id, fields);
      var key :- EntryFor(t, last, id, fields);
      Ok(if key.Some? then keys + [key.value] else keys)
  }

  method BuildIndexEntries(t: Table, defs: seq<IndexDefinition>, id: str, fields: Fields) returns (r: Result<seq<Key>>)
    ensures r == EntriesFor(t, defs, id, fields)
  {
    var entries: seq<Key> := [];
    for i := 0 to |defs|
      invariant EntriesFor(t, defs[..i], id, fields) == Ok(entries)
    {
      assert defs[..i + 1][..i] == defs[..i];
      var idx := defs[i];
      assert idx in defs;
      if idx.kind.BTree? {
        if idx.fields == [] {
          return Err(Index);
        }
        var values := CollectIndexValues(fields, idx);
        if values.Some? {
          var part := EncodeCompositeKeyPart(values.value);
          if part.Err? {
            return Err(Index);
          }
          entries := entries + [IndexEntryKey(t, idx.name, part.value, id)];
        }
      }
    }
    assert defs[..|defs|] == defs;
    r := Ok(entries);
  }

  /** The store puts that write entry keys; index entries carry no value. */
  function EntryPuts(keys: seq<Key>): (puts: seq<(Key, Blob)>)
    ensures KeysOf(puts) == keys
  {
    seq(|keys|, i requires 0 <= i < |keys| => (keys[i], Empty))
  }

  // -------------------------------------------------------------------------
  // Abstract state of a table
  // -------------------------------------------------------------------------

  function DocIds(kv: Kv, t: Table): set<str> {
    set k | k in kv && TablePrefix(t, DOCUMENT) <= k :: k[|TablePrefix(t, DOCUMENT)|..]
  }

  lemma InDocIds(kv: Kv, t: Table, id: str)
    ensures id in DocIds(kv, t) <==> DocumentKey(t, id) in kv
  {
    var p, k := TablePrefix(t, DOCUMENT), DocumentKey(t, id);
    assert k[|p|..] == id;
    if id in DocIds(kv, t) {
      var k' :| k' in kv && p <= k' && k'[|p|..] == id;
      assert k' == k;
    }
  }

  function FieldsAt(kv: Kv, k: Key): Fields {
    if k in kv && kv[k].FieldsBlob? then kv[k].fields else map[]
  }

  /** The stored documents by id. */
  function Docs(kv: Kv, t: Table): map<str, Fields> {
    map id | id in DocIds(kv, t) :: FieldsAt(kv, DocumentKey(t, id))
  }

  function CatalogNames(kv: Kv, t: Table): set<str> {
    set k | k in kv && CatalogPrefix(t) <= k :: k[|CatalogPrefix(t)|..]
  }

  lemma InCatalogNames(kv: Kv, t: Table, name: str)
    ensures name in CatalogNames(kv, t) <==> CatalogKey(t, name) in kv
  {
    var p, k := CatalogPrefix(t), CatalogKey(t, name);
    assert k[|p|..] == name;
    if name in CatalogNames(kv, t) {
      var k' :| k' in kv && p <= k' && k'[|p|..] == name;
      assert k' == k;
    }
  }

  function DefAt(kv: Kv, k: Key): IndexDefinition {
    if k in kv && kv[k].DefBlob? then kv[k].def else IndexDefinition([], [], false, BTree)
  }

  /** The defined indexes by name. */
  function Catalog(kv: Kv, t: Table): map<str, IndexDefinition> {
    map name | name in CatalogNames(kv, t) :: DefAt(kv, CatalogKey(t, name))
  }

  function IndexRegion(kv: Kv, t: Table): set<Key> {
    PrefixKeys(kv, TablePrefix(t, INDEX))
  }

  predicate HasEntry(t: Table, def: IndexDefinition, id: str, fields: Fields) {
    EntryFor(t, def, id, fields).Ok? && EntryFor(t, def, id, fields).value.Some?
  }

  function EntryOf(t: Table, def: IndexDefinition, id: str, fields: Fields): Key
    requires HasEntry(t, def, id, fields)
  {
    EntryFor(t, def, id, fields).value.value
  }

  /** All entries a catalog derives from a set of documents. */
  function DerivedEntries(t: Table, docs: map<str, Fields>, catalog: map<str, IndexDefinition>): set<Key> {
    set id, name | id in docs && name in catalog && HasEntry(t, catalog[name], id, docs[id]) :: EntryOf(t, catalog[name], id, docs[id])
  }

  /** Every document can be indexed by every definition. */
  predicate AllEncodable(t: Table, docs: map<str, Fields>, catalog: map<str, IndexDefinition>) {
    forall id, name :: id in docs && name in catalog ==> EntryFor(t, catalog[name], id, docs[id]).Ok?
  }

  /** Stored blobs have the type their region calls for. */
  ghost predicate WellFormed(kv: Kv, t: Table) {
    forall k {:trigger GoodBlob(kv, t, k)} :: k in kv ==> GoodBlob(kv, t, k)
  }

  predicate GoodBlob(kv: Kv, t: Table, k: Key)
    requires k in kv
  {
    && (TablePrefix(t, DOCUMENT) <= k ==> kv[k].FieldsBlob? && Utf8(k[|TablePrefix(t, DOCUMENT)|..]))
    && (CatalogPrefix(t) <= k ==> kv[k].DefBlob? && GoodDef(kv[k].def) && k == CatalogKey(t, kv[k].def.name))
    && (TablePrefix(t, INDEX) <= k ==> kv[k] == Empty)
  }

  predicate GoodDef(def: IndexDefinition) {
    && Segment(def.name)
    && (def.kind.BTree? ==> def.fields != [])
    && (def.unique ==> def.kind.BTree?)
  }

  /** The index invariant: the INDEX region is exactly the derived entries. */
  ghost predicate Consistent(kv: Kv, t: Table) {
    && WellFormed(kv, t)
    && AllEncodable(t, Docs(kv, t), Catalog(kv, t))
    && IndexRegion(kv, t) == DerivedEntries(t, Docs(kv, t), Catalog(kv, t))
  }

  /** What survives any write: every derived entry is stored. Others may be left over from earlier writes. */
  ghost predicate Covered(kv: Kv, t: Table) {
    && WellFormed(kv, t)
    && AllEncodable(t, Docs(kv, t), Catalog(kv, t))
    && DerivedEntries(t, Docs(kv, t), Catalog(kv, t)) <= IndexRegion(kv, t)
  }

  lemma GoodCatalog(kv: Kv, t: Table, name: str)
    requires WellFormed(kv, t) && name in Catalog(kv, t)
    ensures GoodDef(Catalog(kv, t)[name]) && Catalog(kv, t)[name].name == name
    ensures kv[CatalogKey(t, name)] == DefBlob(Catalog(kv, t)[name])
  {
    InCatalogNames(kv, t, name);
    var k := CatalogKey(t, name);
    assert GoodBlob(kv, t, k);
    assert k[|CatalogPrefix(t)|..] == name;
    assert CatalogKey(t, kv[k].def.name)[|CatalogPrefix(t)|..] == kv[k].def.name;
  }

  // -------------------------------------------------------------------------
  // Entry keys determine index and document
  // -------------------------------------------------------------------------

  lemma EntryInRegion(t: Table, def: IndexDefinition, id: str, fields: Fields)
    requires HasEntry(t, def, id, fields)
    ensures FullTuple(fields, def.fields) && EncodeAll(TupleOf(fields, def.fields)).Ok?
    ensures EntryOf(t, def, id, fields) == IndexPrefix(t, def.name) + (Parts(EncodeAll(TupleOf(fields, def.fields)).value) + id)
    ensures TablePrefix(t, INDEX) <= EntryOf(t, def, id, fields)
    ensures IndexPrefix(t, def.name) <= EntryOf(t, def, id, fields)
  {
    var p, parts := IndexPrefix(t, def.name), Parts(EncodeAll(TupleOf(fields, def.fields)).value);
    assert p + parts + id == p + (parts + id);
    assert TablePrefix(t, INDEX) <= p;
  }

  /** Two entries with one key: same index name, and for one definition the same id and tuple. */
  lemma EntryKeyInjective(t: Table, def: IndexDefinition, id: str, fields: Fields, def': IndexDefinition, id': str, fields': Fields)
    requires Segment(def.name) && Segment(def'.name)
    requires HasEntry(t, def, id, fields) && HasEntry(t, def', id', fields')
    requires EntryOf(t, def, id, fields) == EntryOf(t, def', id', fields')
    ensures def.name == def'.name
    ensures def == def' ==> id == id' && EncodeAll(TupleOf(fields, def.fields)) == EncodeAll(TupleOf(fields', def.fields))
  {
    EntryInRegion(t, def, id, fields);
    EntryInRegion(t, def', id', fields');
    var raws, raws' := EncodeAll(TupleOf(fields, def.fields)).value, EncodeAll(TupleOf(fields', def'.fields)).value;
    IndexKeyDecomposes(t, def.name, Parts(raws) + id, def'.name, Parts(raws') + id');
    if def == def' {
      PartsInjective(raws, id, raws', id');
    }
  }

  /** `e` is the entry of a stored document in the index `def`. */
  predicate StoredEntry(docs: map<str, Fields>, def: IndexDefinition, e: Entry) {
    && e.id in docs
    && def.kind.BTree?
    && FullTuple(docs[e.id], def.fields)
    && EncodeAll(TupleOf(docs[e.id], def.fields)) == Ok(e.raws)
  }

  /** The entries a lookup through `def` can meet: derived ones and leftovers. */
  ghost function HeldBy(kv: Kv, t: Table, def: IndexDefinition): set<Entry> {
    EntriesUnder(kv, IndexPrefix(t, def.name), |def.fields|)
  }

  lemma InHeld(kv: Kv, t: Table, def: IndexDefinition, e: Entry)
    ensures e in HeldBy(kv, t, def) <==> |e.raws| == |def.fields| && Utf8(e.id) && EntryKey(IndexPrefix(t, def.name), e) in IndexRegion(kv, t)
  {
    InEntries(kv, IndexPrefix(t, def.name), |def.fields|, e);
    assert TablePrefix(t, INDEX) <= EntryKey(IndexPrefix(t, def.name), e);
  }

  /** The entries of every index of a table. */
  type Holdings = IndexDefinition -> set<Entry>

  ghost function HoldingsOf(kv: Kv, t: Table): Holdings {
    def => HeldBy(kv, t, def)
  }

  /** Leftovers: entries no stored document derives. */
  ghost function Stale(docs: map<str, Fields>, def: IndexDefinition, held: set<Entry>): set<Entry> {
    set e | e in held && !StoredEntry(docs, def, e)
  }

  /** The index holds the entry of every stored document. */
  ghost predicate HoldsAll(docs: map<str, Fields>, def: IndexDefinition, held: set<Entry>) {
    forall e :: StoredEntry(docs, def, e) ==> e in held
  }

  /** On a consistent table an index holds exactly the entries of the stored documents. */
  lemma EntriesAreStored(kv: Kv, t: Table, name: str)
    requires Consistent(kv, t) && name in Catalog(kv, t)
    ensures forall e :: e in HeldBy(kv, t, Catalog(kv, t)[name]) <==> StoredEntry(Docs(kv, t), Catalog(kv, t)[name], e)
    ensures Stale(Docs(kv, t), Catalog(kv, t)[name], HeldBy(kv, t, Catalog(kv, t)[name])) == {}
  {
    var region, def := IndexPrefix(t, name), Catalog(kv, t)[name];
    GoodCatalog(kv, t, name);
    StoredAreHeld(kv, t, name);
    forall e | e in HeldBy(kv, t, def) ensures StoredEntry(Docs(kv, t), def, e) {
      InEntries(kv, region, |def.fields|, e);
      assert region <= EntryKey(region, e);
      var e' := ReadEntry(kv, t, name, EntryKey(region, e));
      EntryKeyOrder(region, e, e');
    }
  }

  /** The entries of stored documents are held, whatever else is. */
  lemma StoredAreHeld(kv: Kv, t: Table, name: str)
    requires Covered(kv, t) && name in Catalog(kv, t)
    ensures HoldsAll(Docs(kv, t), Catalog(kv, t)[name], HeldBy(kv, t, Catalog(kv, t)[name]))
  {
    var region, def := IndexPrefix(t, name), Catalog(kv, t)[name];
    GoodCatalog(kv, t, name);
    forall e | StoredEntry(Docs(kv, t), def, e) ensures e in HeldBy(kv, t, def) {
      DocIdUtf8(kv, t, e.id);
      assert EntryOf(t, def, e.id, Docs(kv, t)[e.id]) == EntryKey(region, e);
      assert EntryKey(region, e) in DerivedEntries(t, Docs(kv, t), Catalog(kv, t));
      InEntries(kv, region, |def.fields|, e);
    }
  }

  lemma DerivedFrom(t: Table, docs: map<str, Fields>, catalog: map<str, IndexDefinition>, k: Key) returns (id: str, name: str)
    requires k in DerivedEntries(t, docs, catalog)
    ensures id in docs && name in catalog && HasEntry(t, catalog[name], id, docs[id]) && k == EntryOf(t, catalog[name], id, docs[id])
  {
    id, name :| id in docs && name in catalog && HasEntry(t, catalog[name], id, docs[id]) && k == EntryOf(t, catalog[name], id, docs[id]);
  }

  lemma DocIdUtf8(kv: Kv, t: Table, id: str)
    requires WellFormed(kv, t) && id in Docs(kv, t)
    ensures Utf8(id)
  {
    InDocIds(kv, t, id);
    var k := DocumentKey(t, id);
    assert GoodBlob(kv, t, k);
    assert k[|TablePrefix(t, DOCUMENT)|..] == id;
  }

  lemma ReadEntry(kv: Kv, t: Table, name: str, k: Key) returns (e: Entry)
    requires Consistent(kv, t) && name in Catalog(kv, t)
    requires k in kv && IndexPrefix(t, name) <= k
    ensures IsEntry(IndexPrefix(t, name), |Catalog(kv, t)[name].fields|, e, k) && StoredEntry(Docs(kv, t), Catalog(kv, t)[name], e)
  {
    var p := IndexPrefix(t, name);
    assert TablePrefix(t, INDEX) <= p <= k;
    assert k in IndexRegion(kv, t);
    var id, name' := DerivedFrom(t, Docs(kv, t), Catalog(kv, t), k);
    var def, fields := Catalog(kv, t)[name'], Docs(kv, t)[id];
    GoodCatalog(kv, t, name);
    GoodCatalog(kv, t, name');
    EntryInRegion(t, def, id, fields);
    var raws := EncodeAll(TupleOf(fields, def.fields)).value;
    assert k == p + k[|p|..];
    IndexKeyDecomposes(t, name', Parts(raws) + id, name, k[|p|..]);
    e := Entry(raws, id);
    DocIdUtf8(kv, t, id);
    assert p + (Parts(raws) + id) == p + Parts(raws) + id;
  }
}
