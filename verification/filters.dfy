/**
 What a WHERE condition selects (`matches_where`, crates/query/src/executor.rs):
 against the indexes, against its complement, and by order.
 */
module Filters {
  import opened Bytes
  import opened Wrappers
  import opened Values
  import opened Records
  import opened Keys
  import opened StorageModel
  import opened IndexEncoding
  import opened IndexScan
  import opened IndexState
  import opened Planner
  import opened QueryExec

  // -------------------------------------------------------------------------
  // IS NONE and IS NOT NONE
  // -------------------------------------------------------------------------

  function IsNone(name: str): WhereClause { IsNull(name, false) }

  function IsNotNone(name: str): WhereClause { IsNull(name, true) }

  /** Every field of an index is set. */
  predicate AllSet(doc: Fields, names: seq<str>) {
    forall i :: 0 <= i < |names| ==> MatchesWhere(doc, IsNotNone(names[i]))
  }

  /** A B-tree index derives an entry for an encodable document exactly when all its fields are set. */
  lemma SetIffIndexed(t: Table, def: IndexDefinition, id: str, doc: Fields)
    requires def.kind.BTree? && def.fields != [] && EntryFor(t, def, id, doc).Ok?
    ensures HasEntry(t, def, id, doc) <==> AllSet(doc, def.fields)
  {
    if HasEntry(t, def, id, doc) {
      forall i | 0 <= i < |def.fields| ensures MatchesWhere(doc, IsNotNone(def.fields[i])) {
        assert FullTuple(doc, def.fields);
      }
    }
    if AllSet(doc, def.fields) {
      forall i | 0 <= i < |def.fields| ensures def.fields[i] in doc && !doc[def.fields[i]].NoneValue? {
        assert MatchesWhere(doc, IsNotNone(def.fields[i]));
      }
    }
  }

  /** A single-column index of a consistent table names exactly the documents that `IS NOT NONE` accepts. */
  lemma IndexHoldsSet(kv: Kv, t: Table, index: str, name: str)
    requires Consistent(kv, t) && index in Catalog(kv, t)
    requires Catalog(kv, t)[index].kind.BTree? && Catalog(kv, t)[index].fields == [name]
    ensures FoundIds(HeldBy(kv, t, Catalog(kv, t)[index])) == Matching(Docs(kv, t), Some(IsNotNone(name)))
  {
    var docs, def := Docs(kv, t), Catalog(kv, t)[index];
    EntriesAreStored(kv, t, index);
    forall e | e in HeldBy(kv, t, def) ensures e.id in Matching(docs, Some(IsNotNone(name))) {
      assert def.fields[0] == name;
    }
    forall id | id in Matching(docs, Some(IsNotNone(name))) ensures id in FoundIds(HeldBy(kv, t, def)) {
      assert AllSet(docs[id], def.fields);
      SetIffIndexed(t, def, id, docs[id]);
      var e := Entry(EncodeAll(TupleOf(docs[id], def.fields)).value, id);
      assert StoredEntry(docs, def, e);
    }
  }

  /** Every B-tree index has a column. */
  ghost predicate Usable(indexes: seq<IndexDefinition>) {
    forall i :: 0 <= i < |indexes| ==> indexes[i].kind.BTree? ==> indexes[i].fields != []
  }

  /** No index serves a condition that is not an indexable comparison. */
  lemma Scanned(indexes: seq<IndexDefinition>, clause: WhereClause)
    requires !clause.And? && AtomOf(clause).None? && Usable(indexes)
    ensures Choice(indexes, clause).None?
  {
    var cs := Conjuncts(clause);
    forall i | 0 <= i < |indexes| ensures Candidate(indexes[i], cs).None? {
      if indexes[i].kind.BTree? { PlanExists(indexes[i], cs); }
    }
  }

  /** `left` and `right` split `whole` without overlap. */
  ghost predicate Splits(whole: set<str>, left: set<str>, right: set<str>) {
    left + right == whole && left !! right
  }

  lemma SplitSizes(whole: set<str>, left: set<str>, right: set<str>)
    requires Splits(whole, left, right)
    ensures |left| + |right| == |whole|
  {
  }

  /** The stored documents that lack the field or hold NONE in it. */
  function Unset(docs: map<str, Fields>, name: str): set<str> {
    set id | id in docs && (name !in docs[id] || docs[id][name] == NoneValue)
  }

  /** The rows of `IS NONE` are every document without a value, once each; those of `IS NOT NONE` are the rest. */
  lemma NoneRows(indexes: seq<IndexDefinition>, docs: map<str, Fields>, held: Holdings, name: str, unset: seq<Document>, others: seq<Document>)
    requires Usable(indexes)
    requires Selects(indexes, docs, held, Some(IsNone(name)), unset) && Selects(indexes, docs, held, Some(IsNotNone(name)), others)
    ensures IdsOf(unset) == Unset(docs, name) && DistinctIds(unset) && DistinctIds(others)
    ensures Splits(docs.Keys, IdsOf(unset), IdsOf(others)) && |unset| + |others| == |docs|
  {
    Scanned(indexes, IsNone(name));
    Scanned(indexes, IsNotNone(name));
    ScanRowsMean(docs, Some(IsNone(name)), unset);
    ScanRowsMean(docs, Some(IsNotNone(name)), others);
    SplitSizes(docs.Keys, IdsOf(unset), IdsOf(others));
  }

  /** So do the counts. */
  lemma NoneCounts(indexes: seq<IndexDefinition>, docs: map<str, Fields>, held: Holdings, name: str, unset: nat, others: nat)
    requires Usable(indexes)
    requires Counts(indexes, docs, held, IsNone(name), unset) && Counts(indexes, docs, held, IsNotNone(name), others)
    ensures unset == |Unset(docs, name)| && unset + others == |docs|
  {
    Scanned(indexes, IsNone(name));
    Scanned(indexes, IsNotNone(name));
    assert Matching(docs, Some(IsNone(name))) == Unset(docs, name);
    SplitSizes(docs.Keys, Matching(docs, Some(IsNone(name))), Matching(docs, Some(IsNotNone(name))));
  }

  // -------------------------------------------------------------------------
  // Comparisons
  // -------------------------------------------------------------------------

  /** The stored documents in which the item has a value. */
  function Having(docs: map<str, Fields>, item: SelectItem): set<str> {
    set id | id in docs && EvalSelectItem(docs[id], item).Some?
  }

  /** Those whose value of the item compares with the literal. */
  function Comparable(docs: map<str, Fields>, item: SelectItem, value: Literal): set<str> {
    set id | id in Having(docs, item) && CmpValues(EvalSelectItem(docs[id], item).value, value.ToValue()).Some?
  }

  function Under(docs: map<str, Fields>, item: SelectItem, op: CmpOp, value: Literal): set<str> {
    set id | id in docs && MatchesWhere(docs[id], Cmp(item, op, value))
  }

  lemma EqualSplits(docs: map<str, Fields>, item: SelectItem, value: Literal)
    ensures Splits(Having(docs, item), Under(docs, item, Eq, value), Under(docs, item, Ne, value))
    ensures Under(docs, item, Ne, value) == Matching(docs, Some(Cmp(item, Ne, value)))
    ensures item.Field? ==> Having(docs, item) == set id | id in docs && item.name in docs[id]
  {
  }

  /** The rows of `!=` are the documents that have the item, NONE included, and do not answer `=`. */
  lemma UnequalRows(indexes: seq<IndexDefinition>, docs: map<str, Fields>, held: Holdings, item: SelectItem, value: Literal, rows: seq<Document>)
    requires Usable(indexes) && Selects(indexes, docs, held, Some(Cmp(item, Ne, value)), rows)
    ensures Splits(Having(docs, item), Under(docs, item, Eq, value), IdsOf(rows)) && DistinctIds(rows)
    ensures item.Field? ==> Having(docs, item) == set id | id in docs && item.name in docs[id]
  {
    EqualSplits(docs, item, value);
    Scanned(indexes, Cmp(item, Ne, value));
    ScanRowsMean(docs, Some(Cmp(item, Ne, value)), rows);
  }

  /** `<` against `>=` and `>` against `<=` split the documents whose value compares, and `<=` is `<` or the rest of `>=`. */
  lemma OrderSplits(docs: map<str, Fields>, item: SelectItem, value: Literal)
    ensures Splits(Comparable(docs, item, value), Under(docs, item, CmpOp.Lt, value), Under(docs, item, Gte, value))
    ensures Splits(Comparable(docs, item, value), Under(docs, item, Gt, value), Under(docs, item, Lte, value))
    ensures Under(docs, item, CmpOp.Lt, value) <= Under(docs, item, Lte, value)
    ensures Under(docs, item, Gt, value) <= Under(docs, item, Gte, value)
  {
  }
}
