/**
 What the answers through an index are worth: SELECT and COUNT as specified in
 `QueryExec`, compared with scanning and filtering, on typed columns and with or
 without leftover entries.
 */
module IndexAnswers {
  import opened Bytes
  import opened Wrappers
  import opened Values
  import opened Records
  import opened IndexEncoding
  import opened IndexScan
  import opened IndexState
  import opened Planner
  import opened QueryExec

  // -------------------------------------------------------------------------
  // Typing of the indexed columns
  // -------------------------------------------------------------------------

  predicate LiteralsTyped(plan: IndexPlan, kinds: seq<Kind>) {
    && Typed(plan.eq, kinds)
    && (HasBound(plan) ==> |plan.eq| < |kinds|)
    && (plan.lower.Some? ==> HasKind(plan.lower.value.0, kinds[|plan.eq|]))
    && (plan.upper.Some? ==> HasKind(plan.upper.value.0, kinds[|plan.eq|]))
  }

  /** Each column of `idx` holds values of one kind only, and the plan's literals are of that kind. */
  ghost predicate Typing(docs: map<str, Fields>, idx: IndexDefinition, plan: IndexPlan, kinds: seq<Kind>) {
    && |kinds| == |idx.fields|
    && LiteralsTyped(plan, kinds)
    && forall id, i :: id in docs && 0 <= i < |idx.fields| && idx.fields[i] in docs[id] && !docs[id][idx.fields[i]].NoneValue?
         ==> HasKind(docs[id][idx.fields[i]], kinds[i])
  }

  /** The range column, if any, is not boolean: `CmpValues` does not order booleans, the index does. */
  predicate OrderedRange(plan: IndexPlan) {
    && (plan.lower.Some? ==> !plan.lower.value.0.Bool?)
    && (plan.upper.Some? ==> !plan.upper.value.0.Bool?)
  }

  /** The plan constrains every field of the index. */
  predicate Constrained(plan: IndexPlan, idx: IndexDefinition) {
    |plan.eq| + (if HasBound(plan) then 1 else 0) == |idx.fields|
  }

  lemma ConstrainedIsIndexed(doc: Fields, idx: IndexDefinition, plan: IndexPlan)
    requires PlanFits(plan, idx) && Constrained(plan, idx) && PlanHolds(doc, idx, plan)
    ensures FullTuple(doc, idx.fields)
  {
    forall i | 0 <= i < |idx.fields| ensures idx.fields[i] in doc && !doc[idx.fields[i]].NoneValue? {
      if i < |plan.eq| {
        assert AtomHolds(doc, idx.fields[i], EqAtom(plan.eq[i]));
        assert Indexable(plan.eq[i]);
      }
    }
  }

  /** On a typed full tuple, the atoms of a plan are its selection by values. */
  lemma PlanSelects(doc: Fields, idx: IndexDefinition, plan: IndexPlan, kinds: seq<Kind>)
    requires PlanFits(plan, idx) && FullTuple(doc, idx.fields)
    requires |kinds| == |idx.fields| && LiteralsTyped(plan, kinds) && Typed(TupleOf(doc, idx.fields), kinds)
    ensures PlanHolds(doc, idx, plan) ==> SelectedValues(TupleOf(doc, idx.fields), plan.eq, plan.lower, plan.upper)
    ensures OrderedRange(plan) && SelectedValues(TupleOf(doc, idx.fields), plan.eq, plan.lower, plan.upper) ==> PlanHolds(doc, idx, plan)
  {
    var values := TupleOf(doc, idx.fields);
    assert forall i :: 0 <= i < |plan.eq| ==> (AtomHolds(doc, idx.fields[i], EqAtom(plan.eq[i])) <==> ValueEq(values[i], plan.eq[i]));
    if HasBound(plan) {
      var n := |plan.eq|;
      if plan.lower.Some? { BoundMeans(values[n], plan.lower.value.0, kinds[n]); }
      if plan.upper.Some? { BoundMeans(values[n], plan.upper.value.0, kinds[n]); }
    }
  }

  lemma BoundMeans(v: Value, w: Value, kind: Kind)
    requires HasKind(v, kind) && HasKind(w, kind)
    ensures CmpValues(v, w) == Some(Greater) ==> ValueLt(w, v)
    ensures CmpValues(v, w) == Some(Less) ==> ValueLt(v, w)
    ensures CmpValues(v, w) == Some(Equal) ==> ValueEq(v, w) && ValueEq(w, v)
    ensures !w.Bool? && ValueLt(w, v) ==> CmpValues(v, w) == Some(Greater)
    ensures !w.Bool? && ValueLt(v, w) ==> CmpValues(v, w) == Some(Less)
    ensures !w.Bool? && (ValueEq(v, w) || ValueEq(w, v)) ==> CmpValues(v, w) == Some(Equal)
  {
    if v.String? { LtTrichotomy(v.s, w.s); }
  }

  // -------------------------------------------------------------------------
  // Entries of stored documents and leftovers
  // -------------------------------------------------------------------------

  /** Matching documents that have an entry in `idx`. */
  ghost function MatchingIndexed(docs: map<str, Fields>, filter: Option<WhereClause>, idx: IndexDefinition): set<str> {
    set id | id in Matching(docs, filter) && FullTuple(docs[id], idx.fields)
  }

  /** Matching documents that have none. */
  ghost function Unindexed(docs: map<str, Fields>, filter: Option<WhereClause>, idx: IndexDefinition): set<str> {
    Matching(docs, filter) - MatchingIndexed(docs, filter, idx)
  }

  /** Documents with an entry whose values the plan selects. */
  ghost function SelectedIds(docs: map<str, Fields>, idx: IndexDefinition, plan: IndexPlan): set<str> {
    set id | PlanFits(plan, idx) && id in docs && FullTuple(docs[id], idx.fields) && SelectedValues(TupleOf(docs[id], idx.fields), plan.eq, plan.lower, plan.upper)
  }

  /** The selected entries of stored documents. */
  ghost function Derived(docs: map<str, Fields>, idx: IndexDefinition, plan: IndexPlan, held: set<Entry>): set<Entry>
    requires PlanFits(plan, idx)
  {
    set e | e in PlanEntries(held, idx, plan) && StoredEntry(docs, idx, e)
  }

  /** The selected leftovers. */
  ghost function Leftovers(docs: map<str, Fields>, idx: IndexDefinition, plan: IndexPlan, held: set<Entry>): set<Entry>
    requires PlanFits(plan, idx)
  {
    PlanEntries(Stale(docs, idx, held), idx, plan)
  }

  lemma EntriesSplit(docs: map<str, Fields>, idx: IndexDefinition, plan: IndexPlan, held: set<Entry>)
    requires PlanFits(plan, idx)
    ensures PlanEntries(held, idx, plan) == Derived(docs, idx, plan, held) + Leftovers(docs, idx, plan, held)
    ensures Derived(docs, idx, plan, held) !! Leftovers(docs, idx, plan, held)
  {
  }

  /** No document has two entries of the set. */
  ghost predicate OncePerDocument(entries: set<Entry>) {
    forall e, f :: e in entries && f in entries && e.id == f.id ==> e == f
  }

  lemma {:induction false} OnceCount(entries: set<Entry>)
    requires OncePerDocument(entries)
    ensures |FoundIds(entries)| == |entries|
  {
    if entries != {} {
      var e :| e in entries;
      OnceCount(entries - {e});
      assert FoundIds(entries) == FoundIds(entries - {e}) + {e.id};
    } else {
      assert FoundIds(entries) == {};
    }
  }

  /** With typed columns the entry of a document is selected exactly when its values are. */
  lemma StoredSelected(docs: map<str, Fields>, idx: IndexDefinition, plan: IndexPlan, kinds: seq<Kind>, held: set<Entry>, id: str)
    requires PlanFits(plan, idx) && idx.kind.BTree? && Typing(docs, idx, plan, kinds) && HoldsAll(docs, idx, held)
    requires id in docs && FullTuple(docs[id], idx.fields)
    ensures id in FoundIds(Derived(docs, idx, plan, held)) <==> id in SelectedIds(docs, idx, plan)
  {
    var values := TupleOf(docs[id], idx.fields);
    assert Typed(values, kinds);
    SelectionOnValues(values, plan.eq, plan.lower, plan.upper, kinds);
    var e := Entry(EncodeAll(values).value, id);
    assert StoredEntry(docs, idx, e);
    assert e in Derived(docs, idx, plan, held) <==> SelectedValues(values, plan.eq, plan.lower, plan.upper);
    forall e' | e' in Derived(docs, idx, plan, held) && e'.id == id ensures e' == e {}
  }

  lemma DerivedIds(docs: map<str, Fields>, idx: IndexDefinition, plan: IndexPlan, kinds: seq<Kind>, held: set<Entry>)
    requires PlanFits(plan, idx) && idx.kind.BTree? && Typing(docs, idx, plan, kinds) && HoldsAll(docs, idx, held)
    ensures FoundIds(Derived(docs, idx, plan, held)) == SelectedIds(docs, idx, plan)
    ensures |Derived(docs, idx, plan, held)| == |SelectedIds(docs, idx, plan)|
  {
    forall id ensures id in FoundIds(Derived(docs, idx, plan, held)) <==> id in SelectedIds(docs, idx, plan) {
      if id in docs && FullTuple(docs[id], idx.fields) { StoredSelected(docs, idx, plan, kinds, held, id); }
    }
    OnceCount(Derived(docs, idx, plan, held));
  }

  /** A plan the filter implies selects the entry of every matching document that has one. */
  lemma DerivedHits(docs: map<str, Fields>, filter: Option<WhereClause>, idx: IndexDefinition, plan: IndexPlan, kinds: seq<Kind>, held: set<Entry>)
    requires PlanFits(plan, idx) && idx.kind.BTree? && Typing(docs, idx, plan, kinds) && HoldsAll(docs, idx, held)
    requires filter.Some? && forall doc :: MatchesWhere(doc, filter.value) ==> PlanHolds(doc, idx, plan)
    ensures FoundIds(HitsIn(docs, filter, Derived(docs, idx, plan, held))) == MatchingIndexed(docs, filter, idx)
    ensures |HitsIn(docs, filter, Derived(docs, idx, plan, held))| == |MatchingIndexed(docs, filter, idx)|
  {
    var hits := HitsIn(docs, filter, Derived(docs, idx, plan, held));
    forall id | id in MatchingIndexed(docs, filter, idx) ensures id in FoundIds(hits) {
      StoredSelected(docs, idx, plan, kinds, held, id);
      assert Typed(TupleOf(docs[id], idx.fields), kinds);
      PlanSelects(docs[id], idx, plan, kinds);
      var e :| e in Derived(docs, idx, plan, held) && e.id == id;
      assert e in hits;
    }
    forall e | e in hits ensures e.id in MatchingIndexed(docs, filter, idx) {}
    assert FoundIds(hits) == MatchingIndexed(docs, filter, idx);
    OnceCount(hits);
  }

  lemma HitsUnion(docs: map<str, Fields>, filter: Option<WhereClause>, a: set<Entry>, b: set<Entry>)
    requires a !! b
    ensures |HitsIn(docs, filter, a + b)| == |HitsIn(docs, filter, a)| + |HitsIn(docs, filter, b)|
    ensures FoundIds(HitsIn(docs, filter, a + b)) == FoundIds(HitsIn(docs, filter, a)) + FoundIds(HitsIn(docs, filter, b))
  {
    assert HitsIn(docs, filter, a + b) == HitsIn(docs, filter, a) + HitsIn(docs, filter, b);
  }

  // -------------------------------------------------------------------------
  // SELECT
  // -------------------------------------------------------------------------

  /** Through an index the answer is the matching documents with an entry, and those a leftover leads to. */
  lemma AnswerSplits(indexes: seq<IndexDefinition>, docs: map<str, Fields>, held: Holdings, filter: Option<WhereClause>, ids: set<str>, kinds: seq<Kind>)
    requires Access(indexes, filter).Some? && Answers(indexes, docs, held, filter, ids)
    requires var (plan, idx) := Access(indexes, filter).value; Typing(docs, idx, plan, kinds) && HoldsAll(docs, idx, held(idx))
    ensures var (plan, idx) := Access(indexes, filter).value;
      ids == MatchingIndexed(docs, filter, idx) + FoundIds(HitsIn(docs, filter, Leftovers(docs, idx, plan, held(idx))))
  {
    var (plan, idx) := Access(indexes, filter).value;
    ChoiceMeans(indexes, filter.value);
    EntriesSplit(docs, idx, plan, held(idx));
    HitsUnion(docs, filter, Derived(docs, idx, plan, held(idx)), Leftovers(docs, idx, plan, held(idx)));
    DerivedHits(docs, filter, idx, plan, kinds, held(idx));
  }

  /** It is scan-and-filter exactly when a leftover leads to every matching document that has no entry. */
  lemma CompleteIff(indexes: seq<IndexDefinition>, docs: map<str, Fields>, held: Holdings, filter: Option<WhereClause>, ids: set<str>, kinds: seq<Kind>)
    requires Access(indexes, filter).Some? && Answers(indexes, docs, held, filter, ids)
    requires var (plan, idx) := Access(indexes, filter).value; Typing(docs, idx, plan, kinds) && HoldsAll(docs, idx, held(idx))
    ensures var (plan, idx) := Access(indexes, filter).value;
      ids == Matching(docs, filter) <==> Unindexed(docs, filter, idx) <= FoundIds(Leftovers(docs, idx, plan, held(idx)))
  {
    var (plan, idx) := Access(indexes, filter).value;
    AnswerSplits(indexes, docs, held, filter, ids, kinds);
    var left := Leftovers(docs, idx, plan, held(idx));
    assert FoundIds(HitsIn(docs, filter, left)) == FoundIds(left) * Matching(docs, filter);
  }

  /** Without leftovers it is exactly when every matching document holds the full tuple. */
  lemma CompleteIffIndexed(indexes: seq<IndexDefinition>, docs: map<str, Fields>, held: Holdings, filter: Option<WhereClause>, ids: set<str>, kinds: seq<Kind>)
    requires Access(indexes, filter).Some? && Answers(indexes, docs, held, filter, ids)
    requires var (plan, idx) := Access(indexes, filter).value;
      Typing(docs, idx, plan, kinds) && HoldsAll(docs, idx, held(idx)) && Stale(docs, idx, held(idx)) == {}
    ensures ids == Matching(docs, filter) <==> forall id :: id in Matching(docs, filter) ==> FullTuple(docs[id], Access(indexes, filter).value.1.fields)
  {
    var (plan, idx) := Access(indexes, filter).value;
    CompleteIff(indexes, docs, held, filter, ids, kinds);
    assert FoundIds(Leftovers(docs, idx, plan, held(idx))) == {};
    assert forall id :: id in Matching(docs, filter) ==> (id in Unindexed(docs, filter, idx) <==> !FullTuple(docs[id], idx.fields));
  }

  /** A plan that constrains every indexed field loses nothing: the answer is scan-and-filter, leftovers or not. */
  lemma ConstrainedAnswers(indexes: seq<IndexDefinition>, docs: map<str, Fields>, held: Holdings, filter: Option<WhereClause>, ids: set<str>, kinds: seq<Kind>)
    requires Access(indexes, filter).Some? && Answers(indexes, docs, held, filter, ids)
    requires var (plan, idx) := Access(indexes, filter).value; Typing(docs, idx, plan, kinds) && HoldsAll(docs, idx, held(idx))
    ensures Constrained(Access(indexes, filter).value.0, Access(indexes, filter).value.1) ==> ids == Matching(docs, filter)
  {
    var (plan, idx) := Access(indexes, filter).value;
    ChoiceMeans(indexes, filter.value);
    if Constrained(plan, idx) {
      CompleteIff(indexes, docs, held, filter, ids, kinds);
      forall id | id in Matching(docs, filter) ensures id !in Unindexed(docs, filter, idx) {
        ConstrainedIsIndexed(docs[id], idx, plan);
      }
    }
  }

  lemma {:induction false} HitRowsOnce(docs: map<str, Fields>, filter: Option<WhereClause>, found: seq<Entry>, entries: set<Entry>)
    requires Lists(found, entries)
    ensures DistinctIds(HitRows(docs, filter, found)) <==> OncePerDocument(HitsIn(docs, filter, entries))
    decreases |found|
  {
    if found != [] {
      var init, last := found[..|found| - 1], found[|found| - 1];
      ListsInit(found, entries);
      HitRowsOnce(docs, filter, init, entries - {last});
      HitRowsMean(docs, filter, init, entries - {last});
      DistinctNext(HitRows(docs, filter, init), RowOf(docs, filter, last.id));
      OnceNext(docs, filter, entries, last);
    }
  }

  lemma DistinctNext(rows: seq<Document>, row: seq<Document>)
    requires |row| <= 1
    ensures DistinctIds(rows + row) <==> DistinctIds(rows) && (row != [] ==> row[0].id !in IdsOf(rows))
  {
    var all := rows + row;
    if DistinctIds(all) {
      forall i, j | 0 <= i < j < |rows| ensures rows[i].id != rows[j].id { assert all[i] == rows[i] && all[j] == rows[j]; }
      if row != [] {
        forall i | 0 <= i < |rows| ensures rows[i].id != row[0].id { assert all[i] == rows[i] && all[|rows|] == row[0]; }
      }
    }
    if DistinctIds(rows) && (row != [] ==> row[0].id !in IdsOf(rows)) {
      forall i, j | 0 <= i < j < |all| ensures all[i].id != all[j].id {
        if j == |rows| { assert rows[i] in rows && rows[i].id in IdsOf(rows); }
      }
    }
  }

  lemma OnceNext(docs: map<str, Fields>, filter: Option<WhereClause>, entries: set<Entry>, e: Entry)
    requires e in entries
    ensures OncePerDocument(HitsIn(docs, filter, entries))
      <==> OncePerDocument(HitsIn(docs, filter, entries - {e})) && (e.id in Matching(docs, filter) ==> e.id !in FoundIds(HitsIn(docs, filter, entries - {e})))
  {
    var hits, fewer := HitsIn(docs, filter, entries), HitsIn(docs, filter, entries - {e});
    if OncePerDocument(hits) {
      forall f | f in fewer && e.id in Matching(docs, filter) ensures f.id != e.id { assert f in hits && e in hits; }
    }
  }

  /** Through an index each row comes once exactly when no matching document has two selected entries. */
  lemma RowsOnceIff(indexes: seq<IndexDefinition>, docs: map<str, Fields>, held: Holdings, filter: Option<WhereClause>, rows: seq<Document>)
    requires Access(indexes, filter).Some? && Selects(indexes, docs, held, filter, rows)
    ensures var (plan, idx) := Access(indexes, filter).value;
      DistinctIds(rows) <==> OncePerDocument(HitsIn(docs, filter, PlanEntries(held(idx), idx, plan)))
  {
    var (plan, idx) := Access(indexes, filter).value;
    var entries := PlanEntries(held(idx), idx, plan);
    var found :| Lists(found, entries) && rows == HitRows(docs, filter, found);
    HitRowsOnce(docs, filter, found, entries);
  }

  /** So without leftovers each row comes once. */
  lemma ExactRowsOnce(indexes: seq<IndexDefinition>, docs: map<str, Fields>, held: Holdings, filter: Option<WhereClause>, rows: seq<Document>)
    requires Selects(indexes, docs, held, filter, rows)
    requires Access(indexes, filter).Some? ==> var (plan, idx) := Access(indexes, filter).value; Stale(docs, idx, held(idx)) == {}
    ensures DistinctIds(rows)
  {
    if Access(indexes, filter).Some? {
      RowsOnceIff(indexes, docs, held, filter, rows);
      var (plan, idx) := Access(indexes, filter).value;
      EntriesSplit(docs, idx, plan, held(idx));
      assert Leftovers(docs, idx, plan, held(idx)) == {};
    } else {
      ScanRowsMean(docs, filter, rows);
    }
  }

  // -------------------------------------------------------------------------
  // COUNT
  // -------------------------------------------------------------------------

  /** Documents COUNT is right to count through the index. */
  ghost function CountedIds(docs: map<str, Fields>, clause: WhereClause, idx: IndexDefinition, plan: IndexPlan): set<str> {
    if plan.covers then SelectedIds(docs, idx, plan) else MatchingIndexed(docs, Some(clause), idx)
  }

  /** Leftovers it counts as well. */
  ghost function CountedLeftovers(docs: map<str, Fields>, clause: WhereClause, idx: IndexDefinition, plan: IndexPlan, held: set<Entry>): set<Entry>
    requires PlanFits(plan, idx)
  {
    if plan.covers then Leftovers(docs, idx, plan, held) else HitsIn(docs, Some(clause), Leftovers(docs, idx, plan, held))
  }

  /** The count is the documents whose entries the plan selects and, on top, one for every leftover it meets. */
  lemma CountSplits(indexes: seq<IndexDefinition>, docs: map<str, Fields>, held: Holdings, clause: WhereClause, count: nat, kinds: seq<Kind>)
    requires Choice(indexes, clause).Some? && Counts(indexes, docs, held, clause, count)
    requires var (plan, idx) := Choice(indexes, clause).value; Typing(docs, idx, plan, kinds) && HoldsAll(docs, idx, held(idx))
    ensures var (plan, idx) := Choice(indexes, clause).value;
      count == |CountedIds(docs, clause, idx, plan)| + |CountedLeftovers(docs, clause, idx, plan, held(idx))|
  {
    var (plan, idx) := Choice(indexes, clause).value;
    ChoiceMeans(indexes, clause);
    EntriesSplit(docs, idx, plan, held(idx));
    if plan.covers {
      DerivedIds(docs, idx, plan, kinds, held(idx));
    } else {
      HitsUnion(docs, Some(clause), Derived(docs, idx, plan, held(idx)), Leftovers(docs, idx, plan, held(idx)));
      DerivedHits(docs, Some(clause), idx, plan, kinds, held(idx));
    }
  }

  /**
   The count is the number of matching documents exactly when it meets as many
   leftovers as there are matching documents without an entry; for a covering
   plan with a boolean bound, when it selects no entry at all: no document
   satisfies an inequality between booleans, but the index orders them.
   */
  lemma CountAgreesIff(indexes: seq<IndexDefinition>, docs: map<str, Fields>, held: Holdings, clause: WhereClause, count: nat, kinds: seq<Kind>)
    requires Choice(indexes, clause).Some? && Counts(indexes, docs, held, clause, count)
    requires var (plan, idx) := Choice(indexes, clause).value; Typing(docs, idx, plan, kinds) && HoldsAll(docs, idx, held(idx))
    ensures var (plan, idx) := Choice(indexes, clause).value;
      var left := CountedLeftovers(docs, clause, idx, plan, held(idx));
      count == |Matching(docs, Some(clause))|
      <==> if plan.covers && !OrderedRange(plan) then SelectedIds(docs, idx, plan) == {} && left == {} else |left| == |Unindexed(docs, Some(clause), idx)|
  {
    var (plan, idx) := Choice(indexes, clause).value;
    ChoiceMeans(indexes, clause);
    CountSplits(indexes, docs, held, clause, count, kinds);
    MatchingSplits(docs, Some(clause), idx);
    if plan.covers { CoveredSelection(docs, clause, idx, plan, kinds); }
  }

  /** Without leftovers that is when every matching document has an entry. */
  lemma CountAgreesIfIndexed(indexes: seq<IndexDefinition>, docs: map<str, Fields>, held: Holdings, clause: WhereClause, count: nat, kinds: seq<Kind>)
    requires Choice(indexes, clause).Some? && Counts(indexes, docs, held, clause, count)
    requires var (plan, idx) := Choice(indexes, clause).value;
      Typing(docs, idx, plan, kinds) && HoldsAll(docs, idx, held(idx)) && Leftovers(docs, idx, plan, held(idx)) == {} && (plan.covers ==> OrderedRange(plan))
    ensures count == |Matching(docs, Some(clause))| <==> Unindexed(docs, Some(clause), Choice(indexes, clause).value.1) == {}
  {
    ChoiceMeans(indexes, clause);
    CountAgreesIff(indexes, docs, held, clause, count, kinds);
  }

  lemma MatchingSplits(docs: map<str, Fields>, filter: Option<WhereClause>, idx: IndexDefinition)
    ensures |Matching(docs, filter)| == |MatchingIndexed(docs, filter, idx)| + |Unindexed(docs, filter, idx)|
  {
    assert Matching(docs, filter) == MatchingIndexed(docs, filter, idx) + Unindexed(docs, filter, idx);
  }

  /** What a covering plan selects: the matching documents with an entry, unless a bound is a boolean, which none satisfies. */
  lemma CoveredSelection(docs: map<str, Fields>, clause: WhereClause, idx: IndexDefinition, plan: IndexPlan, kinds: seq<Kind>)
    requires PlanFits(plan, idx) && Typing(docs, idx, plan, kinds)
    requires forall doc :: MatchesWhere(doc, clause) <==> PlanHolds(doc, idx, plan)
    ensures OrderedRange(plan) ==> SelectedIds(docs, idx, plan) == MatchingIndexed(docs, Some(clause), idx)
    ensures !OrderedRange(plan) ==> Matching(docs, Some(clause)) == {}
  {
    if OrderedRange(plan) {
      forall id | id in docs && FullTuple(docs[id], idx.fields) ensures id in SelectedIds(docs, idx, plan) <==> id in MatchingIndexed(docs, Some(clause), idx) {
        assert Typed(TupleOf(docs[id], idx.fields), kinds);
        PlanSelects(docs[id], idx, plan, kinds);
      }
    } else {
      forall id | id in docs ensures !PlanHolds(docs[id], idx, plan) {}
    }
  }
}
