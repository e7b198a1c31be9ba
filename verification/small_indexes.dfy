/** Facts about an index on one field, as small as the runs that use them. */
module SmallIndexes {
  import opened Bytes
  import opened Wrappers
  import opened Values
  import opened Records
  import opened Keys
  import opened StorageModel
  import opened IndexEncoding
  import opened IndexScan
  import opened IndexState
  import opened IndexTransitions
  import opened CollectionModel
  import opened Planner
  import opened QueryExec

  /** The entry of a document in an index on one field that holds `v`. */
  ghost function EntryWith(v: Value, id: str): Entry
    requires Indexable(v)
  {
    Entry([EncodeIndexValue(v).value], id)
  }

  ghost function KeysFor(t: Table, name: str, entries: set<Entry>): set<Key> {
    set e | e in entries :: EntryKey(IndexPrefix(t, name), e)
  }

  lemma KeysUnion(t: Table, name: str, e: Entry, f: Entry)
    ensures KeysFor(t, name, {e}) + KeysFor(t, name, {f}) == KeysFor(t, name, {e, f})
  {
  }

  lemma EncodeOne(v: Value)
    requires Indexable(v)
    ensures EncodeAll([v]) == Ok([EncodeIndexValue(v).value])
  {
    var first := EncodeIndexValue(v).value;
    assert [v][1..] == [] && EncodeAll([v][1..]) == Ok([]);
    assert [first] + [] == [first];
  }

  lemma OneEntry(t: Table, idx: IndexDefinition, id: str, fields: Fields, v: Value)
    requires idx.kind.BTree? && |idx.fields| == 1 && idx.fields[0] in fields && fields[idx.fields[0]] == v && Indexable(v)
    ensures AllEncodable(t, map[id := fields], map[idx.name := idx])
    ensures DerivedEntries(t, map[id := fields], map[idx.name := idx]) == KeysFor(t, idx.name, {EntryWith(v, id)})
  {
    assert TupleOf(fields, idx.fields) == [v];
    EncodeOne(v);
    var docs, catalog := map[id := fields], map[idx.name := idx];
    var k := EntryKey(IndexPrefix(t, idx.name), EntryWith(v, id));
    assert EntryFor(t, idx, id, fields) == Ok(Some(k));
    InDerived(t, docs, catalog, id, idx.name);
    forall k' | k' in DerivedEntries(t, docs, catalog) ensures k' == k { var _, _ := DerivedFrom(t, docs, catalog, k'); }
    assert EntryWith(v, id) in {EntryWith(v, id)};
  }

  /** The entries of an index whose region holds the given ones. */
  lemma HeldAre(kv: Kv, t: Table, idx: IndexDefinition, entries: set<Entry>)
    requires IndexRegion(kv, t) == KeysFor(t, idx.name, entries) && forall e :: e in entries ==> |e.raws| == |idx.fields| && Utf8(e.id)
    ensures HeldBy(kv, t, idx) == entries
  {
    forall e ensures e in HeldBy(kv, t, idx) <==> e in entries {
      InHeld(kv, t, idx, e);
      if e in HeldBy(kv, t, idx) {
        var f :| f in entries && EntryKey(IndexPrefix(t, idx.name), f) == EntryKey(IndexPrefix(t, idx.name), e);
        EntryKeyOrder(IndexPrefix(t, idx.name), e, f);
      }
    }
  }

  lemma SomeMember(defs: seq<IndexDefinition>)
    requires defs != []
    ensures exists d :: d in defs
  {
    assert defs[0] in defs;
  }

  lemma NoIndexes(defs: seq<IndexDefinition>)
    requires Loaded(map[], defs)
    ensures defs == []
  {
    if defs != [] { SomeMember(defs); }
  }

  /** With one index, registered any number of times, that index is chosen when it has a plan. */
  lemma OnlyIndexChosen(defs: seq<IndexDefinition>, idx: IndexDefinition, clause: WhereClause)
    requires Loaded(map[idx.name := idx], defs) && Candidate(idx, Conjuncts(clause)).Some?
    ensures var (plan, consumed) := Candidate(idx, Conjuncts(clause)).value;
      Choice(defs, clause) == Some((plan.(covers := consumed == |Conjuncts(clause)|), idx))
  {
    assert map[idx.name := idx][idx.name] in defs;
    forall i | 0 <= i < |defs| ensures defs[i] == idx { assert defs[i] in defs; }
    assert BestAmong(defs, Conjuncts(clause), |defs|, 0);
    BestIsUnique(defs, Conjuncts(clause), 0);
  }

  /** The candidate of an index whose first field alone is constrained, by the only conjunct. */
  lemma FirstFieldCandidate(idx: IndexDefinition, clause: WhereClause, plan: IndexPlan)
    requires idx.kind.BTree? && idx.fields != [] && !clause.And? && AtomOf(clause).Some? && AtomOf(clause).value.0 == idx.fields[0]
    requires |idx.fields| > 1 ==> idx.fields[1] != idx.fields[0]
    requires match AtomOf(clause).value.1
      case EqAtom(v) => plan == MakePlan(idx, [v], None, None)
      case LowerAtom(v, incl) => plan == MakePlan(idx, [], Some((v, incl)), None)
      case UpperAtom(_, _) => false
    ensures Candidate(idx, Conjuncts(clause)) == Some((plan, 1))
  {
    var cs, f := Conjuncts(clause), idx.fields[0];
    var e := First(cs, {}, f, EqRole, 0);
    if AtomOf(clause).value.1.EqAtom? {
      assert HasRole(cs[0], f, EqRole) && e == 0;
      assert [] + [AtomOf(cs[0]).value.1.v] == plan.eq;
      NothingLeft(idx, cs, plan);
      assert PlanFrom(idx, cs, 0, [], {}) == PlanFrom(idx, cs, 1, plan.eq, {} + {0});
      assert |{} + {0}| == 1;
    } else {
      assert HasRole(cs[0], f, LowerRole) && e == 1;
      assert First(cs, {}, f, LowerRole, 0) == 0 && First(cs, {}, f, UpperRole, 0) == 1;
      assert |{} + {0}| == 1;
    }
  }

  lemma NothingLeft(idx: IndexDefinition, cs: seq<WhereClause>, plan: IndexPlan)
    requires |idx.fields| > 0 && |cs| == 1 && AtomOf(cs[0]).Some? && AtomOf(cs[0]).value.0 == idx.fields[0]
    requires |plan.eq| == 1 && plan == MakePlan(idx, plan.eq, None, None)
    ensures PlanFrom(idx, cs, 1, plan.eq, {} + {0}) == Some((plan, {} + {0}))
  {
    if |idx.fields| > 1 {
      var f := idx.fields[1];
      assert First(cs, {} + {0}, f, EqRole, 0) == 1 && First(cs, {} + {0}, f, LowerRole, 0) == 1 && First(cs, {} + {0}, f, UpperRole, 0) == 1;
    }
  }

  ghost function EqPlan(idx: IndexDefinition, v: Value): IndexPlan {
    MakePlan(idx, [v], None, None).(covers := true)
  }

  ghost function LowerPlan(idx: IndexDefinition, v: Value, incl: bool): IndexPlan {
    MakePlan(idx, [], Some((v, incl)), None).(covers := true)
  }

  /** The lookup of one value, and of everything from a value on, among entries with one value each. */
  lemma EqSelects(idx: IndexDefinition, v: Value, entries: set<Entry>, e: Entry)
    requires |idx.fields| == 1 && Indexable(v) && e in entries && |e.raws| == 1
    ensures PlanFits(EqPlan(idx, v), idx) && (e in PlanEntries(entries, idx, EqPlan(idx, v)) <==> e.raws == [EncodeIndexValue(v).value])
  {
    EncodeOne(v);
    assert [EncodeIndexValue(v).value] <= e.raws <==> e.raws == [EncodeIndexValue(v).value];
  }

  lemma LowerSelects(idx: IndexDefinition, v: i64, n: i64, id: str, entries: set<Entry>)
    requires |idx.fields| == 1 && EntryWith(Int(n), id) in entries
    ensures PlanFits(LowerPlan(idx, Int(v), true), idx) && (EntryWith(Int(n), id) in PlanEntries(entries, idx, LowerPlan(idx, Int(v), true)) <==> v <= n)
  {
    EncodingPreservesOrder(Int(v), Int(n), IntKind);
  }

  lemma TwoEntries(id: str)
    ensures EntryWith(Int(1), id) != EntryWith(Int(2), id) && |{EntryWith(Int(1), id), EntryWith(Int(2), id)}| == 2
  {
    EncodingPreservesOrder(Int(1), Int(2), IntKind);
    assert EntryWith(Int(1), id).raws[0] != EntryWith(Int(2), id).raws[0];
  }

  /** `field >= 0` on a document that holds 2 and is still listed under 1. */
  lemma TwiceSelected(idx: IndexDefinition, id: str, a: str)
    requires idx.kind.BTree? && idx.fields == [a]
    ensures var clause, plan, entries := Cmp(Field(a), CmpOp.Gte, LInt(0)), LowerPlan(idx, Int(0), true), {EntryWith(Int(1), id), EntryWith(Int(2), id)};
      && PlanFits(plan, idx) && Candidate(idx, Conjuncts(clause)) == Some((plan.(covers := false), 1)) && |Conjuncts(clause)| == 1
      && PlanEntries(entries, idx, plan) == entries && |entries| == 2
      && HitsIn(map[id := map[a := Int(2)]], Some(clause), entries) == entries
  {
    var clause, plan, entries := Cmp(Field(a), CmpOp.Gte, LInt(0)), LowerPlan(idx, Int(0), true), {EntryWith(Int(1), id), EntryWith(Int(2), id)};
    FirstFieldCandidate(idx, clause, plan.(covers := false));
    LowerSelects(idx, 0, 1, id, entries);
    LowerSelects(idx, 0, 2, id, entries);
    TwoEntries(id);
    assert id in Matching(map[id := map[a := Int(2)]], Some(clause));
  }

  lemma TwoRows(rows: seq<Document>, id: str, fields: Fields)
    requires RowsOf(map[id := fields], rows) && |rows| == 2
    ensures rows == [Document(id, fields), Document(id, fields)]
  {
    assert rows[0] in rows && rows[1] in rows;
  }

  /** `field = 1` selects the entry of 1 only. */
  lemma OneSelected(idx: IndexDefinition, id: str, entries: set<Entry>)
    requires idx.kind.BTree? && |idx.fields| == 1 && EntryWith(Int(1), id) in entries && entries <= {EntryWith(Int(1), id), EntryWith(Int(2), id)}
    ensures var clause, plan := Cmp(Field(idx.fields[0]), CmpOp.Eq, LInt(1)), EqPlan(idx, Int(1));
      && PlanFits(plan, idx) && Candidate(idx, Conjuncts(clause)) == Some((plan.(covers := false), 1)) && |Conjuncts(clause)| == 1
      && PlanEntries(entries, idx, plan) == {EntryWith(Int(1), id)}
  {
    var clause, plan := Cmp(Field(idx.fields[0]), CmpOp.Eq, LInt(1)), EqPlan(idx, Int(1));
    FirstFieldCandidate(idx, clause, plan.(covers := false));
    TwoEntries(id);
    forall e | e in entries ensures e in PlanEntries(entries, idx, plan) <==> e == EntryWith(Int(1), id) { EqSelects(idx, Int(1), entries, e); }
  }

  /** `field > false` selects the entry of true, as the index orders booleans. */
  lemma TrueSelected(idx: IndexDefinition, id: str, a: str)
    requires idx.kind.BTree? && idx.fields == [a]
    ensures var clause, plan, e := Cmp(Field(a), CmpOp.Gt, LBool(false)), LowerPlan(idx, Bool(false), false), EntryWith(Bool(true), id);
      && PlanFits(plan, idx) && Candidate(idx, Conjuncts(clause)) == Some((plan.(covers := false), 1)) && |Conjuncts(clause)| == 1
      && PlanEntries({e}, idx, plan) == {e}
  {
    FirstFieldCandidate(idx, Cmp(Field(a), CmpOp.Gt, LBool(false)), LowerPlan(idx, Bool(false), false).(covers := false));
    assert Selected([[0x01]], [], Some(([0x00], false)), None);
  }

  /** The keys of two entries are two. */
  lemma TwoKeys(t: Table, name: str, id: str)
    ensures var e, f := EntryWith(Int(1), id), EntryWith(Int(2), id);
      && KeysFor(t, name, {e, f}) - KeysFor(t, name, {f}) == KeysFor(t, name, {e})
      && KeysFor(t, name, {e}) + KeysFor(t, name, {f}) == KeysFor(t, name, {e, f})
  {
    TwoEntries(id);
    EntryKeyOrder(IndexPrefix(t, name), EntryWith(Int(1), id), EntryWith(Int(2), id));
  }

  /** Writing the document again without removing its entry leaves both entries. */
  lemma BothListed(kv: Kv, kv': Kv, t: Table, idx: IndexDefinition, id: str, a: str)
    requires idx.kind.BTree? && idx.fields == [a] && Catalog(kv, t) == map[idx.name := idx] && Docs(kv, t) == map[id := map[a := Int(1)]]
    requires IndexRegion(kv, t) == KeysFor(t, idx.name, {EntryWith(Int(1), id)})
    requires Docs(kv', t) == Docs(kv, t)[id := map[a := Int(2)]]
    requires IndexRegion(kv', t) == IndexRegion(kv, t) + DerivedEntries(t, map[id := map[a := Int(2)]], Catalog(kv, t))
    ensures Docs(kv', t) == map[id := map[a := Int(2)]]
    ensures IndexRegion(kv', t) == KeysFor(t, idx.name, {EntryWith(Int(1), id), EntryWith(Int(2), id)})
  {
    OneEntry(t, idx, id, map[a := Int(2)], Int(2));
    KeysUnion(t, idx.name, EntryWith(Int(1), id), EntryWith(Int(2), id));
  }

  /** A value no document holds is claimed by the entry left over for it. */
  lemma FreeButClaimed(idx: IndexDefinition, id: str, other: str, a: str, held: set<Entry>)
    requires idx.kind.BTree? && idx.fields == [a] && id != other && EntryWith(Int(1), id) in held
    ensures TupleClaimed(held, idx, other, map[a := Int(1)]) && !Taken(map[id := map[a := Int(2)]], idx, other, map[a := Int(1)])
  {
    assert TupleOf(map[a := Int(1)], idx.fields) == [Int(1)];
    EncodeOne(Int(1));
    NotShared(idx, a);
  }

  lemma NotShared(idx: IndexDefinition, a: str)
    requires idx.fields == [a]
    ensures !SharesTuple(idx, map[a := Int(1)], map[a := Int(2)]) && !SharesTuple(idx, map[a := Int(2)], map[a := Int(1)])
  {
    var one: Fields, two: Fields := map[a := Int(1)], map[a := Int(2)];
    assert TupleOf(one, idx.fields) == [Int(1)] && TupleOf(two, idx.fields) == [Int(2)];
    EncodeOne(Int(1));
    EncodeOne(Int(2));
    TwoEntries(a);
    assert EncodeAll([Int(1)]).value[0] != EncodeAll([Int(2)]).value[0];
  }

  /** No document holds 1 in the second field. */
  lemma NoneHolds(id: str, a: str, b: str)
    requires a != b
    ensures Matching(map[id := map[a := Int(1), b := Int(2)]], Some(Cmp(Field(b), CmpOp.Eq, LInt(1)))) == {}
  {
  }
}
