/** WHERE evaluation and index planning (crates/query/src/executor.rs). */
module Planner {
  import opened Bytes
  import opened Wrappers
  import opened Values
  import opened Records
  import opened IndexEncoding
  import opened IndexScan

  datatype Literal =
    | LString(s: str)
    | LInt(n: i64)
    | LFloat(bits: u64)
    | LBool(b: bool)
    | LNone
    | LArray(items: seq<Literal>)
  {
    function ToValue(): Value {
      match this
      case LString(s) => String(s)
      case LInt(n) => Int(n)
      case LFloat(bits) => Float(bits)
      case LBool(b) => Bool(b)
      case LNone => NoneValue
      case LArray(items) => Array(seq(|items|, i requires 0 <= i < |items| => items[i].ToValue()))
    }
  }

  datatype CmpOp = Eq | Ne | Gt | Lt | Gte | Lte

  /** A function call over a document is any partial function of its fields. */
  datatype SelectItem = Field(name: str) | Constant(lit: Literal) | Call(eval: Fields -> Option<Value>)

  datatype WhereClause =
    | Cmp(field: SelectItem, op: CmpOp, value: Literal)
    | And(left: WhereClause, right: WhereClause)
    | IsNull(name: str, negated: bool)

  // -------------------------------------------------------------------------
  // Evaluation
  // -------------------------------------------------------------------------

  function EvalSelectItem(doc: Fields, item: SelectItem): Option<Value> {
    match item
    case Field(name) => if name in doc then Some(doc[name]) else None
    case Constant(lit) => Some(lit.ToValue())
    case Call(eval) => eval(doc)
  }

  predicate OpHolds(op: CmpOp, v: Value, w: Value) {
    match op
    case Eq => ValueEq(v, w)
    case Ne => !ValueEq(v, w)
    case Gt => CmpValues(v, w) == Some(Greater)
    case Lt => CmpValues(v, w) == Some(Less)
    case Gte => CmpValues(v, w) == Some(Greater) || CmpValues(v, w) == Some(Equal)
    case Lte => CmpValues(v, w) == Some(Less) || CmpValues(v, w) == Some(Equal)
  }

  predicate MatchesWhere(doc: Fields, clause: WhereClause) {
    match clause
    case Cmp(field, op, value) =>
      EvalSelectItem(doc, field).Some? && OpHolds(op, EvalSelectItem(doc, field).value, value.ToValue())
    case And(left, right) => MatchesWhere(doc, left) && MatchesWhere(doc, right)
    case IsNull(name, negated) => negated == (name in doc && !doc[name].NoneValue?)
  }

  // -------------------------------------------------------------------------
  // Conjuncts and atoms
  // -------------------------------------------------------------------------

  /** The leaves of the `AND` tree, left to right. */
  function Conjuncts(clause: WhereClause): (cs: seq<WhereClause>)
    ensures cs != []
  {
    if clause.And? then Conjuncts(clause.left) + Conjuncts(clause.right) else [clause]
  }

  predicate MatchesAll(doc: Fields, cs: seq<WhereClause>) {
    forall i :: 0 <= i < |cs| ==> MatchesWhere(doc, cs[i])
  }

  lemma MatchesAllConcat(doc: Fields, l: seq<WhereClause>, r: seq<WhereClause>)
    ensures MatchesAll(doc, l + r) <==> MatchesAll(doc, l) && MatchesAll(doc, r)
  {
    if MatchesAll(doc, l + r) {
      forall i | 0 <= i < |l| ensures MatchesWhere(doc, l[i]) { assert (l + r)[i] == l[i]; }
      forall i | 0 <= i < |r| ensures MatchesWhere(doc, r[i]) { assert (l + r)[|l| + i] == r[i]; }
    }
  }

  lemma {:induction false} ConjunctsMeanClause(doc: Fields, clause: WhereClause)
    ensures MatchesWhere(doc, clause) <==> MatchesAll(doc, Conjuncts(clause))
  {
    if clause.And? {
      ConjunctsMeanClause(doc, clause.left);
      ConjunctsMeanClause(doc, clause.right);
      MatchesAllConcat(doc, Conjuncts(clause.left), Conjuncts(clause.right));
    } else {
      assert Conjuncts(clause)[0] == clause;
    }
  }

  datatype AtomKind = EqAtom(v: Value) | LowerAtom(v: Value, inclusive: bool) | UpperAtom(v: Value, inclusive: bool)

  function AtomOf(clause: WhereClause): Option<(str, AtomKind)> {
    if !clause.Cmp? || !clause.field.Field? then None
    else
      var v := clause.value.ToValue();
      if v.Array? || v.NoneValue? then None
      else
        match clause.op
        case Eq => Some((clause.field.name, EqAtom(v)))
        case Gt => Some((clause.field.name, LowerAtom(v, false)))
        case Gte => Some((clause.field.name, LowerAtom(v, true)))
        case Lt => Some((clause.field.name, UpperAtom(v, false)))
        case Lte => Some((clause.field.name, UpperAtom(v, true)))
        case Ne => None
  }

  /** What an atom on `field` demands of a document. */
  predicate AtomHolds(doc: Fields, field: str, atom: AtomKind) {
    && field in doc
    && match atom
       case EqAtom(v) => ValueEq(doc[field], v)
       case LowerAtom(v, incl) => OpHolds(if incl then Gte else Gt, doc[field], v)
       case UpperAtom(v, incl) => OpHolds(if incl then Lte else CmpOp.Lt, doc[field], v)
  }

  lemma AtomMeansConjunct(doc: Fields, clause: WhereClause)
    requires AtomOf(clause).Some?
    ensures MatchesWhere(doc, clause) <==> AtomHolds(doc, AtomOf(clause).value.0, AtomOf(clause).value.1)
    ensures Indexable(AtomOf(clause).value.1.v)
  {
  }

  // -------------------------------------------------------------------------
  // Plans
  // -------------------------------------------------------------------------

  datatype IndexPlan = IndexPlan(
    indexName: str,
    eq: seq<Value>,
    lower: Option<RangeBound>,
    upper: Option<RangeBound>,
    fieldCount: nat,
    covers: bool)

  function MakePlan(idx: IndexDefinition, eq: seq<Value>, lower: Option<RangeBound>, upper: Option<RangeBound>): IndexPlan {
    IndexPlan(idx.name, eq, lower, upper, |idx.fields|, false)
  }

  datatype Role = EqRole | LowerRole | UpperRole

  predicate HasRole(clause: WhereClause, field: str, role: Role) {
    && AtomOf(clause).Some? && AtomOf(clause).value.0 == field
    && match role
       case EqRole => AtomOf(clause).value.1.EqAtom?
       case LowerRole => AtomOf(clause).value.1.LowerAtom?
       case UpperRole => AtomOf(clause).value.1.UpperAtom?
  }

  /** First unused conjunct from `i` on that plays `role` for `field`; `|cs|` when there is none. */
  function First(cs: seq<WhereClause>, used: set<nat>, field: str, role: Role, i: nat): (j: nat)
    requires i <= |cs|
    ensures i <= j <= |cs|
    ensures j < |cs| ==> j !in used && HasRole(cs[j], field, role)
    ensures forall k :: i <= k < j ==> k in used || !HasRole(cs[k], field, role)
    decreases |cs| - i
  {
    if i == |cs| || (i !in used && HasRole(cs[i], field, role)) then i
    else First(cs, used, field, role, i + 1)
  }

  function BoundOf(clause: WhereClause): RangeBound
    requires AtomOf(clause).Some? && !AtomOf(clause).value.1.EqAtom?
  {
    (AtomOf(clause).value.1.v, AtomOf(clause).value.1.inclusive)
  }

  /**
   Leftmost-prefix matching from field `k` on: equalities as long as there are
   any, then at most one lower and one upper bound on the next field.
   */
  function PlanFrom(idx: IndexDefinition, cs: seq<WhereClause>, k: nat, eq: seq<Value>, used: set<nat>): (r: Option<(IndexPlan, set<nat>)>)
    requires k <= |idx.fields|
    ensures r.Some? ==> !r.value.0.covers
    decreases |idx.fields| - k
  {
    if k == |idx.fields| then
      if eq == [] then None else Some((MakePlan(idx, eq, None, None), used))
    else
      var e := First(cs, used, idx.fields[k], EqRole, 0);
      if e < |cs| then PlanFrom(idx, cs, k + 1, eq + [AtomOf(cs[e]).value.1.v], used + {e})
      else
        var l := First(cs, used, idx.fields[k], LowerRole, 0);
        var u := First(cs, used, idx.fields[k], UpperRole, 0);
        if l < |cs| && u < |cs| then Some((MakePlan(idx, eq, Some(BoundOf(cs[l])), Some(BoundOf(cs[u]))), used + {l, u}))
        else if l < |cs| then Some((MakePlan(idx, eq, Some(BoundOf(cs[l])), None), used + {l}))
        else if u < |cs| then Some((MakePlan(idx, eq, None, Some(BoundOf(cs[u]))), used + {u}))
        else if eq == [] then None
        else Some((MakePlan(idx, eq, None, None), used))
  }

  function PlanOf(idx: IndexDefinition, cs: seq<WhereClause>): Option<(IndexPlan, set<nat>)> {
    PlanFrom(idx, cs, 0, [], {})
  }

  predicate HasBound(plan: IndexPlan) {
    plan.lower.Some? || plan.upper.Some?
  }

  /** The plan can be run on `idx`. */
  predicate PlanFits(plan: IndexPlan, idx: IndexDefinition) {
    && plan.indexName == idx.name && plan.fieldCount == |idx.fields|
    && |plan.eq| <= |idx.fields| && (HasBound(plan) ==> |plan.eq| < |idx.fields|)
    && (plan.eq != [] || HasBound(plan))
    && EncodeAll(plan.eq).Ok? && BoundOk(plan.lower) && BoundOk(plan.upper)
  }

  /** The predicate an index access answers, read on a document. */
  predicate PlanHolds(doc: Fields, idx: IndexDefinition, plan: IndexPlan)
    requires PlanFits(plan, idx)
  {
    && (forall i :: 0 <= i < |plan.eq| ==> AtomHolds(doc, idx.fields[i], EqAtom(plan.eq[i])))
    && (plan.lower.Some? ==> AtomHolds(doc, idx.fields[|plan.eq|], LowerAtom(plan.lower.value.0, plan.lower.value.1)))
    && (plan.upper.Some? ==> AtomHolds(doc, idx.fields[|plan.eq|], UpperAtom(plan.upper.value.0, plan.upper.value.1)))
  }

  predicate MatchesUsed(doc: Fields, cs: seq<WhereClause>, used: set<nat>)
    requires forall i :: i in used ==> i < |cs|
  {
    forall i :: i in used ==> MatchesWhere(doc, cs[i])
  }

  /** The equality prefix collected so far says the same as the conjuncts used so far. */
  ghost predicate PrefixMeans(idx: IndexDefinition, cs: seq<WhereClause>, eq: seq<Value>, used: set<nat>) {
    && |eq| <= |idx.fields|
    && EncodeAll(eq).Ok?
    && (forall i :: i in used ==> i < |cs|)
    && forall doc :: MatchesUsed(doc, cs, used) <==> forall i :: 0 <= i < |eq| ==> AtomHolds(doc, idx.fields[i], EqAtom(eq[i]))
  }

  /** An index access answers exactly the conjuncts it consumed, on every document. */
  lemma {:induction false} PlanMeansConsumed(idx: IndexDefinition, cs: seq<WhereClause>, k: nat, eq: seq<Value>, used: set<nat>)
    requires k == |eq| && PrefixMeans(idx, cs, eq, used)
    requires PlanFrom(idx, cs, k, eq, used).Some?
    ensures PlanFits(PlanFrom(idx, cs, k, eq, used).value.0, idx)
    ensures forall i :: i in PlanFrom(idx, cs, k, eq, used).value.1 ==> i < |cs|
    ensures forall doc :: MatchesUsed(doc, cs, PlanFrom(idx, cs, k, eq, used).value.1) <==> PlanHolds(doc, idx, PlanFrom(idx, cs, k, eq, used).value.0)
    decreases |idx.fields| - k
  {
    if k < |idx.fields| {
      var field := idx.fields[k];
      var e := First(cs, used, field, EqRole, 0);
      if e < |cs| {
        PrefixGrows(idx, cs, eq, used, e);
        PlanMeansConsumed(idx, cs, k + 1, eq + [AtomOf(cs[e]).value.1.v], used + {e});
      } else {
        RangeMeansConsumed(idx, cs, eq, used);
      }
    }
  }

  lemma RangeMeansConsumed(idx: IndexDefinition, cs: seq<WhereClause>, eq: seq<Value>, used: set<nat>)
    requires PrefixMeans(idx, cs, eq, used) && |eq| < |idx.fields|
    requires First(cs, used, idx.fields[|eq|], EqRole, 0) == |cs|
    requires PlanFrom(idx, cs, |eq|, eq, used).Some?
    ensures PlanFits(PlanFrom(idx, cs, |eq|, eq, used).value.0, idx)
    ensures forall i :: i in PlanFrom(idx, cs, |eq|, eq, used).value.1 ==> i < |cs|
    ensures forall doc :: MatchesUsed(doc, cs, PlanFrom(idx, cs, |eq|, eq, used).value.1) <==> PlanHolds(doc, idx, PlanFrom(idx, cs, |eq|, eq, used).value.0)
  {
    var field := idx.fields[|eq|];
    var l := First(cs, used, field, LowerRole, 0);
    var u := First(cs, used, field, UpperRole, 0);
    var (plan, used') := PlanFrom(idx, cs, |eq|, eq, used).value;
    assert used' == used + (if l < |cs| then {l} else {}) + (if u < |cs| then {u} else {});
    if l < |cs| { AtomMeansConjunct(map[], cs[l]); }
    if u < |cs| { AtomMeansConjunct(map[], cs[u]); }
    assert PlanFits(plan, idx) && plan.eq == eq;
    forall doc ensures MatchesUsed(doc, cs, used') <==> PlanHolds(doc, idx, plan) {
      UsedSplits(doc, cs, used, used', l, u);
      if l < |cs| {
        AtomMeansConjunct(doc, cs[l]);
        assert MatchesWhere(doc, cs[l]) <==> AtomHolds(doc, field, LowerAtom(plan.lower.value.0, plan.lower.value.1));
      }
      if u < |cs| {
        AtomMeansConjunct(doc, cs[u]);
        assert MatchesWhere(doc, cs[u]) <==> AtomHolds(doc, field, UpperAtom(plan.upper.value.0, plan.upper.value.1));
      }
    }
  }

  lemma UsedSplits(doc: Fields, cs: seq<WhereClause>, used: set<nat>, used': set<nat>, l: nat, u: nat)
    requires forall i :: i in used ==> i < |cs|
    requires used' == used + (if l < |cs| then {l} else {}) + (if u < |cs| then {u} else {})
    ensures MatchesUsed(doc, cs, used') <==>
            MatchesUsed(doc, cs, used) && (l < |cs| ==> MatchesWhere(doc, cs[l])) && (u < |cs| ==> MatchesWhere(doc, cs[u]))
  {
  }

  lemma PrefixGrows(idx: IndexDefinition, cs: seq<WhereClause>, eq: seq<Value>, used: set<nat>, e: nat)
    requires PrefixMeans(idx, cs, eq, used) && |eq| < |idx.fields| && e < |cs| && HasRole(cs[e], idx.fields[|eq|], EqRole)
    ensures PrefixMeans(idx, cs, eq + [AtomOf(cs[e]).value.1.v], used + {e})
  {
    var v := AtomOf(cs[e]).value.1.v;
    AtomMeansConjunct(map[], cs[e]);
    EncodeAllAppend(eq, v);
    var eq' := eq + [v];
    forall doc ensures MatchesUsed(doc, cs, used + {e}) <==> forall i :: 0 <= i < |eq'| ==> AtomHolds(doc, idx.fields[i], EqAtom(eq'[i])) {
      AtomMeansConjunct(doc, cs[e]);
      assert MatchesUsed(doc, cs, used + {e}) <==> MatchesUsed(doc, cs, used) && MatchesWhere(doc, cs[e]);
      OneMoreAtom(doc, idx, eq, v);
    }
  }

  lemma OneMoreAtom(doc: Fields, idx: IndexDefinition, eq: seq<Value>, v: Value)
    requires |eq| < |idx.fields|
    ensures (forall i :: 0 <= i < |eq + [v]| ==> AtomHolds(doc, idx.fields[i], EqAtom((eq + [v])[i])))
        <==> (forall i :: 0 <= i < |eq| ==> AtomHolds(doc, idx.fields[i], EqAtom(eq[i]))) && AtomHolds(doc, idx.fields[|eq|], EqAtom(v))
  {
    var more := eq + [v];
    assert forall i :: 0 <= i < |eq| ==> more[i] == eq[i];
    assert more[|eq|] == v;
  }

  lemma PlanOfMeansConsumed(idx: IndexDefinition, cs: seq<WhereClause>)
    requires PlanOf(idx, cs).Some?
    ensures PlanFits(PlanOf(idx, cs).value.0, idx)
    ensures forall i :: i in PlanOf(idx, cs).value.1 ==> i < |cs|
    ensures forall doc :: MatchesUsed(doc, cs, PlanOf(idx, cs).value.1) <==> PlanHolds(doc, idx, PlanOf(idx, cs).value.0)
  {
    PlanMeansConsumed(idx, cs, 0, [], {});
  }

  /** A plan exists exactly when some conjunct is an atom on the index's first field. */
  lemma PlanExists(idx: IndexDefinition, cs: seq<WhereClause>)
    requires idx.fields != []
    ensures PlanOf(idx, cs).Some? <==> exists i, role :: 0 <= i < |cs| && HasRole(cs[i], idx.fields[0], role)
  {
    var f := idx.fields[0];
    var e, l, u := First(cs, {}, f, EqRole, 0), First(cs, {}, f, LowerRole, 0), First(cs, {}, f, UpperRole, 0);
    if e < |cs| {
      PlanNonEmpty(idx, cs, 1, [AtomOf(cs[e]).value.1.v], {e});
      assert [] + [AtomOf(cs[e]).value.1.v] == [AtomOf(cs[e]).value.1.v] && {} + {e} == {e};
    }
    if i, role :| 0 <= i < |cs| && HasRole(cs[i], f, role) {
      assert role == EqRole || role == LowerRole || role == UpperRole;
    }
  }

  lemma {:induction false} PlanNonEmpty(idx: IndexDefinition, cs: seq<WhereClause>, k: nat, eq: seq<Value>, used: set<nat>)
    requires k <= |idx.fields| && eq != []
    ensures PlanFrom(idx, cs, k, eq, used).Some?
    decreases |idx.fields| - k
  {
    if k < |idx.fields| {
      var e := First(cs, used, idx.fields[k], EqRole, 0);
      if e < |cs| { PlanNonEmpty(idx, cs, k + 1, eq + [AtomOf(cs[e]).value.1.v], used + {e}); }
    }
  }

  // -------------------------------------------------------------------------
  // The planner's loops
  // -------------------------------------------------------------------------

  /** Index of the first unused equality atom on `field`. */
  method FindEq(cs: seq<WhereClause>, used: array<bool>, field: str, ghost usedSet: set<nat>) returns (ci: nat)
    requires used.Length == |cs| && forall i :: 0 <= i < |cs| ==> (used[i] <==> i in usedSet)
    ensures ci == First(cs, usedSet, field, EqRole, 0)
  {
    ci := 0;
    while ci < |cs|
      invariant ci <= |cs|
      invariant First(cs, usedSet, field, EqRole, 0) == First(cs, usedSet, field, EqRole, ci)
    {
      if !used[ci] && HasRole(cs[ci], field, EqRole) {
        return;
      }
      ci := ci + 1;
    }
  }

  /** Up to one lower and one upper bound on `field`, in one pass over the conjuncts. */
  method FindBounds(cs: seq<WhereClause>, used: array<bool>, field: str, ghost usedSet: set<nat>)
    returns (lower: Option<RangeBound>, upper: Option<RangeBound>, found: nat)
    requires used.Length == |cs| && forall i :: 0 <= i < |cs| ==> (used[i] <==> i in usedSet)
    modifies used
    ensures var l, u := First(cs, usedSet, field, LowerRole, 0), First(cs, usedSet, field, UpperRole, 0);
      && lower == (if l < |cs| then Some(BoundOf(cs[l])) else None)
      && upper == (if u < |cs| then Some(BoundOf(cs[u])) else None)
      && found == (if l < |cs| then 1 else 0) + (if u < |cs| then 1 else 0)
  {
    lower, upper, found := None, None, 0;
    ghost var l, u := First(cs, usedSet, field, LowerRole, 0), First(cs, usedSet, field, UpperRole, 0);
    for ci := 0 to |cs|
      invariant forall i :: ci <= i < |cs| ==> (used[i] <==> i in usedSet)
      invariant if lower.Some? then l < ci && lower == Some(BoundOf(cs[l])) else l == First(cs, usedSet, field, LowerRole, ci)
      invariant if upper.Some? then u < ci && upper == Some(BoundOf(cs[u])) else u == First(cs, usedSet, field, UpperRole, ci)
      invariant found == (if lower.Some? then 1 else 0) + (if upper.Some? then 1 else 0)
    {
      if !used[ci] {
        if HasRole(cs[ci], field, LowerRole) && lower.None? {
          lower := Some(BoundOf(cs[ci]));
          used[ci] := true;
          found := found + 1;
        } else if HasRole(cs[ci], field, UpperRole) && upper.None? {
          upper := Some(BoundOf(cs[ci]));
          used[ci] := true;
          found := found + 1;
        }
      }
    }
  }

  /** The last step of the matching, when field `k` has no equality left. */
  lemma RangeStep(idx: IndexDefinition, cs: seq<WhereClause>, k: nat, eq: seq<Value>, used: set<nat>)
    requires k < |idx.fields| && First(cs, used, idx.fields[k], EqRole, 0) == |cs|
    ensures var l, u := First(cs, used, idx.fields[k], LowerRole, 0), First(cs, used, idx.fields[k], UpperRole, 0);
      var lower := if l < |cs| then Some(BoundOf(cs[l])) else None;
      var upper := if u < |cs| then Some(BoundOf(cs[u])) else None;
      var found := (if l < |cs| then 1 else 0) + (if u < |cs| then 1 else 0);
      match PlanFrom(idx, cs, k, eq, used)
      case None => lower.None? && upper.None? && eq == []
      case Some((plan, used')) => plan == MakePlan(idx, eq, lower, upper) && |used'| == |used| + found && (lower.Some? || upper.Some? || eq != [])
  {
    var l, u := First(cs, used, idx.fields[k], LowerRole, 0), First(cs, used, idx.fields[k], UpperRole, 0);
    if l < |cs| && u < |cs| {
      assert used + {l, u} == used + {l} + {u} && u !in used + {l};
    }
  }

  /** The first step of the matching, when field `k` has an equality left. */
  lemma EqStep(idx: IndexDefinition, cs: seq<WhereClause>, k: nat, eq: seq<Value>, used: set<nat>, e: nat)
    requires k < |idx.fields| && e == First(cs, used, idx.fields[k], EqRole, 0) < |cs|
    ensures PlanFrom(idx, cs, k, eq, used) == PlanFrom(idx, cs, k + 1, eq + [AtomOf(cs[e]).value.1.v], used + {e})
    ensures |used + {e}| == |used| + 1
  {
  }

  /** `r` is the plan with the number of conjuncts it consumes. */
  ghost predicate PlansAs(whole: Option<(IndexPlan, set<nat>)>, r: Option<(IndexPlan, nat)>) {
    r == match whole case Some((plan, used)) => Some((plan, |used|)) case None => None
  }

  /** Plan for one index with the number of conjuncts it consumes. */
  method PlanForIndex(idx: IndexDefinition, cs: seq<WhereClause>) returns (r: Option<(IndexPlan, nat)>)
    ensures PlansAs(PlanOf(idx, cs), r)
  {
    var used := new bool[|cs|](_ => false);
    var eq: seq<Value> := [];
    var consumed := 0;
    ghost var usedSet: set<nat> := {};
    for k := 0 to |idx.fields|
      invariant k == |eq| && consumed == |usedSet|
      invariant forall i :: 0 <= i < |cs| ==> (used[i] <==> i in usedSet)
      invariant PlanOf(idx, cs) == PlanFrom(idx, cs, k, eq, usedSet)
    {
      var field := idx.fields[k];
      var ci := FindEq(cs, used, field, usedSet);
      if ci < |cs| {
        EqStep(idx, cs, k, eq, usedSet, ci);
        used[ci] := true;
        eq := eq + [AtomOf(cs[ci]).value.1.v];
        consumed := consumed + 1;
        usedSet := usedSet + {ci};
      } else {
        var lower, upper, found := FindBounds(cs, used, field, usedSet);
        RangeStep(idx, cs, k, eq, usedSet);
        if lower.Some? || upper.Some? {
          return Some((MakePlan(idx, eq, lower, upper), consumed + found));
        }
        if eq == [] {
          return None;
        }
        return Some((MakePlan(idx, eq, None, None), consumed));
      }
    }
    if eq == [] {
      return None;
    }
    return Some((MakePlan(idx, eq, None, None), consumed));
  }

  /** More conjuncts first, longer equality prefix second. */
  predicate Better(p: (IndexPlan, nat), q: (IndexPlan, nat)) {
    p.1 > q.1 || (p.1 == q.1 && |p.0.eq| > |q.0.eq|)
  }

  function Candidate(idx: IndexDefinition, cs: seq<WhereClause>): Option<(IndexPlan, nat)> {
    if !idx.kind.BTree? then None
    else match PlanOf(idx, cs) case Some((plan, used)) => Some((plan, |used|)) case None => None
  }

  /** `b` is the index with the best plan among the first `n`, the earliest one on ties. */
  predicate BestAmong(indexes: seq<IndexDefinition>, cs: seq<WhereClause>, n: nat, b: nat)
    requires n <= |indexes|
  {
    && b < n && Candidate(indexes[b], cs).Some?
    && (forall i :: 0 <= i < n && Candidate(indexes[i], cs).Some? ==> !Better(Candidate(indexes[i], cs).value, Candidate(indexes[b], cs).value))
    && (forall i :: 0 <= i < b && Candidate(indexes[i], cs).Some? ==> Better(Candidate(indexes[b], cs).value, Candidate(indexes[i], cs).value))
  }

  /** The plan for a clause with its index: the best candidate, the earliest on ties, covering when it consumes every conjunct. */
  ghost function Choice(indexes: seq<IndexDefinition>, clause: WhereClause): Option<(IndexPlan, IndexDefinition)> {
    var cs := Conjuncts(clause);
    if exists b: nat :: BestAmong(indexes, cs, |indexes|, b) then
      var b: nat :| BestAmong(indexes, cs, |indexes|, b);
      var (plan, consumed) := Candidate(indexes[b], cs).value;
      Some((plan.(covers := consumed == |cs|), indexes[b]))
    else None
  }

  /** What a choice can be relied on for: it can be run, and misses no document the clause accepts; covering, it adds none. */
  lemma ChoiceMeans(indexes: seq<IndexDefinition>, clause: WhereClause)
    requires Choice(indexes, clause).Some?
    ensures var (plan, idx) := Choice(indexes, clause).value;
      && idx in indexes && idx.kind.BTree? && PlanFits(plan, idx)
      && (forall doc :: MatchesWhere(doc, clause) ==> PlanHolds(doc, idx, plan))
      && (plan.covers ==> forall doc :: PlanHolds(doc, idx, plan) ==> MatchesWhere(doc, clause))
  {
    var b: nat :| BestAmong(indexes, Conjuncts(clause), |indexes|, b) && Choice(indexes, clause).value.1 == indexes[b]
                  && Choice(indexes, clause).value.0 == Candidate(indexes[b], Conjuncts(clause)).value.0.(covers := Candidate(indexes[b], Conjuncts(clause)).value.1 == |Conjuncts(clause)|);
    ChosenPlanMeans(indexes[b], clause);
  }

  /** The best plan over all B-tree indexes; it covers the clause when it consumes every conjunct. */
  method PlanIndexLookup(indexes: seq<IndexDefinition>, clause: WhereClause) returns (r: Option<IndexPlan>, ghost b: nat)
    ensures r.None? <==> forall i :: 0 <= i < |indexes| ==> Candidate(indexes[i], Conjuncts(clause)).None?
    ensures r.Some? ==> BestAmong(indexes, Conjuncts(clause), |indexes|, b)
    ensures r.Some? ==> PlanFits(r.value, indexes[b])
    ensures r.Some? ==> forall doc :: MatchesWhere(doc, clause) ==> PlanHolds(doc, indexes[b], r.value)
    ensures r.Some? && r.value.covers ==> forall doc :: PlanHolds(doc, indexes[b], r.value) ==> MatchesWhere(doc, clause)
    ensures r.Some? ==> (r.value.covers <==> Candidate(indexes[b], Conjuncts(clause)).value.1 == |Conjuncts(clause)|)
    ensures r.Some? ==> r.value.(covers := false) == Candidate(indexes[b], Conjuncts(clause)).value.0
    ensures Choice(indexes, clause) == if r.None? then None else Some((r.value, indexes[b]))
  {
    var cs := Conjuncts(clause);
    var best;
    best, b := BestCandidate(indexes, cs);
    if best.None? {
      return None, b;
    }
    ChosenPlanMeans(indexes[b], clause);
    BestIsUnique(indexes, cs, b);
    r := Some(best.value.0.(covers := best.value.1 == |cs|));
  }

  /**
   The index chosen is the one whose plan consumes most conjuncts, then the one
   with the longer equality prefix, then the earlier one; so a plan that covers
   the clause is chosen whenever some index has one.
   */
  lemma ChoicePrefers(indexes: seq<IndexDefinition>, clause: WhereClause, b: nat, i: nat)
    requires BestAmong(indexes, Conjuncts(clause), |indexes|, b)
    requires i < |indexes| && Candidate(indexes[i], Conjuncts(clause)).Some?
    ensures Choice(indexes, clause).Some?
    ensures var (plan, n), (other, k), chosen := Candidate(indexes[b], Conjuncts(clause)).value, Candidate(indexes[i], Conjuncts(clause)).value, Choice(indexes, clause).value;
      && chosen.0.(covers := false) == plan && chosen.1 == indexes[b]
      && k <= n && (k == n ==> |other.eq| <= |plan.eq|) && (k == n && |other.eq| == |plan.eq| ==> b <= i)
      && (k == |Conjuncts(clause)| ==> chosen.0.covers)
  {
    var cs := Conjuncts(clause);
    BestIsUnique(indexes, cs, b);
    PlanOfMeansConsumed(indexes[b], cs);
    AllUsed(PlanOf(indexes[b], cs).value.1, |cs|);
  }

  lemma BestIsUnique(indexes: seq<IndexDefinition>, cs: seq<WhereClause>, b: nat)
    requires BestAmong(indexes, cs, |indexes|, b)
    ensures forall b': nat :: BestAmong(indexes, cs, |indexes|, b') ==> b' == b
  {
  }

  /** The index whose candidate plan is best, the earlier one on ties. */
  method BestCandidate(indexes: seq<IndexDefinition>, cs: seq<WhereClause>) returns (best: Option<(IndexPlan, nat)>, ghost b: nat)
    ensures best.None? <==> forall j :: 0 <= j < |indexes| ==> Candidate(indexes[j], cs).None?
    ensures best.Some? ==> BestAmong(indexes, cs, |indexes|, b) && best == Candidate(indexes[b], cs)
  {
    best := None;
    b := 0;
    for i := 0 to |indexes|
      invariant best.None? ==> forall j :: 0 <= j < i ==> Candidate(indexes[j], cs).None?
      invariant best.Some? ==> BestAmong(indexes, cs, i, b) && best == Candidate(indexes[b], cs)
    {
      if indexes[i].kind.BTree? {
        var candidate := PlanForIndex(indexes[i], cs);
        if candidate.Some? && (best.None? || Better(candidate.value, best.value)) {
          best := candidate;
          b := i;
        }
      }
    }
  }

  lemma ChosenPlanMeans(idx: IndexDefinition, clause: WhereClause)
    requires Candidate(idx, Conjuncts(clause)).Some?
    ensures PlanFits(Candidate(idx, Conjuncts(clause)).value.0, idx)
    ensures forall doc :: MatchesWhere(doc, clause) ==> PlanHolds(doc, idx, Candidate(idx, Conjuncts(clause)).value.0)
    ensures Candidate(idx, Conjuncts(clause)).value.1 == |Conjuncts(clause)|
      ==> forall doc :: PlanHolds(doc, idx, Candidate(idx, Conjuncts(clause)).value.0) ==> MatchesWhere(doc, clause)
  {
    var cs := Conjuncts(clause);
    var (plan, used) := PlanOf(idx, cs).value;
    PlanOfMeansConsumed(idx, cs);
    forall doc ensures MatchesWhere(doc, clause) ==> PlanHolds(doc, idx, plan) {
      ConjunctsMeanClause(doc, clause);
      assert MatchesAll(doc, cs) ==> MatchesUsed(doc, cs, used);
    }
    if |used| == |cs| {
      AllUsed(used, |cs|);
      forall doc ensures PlanHolds(doc, idx, plan) ==> MatchesWhere(doc, clause) {
        ConjunctsMeanClause(doc, clause);
        assert MatchesUsed(doc, cs, used) ==> MatchesAll(doc, cs);
      }
    }
  }

  /** `n` distinct indices below `n` are all of them. */
  lemma {:induction false} AllUsed(used: set<nat>, n: nat)
    requires forall i :: i in used ==> i < n
    ensures |used| <= n
    ensures |used| == n ==> forall i :: 0 <= i < n ==> i in used
  {
    if n > 0 {
      AllUsed(used - {n - 1}, n - 1);
    }
  }
}
