/** What structural similarity comes to below one (crates/code-intel/src/similarity.rs). */
module SimilarityLaws {
  import opened Wrappers
  import opened Similarity

  // -------------------------------------------------------------------------
  // What a matching adds up to, given the picks
  // -------------------------------------------------------------------------

  /** Each pick is some tree of the larger list. */
  predicate InRange(larger: seq<Tree>, picks: seq<Best>) {
    forall k :: 0 <= k < |picks| && picks[k].index.Some? ==> picks[k].index.value < |larger|
  }

  /** Trees are picked once, at a score above zero; no tree is picked at score zero. */
  predicate Fits(larger: seq<Tree>, picks: seq<Best>) {
    && InRange(larger, picks)
    && (forall k :: 0 <= k < |picks| ==> if picks[k].index.Some? then picks[k].sim > 0.0 else picks[k].sim == 0.0)
    && (forall k, l :: 0 <= k < l < |picks| && picks[k].index.Some? ==> picks[k].index != picks[l].index)
  }

  /** The matching after the first `i` picks. */
  function Takes(smaller: seq<Tree>, larger: seq<Tree>, picks: seq<Best>, i: nat): (m: Matching)
    requires InRange(larger, picks) && i <= |picks| <= |smaller|
    ensures |m.used| == |larger|
  {
    if i == 0 then Matching(seq(|larger|, _ => false), [], [])
    else Take(Takes(smaller, larger, picks, i - 1), larger, Size(smaller[i - 1]), picks[i - 1])
  }

  predicate PickedBy(picks: seq<Best>, i: nat, j: nat)
    requires i <= |picks|
  {
    exists k :: 0 <= k < i && picks[k].index == Some(j)
  }

  lemma {:induction false} TakesUsed(smaller: seq<Tree>, larger: seq<Tree>, picks: seq<Best>, i: nat)
    requires InRange(larger, picks) && i <= |picks| <= |smaller|
    ensures forall j :: 0 <= j < |larger| ==> (Takes(smaller, larger, picks, i).used[j] <==> PickedBy(picks, i, j))
  {
    if i > 0 {
      TakesUsed(smaller, larger, picks, i - 1);
      forall j | 0 <= j < |larger| ensures PickedBy(picks, i, j) <==> PickedBy(picks, i - 1, j) || picks[i - 1].index == Some(j) {
        if picks[i - 1].index == Some(j) { assert PickedBy(picks, i, j); }
      }
    }
  }

  lemma {:induction false} UnmatchedSame(larger: seq<Tree>, used: seq<bool>, used': seq<bool>, j: nat)
    requires j <= |larger| == |used| == |used'| && forall k :: 0 <= k < j ==> used[k] == used'[k]
    ensures Unmatched(larger, used', j) == Unmatched(larger, used, j)
  {
    if j > 0 { UnmatchedSame(larger, used, used', j - 1); }
  }

  lemma {:induction false} UnmatchedTaken(larger: seq<Tree>, used: seq<bool>, k: nat, j: nat)
    requires k < j <= |larger| == |used| && !used[k]
    ensures Unmatched(larger, used[k := true], j) == Unmatched(larger, used, j) - Size(larger[k]) as real
  {
    if k < j - 1 {
      UnmatchedTaken(larger, used, k, j - 1);
    } else {
      UnmatchedSame(larger, used, used[k := true], j - 1);
    }
  }

  lemma {:induction false} UnmatchedAll(larger: seq<Tree>, used: seq<bool>, j: nat)
    requires j <= |larger| == |used| && forall k :: 0 <= k < j ==> !used[k]
    ensures Unmatched(larger, used, j) == TotalSize(larger[..j]) as real
  {
    if j > 0 {
      UnmatchedAll(larger, used, j - 1);
      assert larger[..j][..j - 1] == larger[..j - 1];
    }
  }

  lemma TotalSizeStep(ts: seq<Tree>, i: nat)
    requires i < |ts|
    ensures TotalSize(ts[..i + 1]) == TotalSize(ts[..i]) + Size(ts[i])
  {
    assert ts[..i + 1][..i] == ts[..i];
  }

  lemma TakeAdds(m: Matching, larger: seq<Tree>, size: nat, best: Best)
    requires |m.used| == |larger| && (best.index.Some? ==> best.index.value < |larger|)
    ensures var r := Take(m, larger, size, best);
      && Weights(r.terms) == Weights(m.terms) + Weight(size, larger, best.index)
      && Weighted(r.terms) == Weighted(m.terms) + best.sim * Weight(size, larger, best.index)
  {
    TakeTerms(m, larger, size, best, best.sim * Weight(size, larger, best.index), Weight(size, larger, best.index));
  }

  /** Matched and unmatched weights make up half of both lists, and once more half of what stays unmatched in the larger one. */
  predicate Balanced(smaller: seq<Tree>, larger: seq<Tree>, m: Matching, i: nat)
    requires |m.used| == |larger| && i <= |smaller|
  {
    var left := Unmatched(larger, m.used, |larger|);
    2.0 * (Weights(m.terms) + left) == TotalSize(smaller[..i]) as real + TotalSize(larger) as real + left
  }

  lemma {:induction false} WeightTotals(smaller: seq<Tree>, larger: seq<Tree>, picks: seq<Best>, i: nat)
    requires Fits(larger, picks) && i <= |picks| <= |smaller|
    ensures Balanced(smaller, larger, Takes(smaller, larger, picks, i), i)
  {
    if i == 0 {
      UnmatchedAll(larger, Takes(smaller, larger, picks, 0).used, |larger|);
      assert larger[..|larger|] == larger;
    } else {
      WeightTotals(smaller, larger, picks, i - 1);
      TakesUsed(smaller, larger, picks, i - 1);
      TakeBalanced(smaller, larger, Takes(smaller, larger, picks, i - 1), i - 1, picks[i - 1]);
    }
  }

  lemma TakeBalanced(smaller: seq<Tree>, larger: seq<Tree>, m: Matching, i: nat, best: Best)
    requires |m.used| == |larger| && i < |smaller| && Balanced(smaller, larger, m, i)
    requires best.index.Some? ==> best.index.value < |larger| && !m.used[best.index.value]
    ensures Balanced(smaller, larger, Take(m, larger, Size(smaller[i]), best), i + 1)
  {
    TotalSizeStep(smaller, i);
    TakeAdds(m, larger, Size(smaller[i]), best);
    if best.index.Some? { UnmatchedTaken(larger, m.used, best.index.value, |larger|); }
  }

  /** A pick earns its score, weighted by the mean of the two sizes. */
  function Credit(larger: seq<Tree>, size: nat, best: Best): real
    requires best.index.Some? ==> best.index.value < |larger|
  {
    if best.index.None? then 0.0 else best.sim * ((size + Size(larger[best.index.value])) as real / 2.0)
  }

  function Shared(smaller: seq<Tree>, larger: seq<Tree>, picks: seq<Best>, i: nat): real
    requires InRange(larger, picks) && i <= |picks| <= |smaller|
  {
    if i == 0 then 0.0 else Shared(smaller, larger, picks, i - 1) + Credit(larger, Size(smaller[i - 1]), picks[i - 1])
  }

  lemma TakeCredits(m: Matching, larger: seq<Tree>, size: nat, best: Best)
    requires |m.used| == |larger| && (if best.index.Some? then best.index.value < |larger| else best.sim == 0.0)
    ensures Weighted(Take(m, larger, size, best).terms) == Weighted(m.terms) + Credit(larger, size, best)
  {
    TakeAdds(m, larger, size, best);
  }

  lemma {:induction false} TakesCredits(smaller: seq<Tree>, larger: seq<Tree>, picks: seq<Best>, i: nat)
    requires Fits(larger, picks) && i <= |picks| <= |smaller|
    ensures Weighted(Takes(smaller, larger, picks, i).terms) == Shared(smaller, larger, picks, i)
  {
    if i > 0 {
      TakesCredits(smaller, larger, picks, i - 1);
      TakeCredits(Takes(smaller, larger, picks, i - 1), larger, Size(smaller[i - 1]), picks[i - 1]);
    }
  }

  /** The sizes of the first `j` larger trees that nobody picks. */
  function Alone(larger: seq<Tree>, picks: seq<Best>, j: nat): nat
    requires j <= |larger|
  {
    if j == 0 then 0 else Alone(larger, picks, j - 1) + (if PickedBy(picks, |picks|, j - 1) then 0 else Size(larger[j - 1]))
  }

  lemma {:induction false} AloneIsUnmatched(larger: seq<Tree>, picks: seq<Best>, used: seq<bool>, j: nat)
    requires j <= |larger| == |used| && forall k :: 0 <= k < |larger| ==> (used[k] <==> PickedBy(picks, |picks|, k))
    ensures Unmatched(larger, used, j) == Alone(larger, picks, j) as real
  {
    if j > 0 { AloneIsUnmatched(larger, picks, used, j - 1); }
  }

  function TwiceOver(x: real, n: nat): real
    requires n > 0
  {
    2.0 * x / n as real
  }

  lemma RatioFrom(m: Matching, larger: seq<Tree>, x: real, z: nat)
    requires |m.used| == |larger| && Weighted(m.terms) == x && 2.0 * (Weights(m.terms) + Unmatched(larger, m.used, |larger|)) == z as real && z > 0
    ensures Ratio(m, larger) == TwiceOver(x, z)
  {
    Halved(x, Weights(m.terms) + Unmatched(larger, m.used, |larger|), z as real);
  }

  lemma Halved(x: real, y: real, z: real)
    requires 2.0 * y == z && z > 0.0
    ensures Quotient(x, y) == 2.0 * x / z
  {
    var q := x / y;
    assert q * y == x;
    assert q * z == 2.0 * x;
  }

  /** Twice what the weights of a matching add up to. */
  function Whole(smaller: seq<Tree>, larger: seq<Tree>, picks: seq<Best>): nat {
    TotalSize(smaller) + TotalSize(larger) + Alone(larger, picks, |larger|)
  }

  /** The score of a matching in closed form. */
  lemma TakesRatio(smaller: seq<Tree>, larger: seq<Tree>, picks: seq<Best>)
    requires smaller != [] && |picks| == |smaller| && Fits(larger, picks)
    ensures Whole(smaller, larger, picks) > 0
    ensures Ratio(Takes(smaller, larger, picks, |picks|), larger) == TwiceOver(Shared(smaller, larger, picks, |picks|), Whole(smaller, larger, picks))
  {
    var n := |picks|;
    var m := Takes(smaller, larger, picks, n);
    assert smaller[..n] == smaller;
    TakesCredits(smaller, larger, picks, n);
    TakesUsed(smaller, larger, picks, n);
    AloneIsUnmatched(larger, picks, m.used, |larger|);
    WeightTotals(smaller, larger, picks, n);
    ChildSize(smaller, 0);
    RatioFrom(m, larger, Shared(smaller, larger, picks, n), Whole(smaller, larger, picks));
  }

  lemma CreditPositive(larger: seq<Tree>, size: nat, best: Best)
    requires size > 0 && if best.index.Some? then best.index.value < |larger| && best.sim > 0.0 else best.sim == 0.0
    ensures if best.index.Some? then Credit(larger, size, best) > 0.0 else Credit(larger, size, best) == 0.0
  {
  }

  /** There is credit exactly when something is picked. */
  lemma {:induction false} SharedPositive(smaller: seq<Tree>, larger: seq<Tree>, picks: seq<Best>, i: nat)
    requires Fits(larger, picks) && i <= |picks| <= |smaller|
    ensures Shared(smaller, larger, picks, i) >= 0.0
    ensures Shared(smaller, larger, picks, i) == 0.0 <==> forall k :: 0 <= k < i ==> picks[k].index.None?
  {
    if i > 0 {
      SharedPositive(smaller, larger, picks, i - 1);
      CreditPositive(larger, Size(smaller[i - 1]), picks[i - 1]);
    }
  }

  lemma TwiceOverZero(x: real, n: nat)
    requires n > 0
    ensures TwiceOver(x, n) == 0.0 <==> x == 0.0
  {
    assert TwiceOver(x, n) * n as real == 2.0 * x;
  }

  // -------------------------------------------------------------------------
  // Trees that nothing connects
  // -------------------------------------------------------------------------

  /** No credit at all: the types differ, and so do those of all pairs of children, all the way down. */
  predicate Disjoint(a: Tree, b: Tree)
    decreases a
  {
    && a.kind != b.kind
    && (a.Node? && b.Node? ==> forall i, j :: 0 <= i < |a.children| && 0 <= j < |b.children| ==> Disjoint(a.children[i], b.children[j]))
  }

  predicate AllDisjoint(as_: seq<Tree>, bs: seq<Tree>) {
    forall i, j :: 0 <= i < |as_| && 0 <= j < |bs| ==> Disjoint(as_[i], bs[j])
  }

  lemma {:induction false} DisjointSymmetric(a: Tree, b: Tree)
    ensures Disjoint(a, b) <==> Disjoint(b, a)
    decreases a
  {
    if a.Node? && b.Node? {
      forall i, j | 0 <= i < |a.children| && 0 <= j < |b.children| ensures Disjoint(a.children[i], b.children[j]) <==> Disjoint(b.children[j], a.children[i]) {
        DisjointSymmetric(a.children[i], b.children[j]);
      }
    }
  }

  ghost predicate ZeroRight(a: Tree, b: Tree) {
    Score(a, b) == 0.0 <==> Disjoint(a, b)
  }

  ghost predicate ZerosRight(as_: seq<Tree>, bs: seq<Tree>) {
    forall i, j :: 0 <= i < |as_| && 0 <= j < |bs| ==> ZeroRight(as_[i], bs[j])
  }

  lemma RightEverywhere(as_: seq<Tree>, bs: seq<Tree>)
    ensures RightScores(as_, bs)
  {
    forall i, j | 0 <= i < |as_| && 0 <= j < |bs| ensures RightScore(as_[i], bs[j]) { ScoreRight(as_[i], bs[j]); }
  }

  lemma ScoreInRange(a: Tree, b: Tree)
    ensures 0.0 <= Score(a, b) <= 1.0
  {
    ScoreRight(a, b);
  }

  // -------------------------------------------------------------------------
  // Each child picks the earliest best unused tree
  // -------------------------------------------------------------------------

  /** `k` is free, scores above zero, no free tree scores higher and no earlier one as high. */
  ghost predicate EarliestBest(s: Tree, larger: seq<Tree>, used: seq<bool>, n: nat, k: nat)
    requires n <= |larger| == |used|
  {
    && k < n && !used[k] && Score(s, larger[k]) > 0.0
    && (forall l :: 0 <= l < n && !used[l] ==> Score(s, larger[l]) <= Score(s, larger[k]))
    && (forall l :: 0 <= l < k && !used[l] ==> Score(s, larger[l]) < Score(s, larger[k]))
  }

  /** The pick is that tree with its score, and there is none exactly when no free tree scores above zero. */
  lemma {:induction false} PickIsEarliestBest(s: Tree, larger: seq<Tree>, used: seq<bool>, n: nat)
    requires n <= |larger| == |used|
    ensures var best := BestAmong(s, larger, used, n);
      && (best.index.None? <==> forall l :: 0 <= l < n && !used[l] ==> Score(s, larger[l]) == 0.0)
      && (best.index.Some? ==> EarliestBest(s, larger, used, n, best.index.value) && best.sim == Score(s, larger[best.index.value]))
  {
    if n > 0 {
      PickIsEarliestBest(s, larger, used, n - 1);
      ScoreInRange(s, larger[n - 1]);
    }
  }

  /** What the greedy matching picks for each child. */
  function PicksOf(smaller: seq<Tree>, larger: seq<Tree>): (picks: seq<Best>)
    ensures |picks| == |smaller| && InRange(larger, picks)
  {
    seq(|smaller|, k requires 0 <= k < |smaller| => BestAmong(smaller[k], larger, Greedy(smaller, larger, k).used, |larger|))
  }

  lemma {:induction false} GreedyIsTakes(smaller: seq<Tree>, larger: seq<Tree>, i: nat)
    requires i <= |smaller|
    ensures Greedy(smaller, larger, i) == Takes(smaller, larger, PicksOf(smaller, larger), i)
  {
    if i > 0 { GreedyIsTakes(smaller, larger, i - 1); }
  }

  /** A child's pick is made among the trees no earlier child picked. */
  ghost predicate FoundAmong(smaller: seq<Tree>, larger: seq<Tree>, found: seq<Best>, k: nat, used: seq<bool>)
    requires k < |found| <= |smaller|
  {
    && |used| == |larger| && (forall j :: 0 <= j < |larger| ==> (used[j] <==> PickedBy(found, k, j)))
    && found[k] == BestAmong(smaller[k], larger, used, |larger|)
  }

  ghost predicate FoundAt(smaller: seq<Tree>, larger: seq<Tree>, found: seq<Best>, k: nat)
    requires k < |found| <= |smaller|
  {
    exists used :: FoundAmong(smaller, larger, found, k, used)
  }

  lemma PickAt(smaller: seq<Tree>, larger: seq<Tree>, k: nat) returns (used: seq<bool>)
    requires k < |smaller|
    ensures FoundAmong(smaller, larger, PicksOf(smaller, larger), k, used)
  {
    GreedyIsTakes(smaller, larger, k);
    TakesUsed(smaller, larger, PicksOf(smaller, larger), k);
    used := Greedy(smaller, larger, k).used;
  }

  lemma PicksFit(smaller: seq<Tree>, larger: seq<Tree>)
    ensures Fits(larger, PicksOf(smaller, larger))
  {
    var picks := PicksOf(smaller, larger);
    forall k, l | 0 <= k < l < |picks| && picks[k].index.Some? ensures picks[k].index != picks[l].index {
      var used := PickAt(smaller, larger, l);
      assert PickedBy(picks, l, picks[k].index.value);
    }
  }

  /** The children's score in closed form. */
  lemma GreedyRatio(smaller: seq<Tree>, larger: seq<Tree>)
    requires smaller != []
    ensures var picks := PicksOf(smaller, larger);
      && Fits(larger, picks) && Whole(smaller, larger, picks) > 0
      && Ratio(Greedy(smaller, larger, |smaller|), larger) == TwiceOver(Shared(smaller, larger, picks, |picks|), Whole(smaller, larger, picks))
  {
    PicksFit(smaller, larger);
    GreedyIsTakes(smaller, larger, |smaller|);
    TakesRatio(smaller, larger, PicksOf(smaller, larger));
  }

  // -------------------------------------------------------------------------
  // When scores above zero leave no choice
  // -------------------------------------------------------------------------

  /** Each child scores with its partner alone, and no two children share a partner. */
  ghost predicate Partners(smaller: seq<Tree>, larger: seq<Tree>, picks: seq<Best>) {
    && |picks| == |smaller| && Fits(larger, picks)
    && forall i, j :: 0 <= i < |smaller| && 0 <= j < |larger| ==> PartnerAt(smaller, larger, picks, i, j)
  }

  ghost predicate PartnerAt(smaller: seq<Tree>, larger: seq<Tree>, picks: seq<Best>, i: nat, j: nat)
    requires i < |smaller| == |picks| && j < |larger|
  {
    Score(smaller[i], larger[j]) == if picks[i].index == Some(j) then picks[i].sim else 0.0
  }

  /** The first `i` children pick their partners. */
  ghost predicate SamePicks(found: seq<Best>, picks: seq<Best>, i: nat)
    requires i <= |found| == |picks|
  {
    forall k :: 0 <= k < i ==> found[k] == picks[k]
  }

  lemma PartnerPicked(smaller: seq<Tree>, larger: seq<Tree>, picks: seq<Best>, found: seq<Best>, k: nat)
    requires Partners(smaller, larger, picks) && k < |smaller| == |found| && FoundAt(smaller, larger, found, k) && SamePicks(found, picks, k)
    ensures found[k] == picks[k]
  {
    var used :| FoundAmong(smaller, larger, found, k, used);
    if picks[k].index.Some? { assert !PickedBy(found, k, picks[k].index.value); }
    PickIsEarliestBest(smaller[k], larger, used, |larger|);
    forall j | 0 <= j < |larger| ensures Score(smaller[k], larger[j]) == if picks[k].index == Some(j) then picks[k].sim else 0.0 {
      assert PartnerAt(smaller, larger, picks, k, j);
    }
  }

  lemma {:induction false} PartnersPicked(smaller: seq<Tree>, larger: seq<Tree>, picks: seq<Best>, found: seq<Best>, i: nat)
    requires Partners(smaller, larger, picks) && i <= |smaller| == |found| && forall k :: 0 <= k < |smaller| ==> FoundAt(smaller, larger, found, k)
    ensures SamePicks(found, picks, i)
  {
    if i > 0 {
      PartnersPicked(smaller, larger, picks, found, i - 1);
      PartnerPicked(smaller, larger, picks, found, i - 1);
    }
  }

  /** The lists as the matching takes them, the shorter one first. */
  predicate Ordered(as_: seq<Tree>, bs: seq<Tree>, smaller: seq<Tree>, larger: seq<Tree>) {
    (smaller, larger) == if |as_| <= |bs| then (as_, bs) else (bs, as_)
  }

  /** When scores above zero leave each child of the shorter list at most one partner, the children score this. */
  lemma PartnersScore(as_: seq<Tree>, bs: seq<Tree>, smaller: seq<Tree>, larger: seq<Tree>, picks: seq<Best>)
    requires Ordered(as_, bs, smaller, larger) && smaller != [] && Partners(smaller, larger, picks)
    ensures Whole(smaller, larger, picks) > 0
    ensures ChildrenScore(as_, bs) == TwiceOver(Shared(smaller, larger, picks, |picks|), Whole(smaller, larger, picks))
  {
    forall k | 0 <= k < |smaller| ensures FoundAt(smaller, larger, PicksOf(smaller, larger), k) { var used := PickAt(smaller, larger, k); }
    PartnersPicked(smaller, larger, picks, PicksOf(smaller, larger), |smaller|);
    assert PicksOf(smaller, larger) == picks;
    GreedyRatio(smaller, larger);
  }

  // -------------------------------------------------------------------------
  // When the children's score is zero
  // -------------------------------------------------------------------------

  ghost predicate AllZero(as_: seq<Tree>, bs: seq<Tree>) {
    forall i, j :: 0 <= i < |as_| && 0 <= j < |bs| ==> Score(as_[i], bs[j]) == 0.0
  }

  lemma NothingPickedIff(smaller: seq<Tree>, larger: seq<Tree>)
    ensures (forall k :: 0 <= k < |smaller| ==> PicksOf(smaller, larger)[k].index.None?) <==> AllZero(smaller, larger)
  {
    var picks := PicksOf(smaller, larger);
    forall k | 0 <= k < |smaller|
      ensures AllZero(smaller, larger) ==> picks[k].index.None?
      ensures (forall l :: 0 <= l < k ==> picks[l].index.None?) && picks[k].index.None? ==> forall j :: 0 <= j < |larger| ==> Score(smaller[k], larger[j]) == 0.0
    {
      var used := PickAt(smaller, larger, k);
      PickIsEarliestBest(smaller[k], larger, used, |larger|);
    }
  }

  lemma RatioZeroIff(smaller: seq<Tree>, larger: seq<Tree>)
    requires smaller != []
    ensures Ratio(Greedy(smaller, larger, |smaller|), larger) == 0.0 <==> AllZero(smaller, larger)
  {
    var picks := PicksOf(smaller, larger);
    GreedyRatio(smaller, larger);
    SharedPositive(smaller, larger, picks, |picks|);
    TwiceOverZero(Shared(smaller, larger, picks, |picks|), Whole(smaller, larger, picks));
    NothingPickedIff(smaller, larger);
  }

  /** The order of the lists does not matter to whether anything matches. */
  lemma ChildrenZeroIff(as_: seq<Tree>, bs: seq<Tree>)
    requires as_ != [] || bs != []
    requires ZerosRight(as_, bs) && ZerosRight(bs, as_)
    ensures ChildrenScore(as_, bs) == 0.0 <==> AllDisjoint(as_, bs)
  {
    forall i, j | 0 <= i < |as_| && 0 <= j < |bs|
      ensures (Score(as_[i], bs[j]) == 0.0 <==> Disjoint(as_[i], bs[j])) && (Score(bs[j], as_[i]) == 0.0 <==> Disjoint(as_[i], bs[j]))
    {
      assert ZeroRight(as_[i], bs[j]) && ZeroRight(bs[j], as_[i]);
      DisjointSymmetric(as_[i], bs[j]);
    }
    if as_ == [] || bs == [] {
    } else if |as_| <= |bs| {
      RatioZeroIff(as_, bs);
    } else {
      RatioZeroIff(bs, as_);
    }
  }

  // -------------------------------------------------------------------------
  // Laws of the score
  // -------------------------------------------------------------------------

  /** Two composites, not both empty. */
  predicate Composites(a: Tree, b: Tree) {
    a.Node? && b.Node? && (a.children != [] || b.children != [])
  }

  /** The share of the roots in two trees of `n` nodes together. */
  function RootShare(n: nat): real
    requires n > 0
  {
    2.0 / n as real
  }

  /** Equal roots count for one node of the mean size; different ones do not count and halve what the children score. */
  function Blend(sameType: bool, r: real, c: real): real {
    if sameType then r + (1.0 - r) * c else (1.0 - r) * c / 2.0
  }

  lemma CombineIs(sameType: bool, n: nat, total: real, c: real)
    requires n > 2 && total == n as real / 2.0
    ensures 0.0 < RootShare(n) < 1.0
    ensures Combine(sameType, total, c) == Blend(sameType, RootShare(n), c)
  {
    var r := RootShare(n);
    assert r * n as real == 2.0;
    assert r * total == 1.0;
    InverseIs(total, r);
  }

  lemma InverseIs(x: real, r: real)
    requires x > 0.0 && r * x == 1.0
    ensures 1.0 / x == r
  {
    var q := 1.0 / x;
    assert q * x == 1.0;
    assert (q - r) * x == 0.0;
  }

  lemma CompositeScore(a: Tree, b: Tree)
    requires Composites(a, b)
    ensures Size(a) + Size(b) > 2 && 0.0 < RootShare(Size(a) + Size(b)) < 1.0
    ensures Score(a, b) == Blend(a.kind == b.kind, RootShare(Size(a) + Size(b)), ChildrenScore(a.children, b.children))
  {
    NotBothSingle(a, b);
    CombineIs(a.kind == b.kind, Size(a) + Size(b), HalfTotal(Size(a), Size(b)), ChildrenScore(a.children, b.children));
  }

  lemma ShareZero(r: real, c: real)
    requires 0.0 < r < 1.0 && 0.0 <= c <= 1.0
    ensures r <= Blend(true, r, c) && (Blend(true, r, c) == r <==> c == 0.0)
    ensures 0.0 <= Blend(false, r, c) < 0.5 && (Blend(false, r, c) == 0.0 <==> c == 0.0)
  {
    Product(c, 1.0 - r);
    Commutes(c, 1.0 - r);
    if c > 0.0 { assert (1.0 - r) * c > 0.0; }
  }

  lemma ChildrenInRange(as_: seq<Tree>, bs: seq<Tree>)
    requires as_ != [] || bs != []
    ensures 0.0 <= ChildrenScore(as_, bs) <= 1.0
  {
    RightEverywhere(as_, bs);
    RightEverywhere(bs, as_);
    ChildrenRight(as_, bs);
  }

  /** A score of zero means that nothing matches at any depth. */
  lemma {:induction false} ScoreZeroIff(a: Tree, b: Tree)
    ensures ZeroRight(a, b)
    decreases Size(a) + Size(b)
  {
    if Composites(a, b) {
      var as_, bs := a.children, b.children;
      forall i, j | 0 <= i < |as_| && 0 <= j < |bs| ensures ZeroRight(as_[i], bs[j]) && ZeroRight(bs[j], as_[i]) {
        ChildSize(as_, i);
        ChildSize(bs, j);
        ScoreZeroIff(as_[i], bs[j]);
        ScoreZeroIff(bs[j], as_[i]);
      }
      ChildrenZeroIff(as_, bs);
      CompositeScore(a, b);
      ChildrenInRange(as_, bs);
      ShareZero(RootShare(Size(a) + Size(b)), ChildrenScore(as_, bs));
      assert Disjoint(a, b) <==> a.kind != b.kind && AllDisjoint(as_, bs);
    }
  }

  /** Composites of one type share their roots, and no more exactly when none of their children match at any depth. */
  lemma SameTypeFloor(a: Tree, b: Tree)
    requires Composites(a, b) && a.kind == b.kind
    ensures Score(a, b) >= RootShare(Size(a) + Size(b))
    ensures Score(a, b) == RootShare(Size(a) + Size(b)) <==> AllDisjoint(a.children, b.children)
  {
    var as_, bs := a.children, b.children;
    forall i, j | 0 <= i < |as_| && 0 <= j < |bs| ensures ZeroRight(as_[i], bs[j]) && ZeroRight(bs[j], as_[i]) {
      ScoreZeroIff(as_[i], bs[j]);
      ScoreZeroIff(bs[j], as_[i]);
    }
    ChildrenZeroIff(as_, bs);
    CompositeScore(a, b);
    ChildrenInRange(as_, bs);
    ShareZero(RootShare(Size(a) + Size(b)), ChildrenScore(as_, bs));
  }

  /** Roots of different types cost more than half; a leaf against a composite scores by its type alone. */
  lemma RootsCap(a: Tree, b: Tree)
    ensures a.kind != b.kind ==> Score(a, b) < 0.5
    ensures a.Leaf? != b.Leaf? ==> Score(a, b) == if a.kind == b.kind then 0.3 else 0.0
  {
    if Composites(a, b) {
      CompositeScore(a, b);
      ChildrenInRange(a.children, b.children);
      ShareZero(RootShare(Size(a) + Size(b)), ChildrenScore(a.children, b.children));
    }
  }

  // -------------------------------------------------------------------------
  // Flat trees
  // -------------------------------------------------------------------------

  predicate Leaves(ts: seq<Tree>) {
    forall i :: 0 <= i < |ts| ==> ts[i].Leaf?
  }

  function KindsOf(ts: seq<Tree>): (ks: multiset<nat>)
    ensures |ks| == |ts|
  {
    if ts == [] then multiset{} else KindsOf(ts[..|ts| - 1]) + multiset{ts[|ts| - 1].kind}
  }

  /** The types of the unused trees among the first `j`. */
  function FreeKinds(larger: seq<Tree>, used: seq<bool>, j: nat): multiset<nat>
    requires j <= |larger| == |used|
  {
    if j == 0 then multiset{} else FreeKinds(larger, used, j - 1) + (if used[j - 1] then multiset{} else multiset{larger[j - 1].kind})
  }

  lemma {:induction false} FreeSame(larger: seq<Tree>, used: seq<bool>, used': seq<bool>, j: nat)
    requires j <= |larger| == |used| == |used'| && forall k :: 0 <= k < j ==> used[k] == used'[k]
    ensures FreeKinds(larger, used', j) == FreeKinds(larger, used, j)
  {
    if j > 0 { FreeSame(larger, used, used', j - 1); }
  }

  lemma {:induction false} FreeTaken(larger: seq<Tree>, used: seq<bool>, k: nat, j: nat)
    requires k < j <= |larger| == |used| && !used[k]
    ensures FreeKinds(larger, used, j) == FreeKinds(larger, used[k := true], j) + multiset{larger[k].kind}
  {
    if k < j - 1 {
      FreeTaken(larger, used, k, j - 1);
    } else {
      FreeSame(larger, used, used[k := true], j - 1);
    }
  }

  lemma {:induction false} FreeAll(larger: seq<Tree>, used: seq<bool>, j: nat)
    requires j <= |larger| == |used| && forall k :: 0 <= k < j ==> !used[k]
    ensures FreeKinds(larger, used, j) == KindsOf(larger[..j])
  {
    if j > 0 {
      FreeAll(larger, used, j - 1);
      assert larger[..j][..j - 1] == larger[..j - 1];
    }
  }

  lemma {:induction false} FreeFound(larger: seq<Tree>, used: seq<bool>, j: nat, kind: nat) returns (k: nat)
    requires j <= |larger| == |used| && kind in FreeKinds(larger, used, j)
    ensures k < j && !used[k] && larger[k].kind == kind
  {
    if !used[j - 1] && larger[j - 1].kind == kind { k := j - 1; } else { k := FreeFound(larger, used, j - 1, kind); }
  }

  lemma {:induction false} FreeSizes(larger: seq<Tree>, used: seq<bool>, j: nat)
    requires Leaves(larger) && j <= |larger| == |used|
    ensures Unmatched(larger, used, j) == |FreeKinds(larger, used, j)| as real
  {
    if j > 0 { FreeSizes(larger, used, j - 1); }
  }

  lemma {:induction false} LeafSizes(ts: seq<Tree>)
    requires Leaves(ts)
    ensures TotalSize(ts) == |ts|
  {
    if ts != [] { LeafSizes(ts[..|ts| - 1]); }
  }

  /** A leaf picks a free leaf of its type, if there is one, at full score. */
  lemma FlatPick(s: Tree, larger: seq<Tree>, used: seq<bool>)
    requires s.Leaf? && Leaves(larger) && |used| == |larger|
    ensures var best := BestAmong(s, larger, used, |larger|);
      && (best.index.Some? <==> s.kind in FreeKinds(larger, used, |larger|))
      && (best.index.Some? ==> larger[best.index.value].kind == s.kind && best.sim == 1.0)
  {
    PickIsEarliestBest(s, larger, used, |larger|);
    var best := BestAmong(s, larger, used, |larger|);
    if best.index.Some? { FreeTaken(larger, used, best.index.value, |larger|); }
    if s.kind in FreeKinds(larger, used, |larger|) {
      var k := FreeFound(larger, used, |larger|, s.kind);
      assert Score(s, larger[k]) == 1.0;
    }
  }

  /** Every pick is a free leaf of the child's type at full score, and there is one whenever such a leaf is free. */
  predicate FlatPicks(smaller: seq<Tree>, larger: seq<Tree>, picks: seq<Best>) {
    && |picks| == |smaller| && Fits(larger, picks)
    && forall k :: 0 <= k < |picks| ==> FlatPickAt(smaller, larger, picks, k)
  }

  predicate FlatPickAt(smaller: seq<Tree>, larger: seq<Tree>, picks: seq<Best>, k: nat)
    requires InRange(larger, picks) && k < |picks| <= |smaller|
  {
    && (picks[k].index.Some? <==> smaller[k].kind in FreeKinds(larger, Takes(smaller, larger, picks, k).used, |larger|))
    && (picks[k].index.Some? ==> larger[picks[k].index.value].kind == smaller[k].kind && picks[k].sim == 1.0)
  }

  lemma PicksAreFlat(smaller: seq<Tree>, larger: seq<Tree>)
    requires Leaves(smaller) && Leaves(larger)
    ensures FlatPicks(smaller, larger, PicksOf(smaller, larger))
  {
    var picks := PicksOf(smaller, larger);
    PicksFit(smaller, larger);
    forall k | 0 <= k < |picks| ensures FlatPickAt(smaller, larger, picks, k) {
      GreedyIsTakes(smaller, larger, k);
      FlatPick(smaller[k], larger, Greedy(smaller, larger, k).used);
    }
  }

  /** The free leaves of type `x` are those the first `i` children have not used up. */
  predicate FreeLeft(smaller: seq<Tree>, larger: seq<Tree>, used: seq<bool>, i: nat, x: nat)
    requires |used| == |larger| && i <= |smaller|
  {
    var l, s := KindsOf(larger)[x], KindsOf(smaller[..i])[x];
    FreeKinds(larger, used, |larger|)[x] == if l < s then 0 else l - s
  }

  lemma FlatStart(smaller: seq<Tree>, larger: seq<Tree>, used: seq<bool>)
    requires |used| == |larger| && forall k :: 0 <= k < |larger| ==> !used[k]
    ensures FreeKinds(larger, used, |larger|) == KindsOf(larger)
  {
    FreeAll(larger, used, |larger|);
    assert larger[..|larger|] == larger;
  }

  lemma FlatTaken(smaller: seq<Tree>, larger: seq<Tree>, picks: seq<Best>, k: nat)
    requires FlatPicks(smaller, larger, picks) && k < |picks|
    ensures FreeKinds(larger, Takes(smaller, larger, picks, k + 1).used, |larger|)
      == FreeKinds(larger, Takes(smaller, larger, picks, k).used, |larger|) - multiset{smaller[k].kind}
  {
    assert FlatPickAt(smaller, larger, picks, k);
    TakesUsed(smaller, larger, picks, k);
    if picks[k].index.Some? { FreeTaken(larger, Takes(smaller, larger, picks, k).used, picks[k].index.value, |larger|); }
  }

  lemma FlatStep(smaller: seq<Tree>, larger: seq<Tree>, picks: seq<Best>, i: nat, x: nat)
    requires FlatPicks(smaller, larger, picks) && i < |picks| && FreeLeft(smaller, larger, Takes(smaller, larger, picks, i).used, i, x)
    ensures FreeLeft(smaller, larger, Takes(smaller, larger, picks, i + 1).used, i + 1, x)
  {
    FlatTaken(smaller, larger, picks, i);
    KindsStep(smaller, i, x);
  }

  lemma KindsStep(ts: seq<Tree>, i: nat, x: nat)
    requires i < |ts|
    ensures KindsOf(ts[..i + 1])[x] == KindsOf(ts[..i])[x] + (if x == ts[i].kind then 1 else 0)
  {
    assert ts[..i + 1][..i] == ts[..i];
  }

  lemma {:induction false} FlatFree(smaller: seq<Tree>, larger: seq<Tree>, picks: seq<Best>, i: nat, x: nat)
    requires FlatPicks(smaller, larger, picks) && i <= |picks|
    ensures FreeLeft(smaller, larger, Takes(smaller, larger, picks, i).used, i, x)
  {
    if i == 0 {
      FlatStart(smaller, larger, Takes(smaller, larger, picks, 0).used);
    } else {
      FlatFree(smaller, larger, picks, i - 1, x);
      FlatStep(smaller, larger, picks, i - 1, x);
    }
  }

  function FreeCount(smaller: seq<Tree>, larger: seq<Tree>, picks: seq<Best>, i: nat): nat
    requires InRange(larger, picks) && i <= |picks| <= |smaller|
  {
    |FreeKinds(larger, Takes(smaller, larger, picks, i).used, |larger|)|
  }

  lemma FlatEarned(smaller: seq<Tree>, larger: seq<Tree>, picks: seq<Best>, k: nat)
    requires FlatPicks(smaller, larger, picks) && k < |picks| && Leaves(smaller) && Leaves(larger)
    ensures Credit(larger, Size(smaller[k]), picks[k]) == (FreeCount(smaller, larger, picks, k) - FreeCount(smaller, larger, picks, k + 1)) as real
  {
    FlatTaken(smaller, larger, picks, k);
    assert FlatPickAt(smaller, larger, picks, k);
  }

  lemma FlatFull(smaller: seq<Tree>, larger: seq<Tree>, picks: seq<Best>)
    requires FlatPicks(smaller, larger, picks)
    ensures FreeCount(smaller, larger, picks, 0) == |larger|
  {
    FlatStart(smaller, larger, Takes(smaller, larger, picks, 0).used);
  }

  /** Every leaf no longer free earned one. */
  lemma {:induction false} FlatShared(smaller: seq<Tree>, larger: seq<Tree>, picks: seq<Best>, i: nat)
    requires FlatPicks(smaller, larger, picks) && i <= |picks| && Leaves(smaller) && Leaves(larger)
    ensures Shared(smaller, larger, picks, i) == (|larger| - FreeCount(smaller, larger, picks, i)) as real
  {
    if i == 0 {
      FlatFull(smaller, larger, picks);
    } else {
      FlatShared(smaller, larger, picks, i - 1);
      FlatEarned(smaller, larger, picks, i - 1);
    }
  }

  function Common(as_: seq<Tree>, bs: seq<Tree>): nat {
    |KindsOf(as_) * KindsOf(bs)|
  }

  lemma CommonCounts(as_: seq<Tree>, bs: seq<Tree>)
    ensures |KindsOf(bs) - KindsOf(as_)| == |bs| - Common(as_, bs) && Common(as_, bs) == Common(bs, as_) <= |as_|
  {
    var k, l := KindsOf(as_), KindsOf(bs);
    assert l == (l - k) + (k * l);
    assert k == (k - l) + (k * l);
    assert k * l == l * k;
  }

  lemma FlatTotals(smaller: seq<Tree>, larger: seq<Tree>, picks: seq<Best>)
    requires FlatPicks(smaller, larger, picks) && Leaves(smaller) && Leaves(larger)
    ensures Shared(smaller, larger, picks, |picks|) == Common(smaller, larger) as real
    ensures FreeCount(smaller, larger, picks, |picks|) == |larger| - Common(smaller, larger)
  {
    assert smaller[..|picks|] == smaller;
    var free := FreeKinds(larger, Takes(smaller, larger, picks, |picks|).used, |larger|);
    forall x ensures free[x] == (KindsOf(larger) - KindsOf(smaller))[x] { FlatFree(smaller, larger, picks, |picks|, x); }
    assert free == KindsOf(larger) - KindsOf(smaller);
    FlatShared(smaller, larger, picks, |picks|);
    CommonCounts(smaller, larger);
  }

  lemma FlatWhole(smaller: seq<Tree>, larger: seq<Tree>, picks: seq<Best>)
    requires FlatPicks(smaller, larger, picks) && Leaves(smaller) && Leaves(larger)
    ensures Whole(smaller, larger, picks) == |smaller| + |larger| + FreeCount(smaller, larger, picks, |picks|)
  {
    var used := Takes(smaller, larger, picks, |picks|).used;
    TakesUsed(smaller, larger, picks, |picks|);
    AloneIsUnmatched(larger, picks, used, |larger|);
    FreeSizes(larger, used, |larger|);
    LeafSizes(smaller);
    LeafSizes(larger);
  }

  lemma FlatRatio(smaller: seq<Tree>, larger: seq<Tree>)
    requires Leaves(smaller) && Leaves(larger) && smaller != [] && |smaller| <= |larger|
    ensures Common(smaller, larger) <= |smaller|
    ensures Ratio(Greedy(smaller, larger, |smaller|), larger) == TwiceOver(Common(smaller, larger) as real, |smaller| + 2 * |larger| - Common(smaller, larger))
  {
    CommonCounts(smaller, larger);
    GreedyRatio(smaller, larger);
    FlatSums(smaller, larger);
  }

  lemma FlatSums(smaller: seq<Tree>, larger: seq<Tree>)
    requires Leaves(smaller) && Leaves(larger)
    ensures var picks := PicksOf(smaller, larger);
      && Shared(smaller, larger, picks, |picks|) == Common(smaller, larger) as real
      && Whole(smaller, larger, picks) == |smaller| + 2 * |larger| - Common(smaller, larger)
  {
    PicksAreFlat(smaller, larger);
    FlatTotals(smaller, larger, PicksOf(smaller, larger));
    FlatWhole(smaller, larger, PicksOf(smaller, larger));
  }

  /** The children of flat trees score by the types they have in common. */
  lemma FlatScore(as_: seq<Tree>, bs: seq<Tree>, smaller: seq<Tree>, larger: seq<Tree>)
    requires Leaves(as_) && Leaves(bs) && smaller != [] && Ordered(as_, bs, smaller, larger)
    ensures Common(as_, bs) <= |smaller|
    ensures ChildrenScore(as_, bs) == TwiceOver(Common(as_, bs) as real, |smaller| + 2 * |larger| - Common(as_, bs))
  {
    OrderedCommon(as_, bs, smaller, larger);
    FlatRatio(smaller, larger);
  }

  lemma OrderedCommon(as_: seq<Tree>, bs: seq<Tree>, smaller: seq<Tree>, larger: seq<Tree>)
    requires Ordered(as_, bs, smaller, larger)
    ensures Common(smaller, larger) == Common(as_, bs) <= |smaller|
  {
    CommonCounts(as_, bs);
    CommonCounts(bs, as_);
  }

  // -------------------------------------------------------------------------
  // One leaf replaced
  // -------------------------------------------------------------------------

  lemma {:induction false} KindsReplaced(ts: seq<Tree>, i: nat, t: Tree)
    requires i < |ts|
    ensures KindsOf(ts[i := t]) + multiset{ts[i].kind} == KindsOf(ts) + multiset{t.kind}
  {
    var n := |ts| - 1;
    if i < n {
      KindsReplaced(ts[..n], i, t);
      AddBoth(KindsOf(ts[..n]), KindsOf(ts[..n][i := t]), ts[i].kind, t.kind, ts[n].kind);
      assert ts[i := t][..n] == ts[..n][i := t];
    } else {
      assert ts[i := t][..n] == ts[..n];
    }
  }

  lemma AddBoth(k: multiset<nat>, l: multiset<nat>, x: nat, y: nat, z: nat)
    requires l + multiset{x} == k + multiset{y}
    ensures (l + multiset{z}) + multiset{x} == (k + multiset{z}) + multiset{y}
  {
    assert (l + multiset{z}) + multiset{x} == (l + multiset{x}) + multiset{z};
  }

  lemma OneLess(k: multiset<nat>, l: multiset<nat>, x: nat, y: nat)
    requires x != y && l + multiset{x} == k + multiset{y}
    ensures |k * l| == |k| - 1
  {
    forall z ensures (k * l + multiset{x})[z] == k[z] {
      assert (l + multiset{x})[z] == (k + multiset{y})[z];
    }
    assert k == k * l + multiset{x};
  }

  lemma FlatSizes(a: Tree, b: Tree)
    requires a.Node? && b.Node? && Leaves(a.children) && Leaves(b.children)
    ensures Size(a) + Size(b) == |a.children| + |b.children| + 2
  {
    LeafSizes(a.children);
    LeafSizes(b.children);
  }

  function ReplacedScore(n: nat): real {
    var x := n as real;
    1.0 / (x + 1.0) + x / (x + 1.0) * ((x - 1.0) / (x + 0.5))
  }

  /** Of `n` leaves one is replaced by a leaf of another type. */
  lemma OneReplaced(a: Tree, i: nat, t: Tree)
    requires a.Node? && Leaves(a.children) && i < |a.children| && t.Leaf? && t.kind != a.children[i].kind
    ensures Score(a, Node(a.kind, a.children[i := t])) == ReplacedScore(|a.children|)
  {
    var ts, us, n := a.children, a.children[i := t], |a.children|;
    var b := Node(a.kind, us);
    KindsReplaced(ts, i, t);
    OneLess(KindsOf(ts), KindsOf(us), ts[i].kind, t.kind);
    FlatScore(ts, us, ts, us);
    FlatSizes(a, b);
    CompositeScore(a, b);
    ReplacedBlend(n, RootShare(Size(a) + Size(b)), ChildrenScore(ts, us));
  }

  lemma ReplacedBlend(n: nat, r: real, c: real)
    requires n > 0 && r == RootShare(2 * n + 2) && c == TwiceOver((n - 1) as real, 2 * n + 1)
    ensures Blend(true, r, c) == ReplacedScore(n)
  {
    var x := n as real;
    assert r * (x + 1.0) == 1.0;
    assert c * (x + 0.5) == x - 1.0;
    RatioIs(1.0, x + 1.0, r);
    RatioIs(x, x + 1.0, 1.0 - r);
    RatioIs(x - 1.0, x + 0.5, c);
  }

  lemma RatioIs(x: real, y: real, q: real)
    requires y > 0.0 && q * y == x
    ensures x / y == q
  {
    var p := x / y;
    assert p * y == x;
    assert (p - q) * y == 0.0;
  }
}
