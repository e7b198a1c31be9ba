/** Structural similarity of syntax trees (crates/code-intel/src/similarity.rs), in exact arithmetic. */
module Similarity {
  import opened Wrappers

  /** A node has a type and either a value or a list of children. */
  datatype Tree =
    | Leaf(kind: nat, value: string)
    | Node(kind: nat, children: seq<Tree>)

  function Size(t: Tree): (n: nat)
    ensures n >= 1
    decreases t
  {
    if t.Leaf? then 1 else 1 + TotalSize(t.children)
  }

  function TotalSize(ts: seq<Tree>): nat
    decreases ts
  {
    if ts == [] then 0 else TotalSize(ts[..|ts| - 1]) + Size(ts[|ts| - 1])
  }

  lemma {:induction false} ChildSize(ts: seq<Tree>, i: nat)
    requires i < |ts|
    ensures Size(ts[i]) <= TotalSize(ts)
  {
    if i < |ts| - 1 { ChildSize(ts[..|ts| - 1], i); }
  }

  // -------------------------------------------------------------------------
  // The score as a function
  // -------------------------------------------------------------------------

  /** The best unused candidate seen so far; `index` is `None` while none scores above zero. */
  datatype Best = Best(sim: real, index: Option<nat>)

  /** Progress of the greedy matching: the used trees of the larger list, who picked them, and the score and weight of each pick. */
  datatype Matching = Matching(used: seq<bool>, picks: seq<Option<nat>>, terms: seq<(real, real)>)

  function Weights(terms: seq<(real, real)>): real {
    if terms == [] then 0.0 else Weights(terms[..|terms| - 1]) + terms[|terms| - 1].1
  }

  function Weighted(terms: seq<(real, real)>): real {
    if terms == [] then 0.0 else Weighted(terms[..|terms| - 1]) + terms[|terms| - 1].0 * terms[|terms| - 1].1
  }

  function HalfTotal(a: nat, b: nat): real {
    (a + b) as real / 2.0
  }

  /** The root counts for one node, the children for the rest; half of it when the types differ. */
  function Combine(sameType: bool, total: real, children: real): real
    requires total != 0.0
  {
    if sameType then 1.0 / total * 1.0 + (1.0 - 1.0 / total) * children
    else (1.0 - 1.0 / total) * children * 0.5
  }

  function Score(a: Tree, b: Tree): real
    decreases Size(a) + Size(b), 0, 0
  {
    var sameType := a.kind == b.kind;
    if a.Leaf? && b.Leaf? then if sameType then 1.0 else 0.0
    else if a.Node? && b.Node? then
      if a.children == [] && b.children == [] then if sameType then 1.0 else 0.0
      else Combine(sameType, HalfTotal(Size(a), Size(b)), ChildrenScore(a.children, b.children))
    else if sameType then 0.3 else 0.0
  }

  function ChildrenScore(as_: seq<Tree>, bs: seq<Tree>): real
    decreases TotalSize(as_) + TotalSize(bs), 3, 0
  {
    if as_ == [] && bs == [] then 1.0
    else if as_ == [] || bs == [] then 0.0
    else if |as_| <= |bs| then Ratio(Greedy(as_, bs, |as_|), bs)
    else Ratio(Greedy(bs, as_, |bs|), as_)
  }

  function Ratio(m: Matching, larger: seq<Tree>): real
    requires |m.used| == |larger|
  {
    Quotient(Weighted(m.terms), Weights(m.terms) + Unmatched(larger, m.used, |larger|))
  }

  function Quotient(similar: real, weight: real): real {
    if weight == 0.0 then 0.0 else similar / weight
  }

  /** Sizes of the unused trees among the first `j`. */
  function Unmatched(larger: seq<Tree>, used: seq<bool>, j: nat): real
    requires j <= |larger| == |used|
  {
    if j == 0 then 0.0 else Unmatched(larger, used, j - 1) + (if used[j - 1] then 0.0 else Size(larger[j - 1]) as real)
  }

  /** The matching after the first `i` children of the smaller list. */
  function Greedy(smaller: seq<Tree>, larger: seq<Tree>, i: nat): (m: Matching)
    requires i <= |smaller|
    ensures |m.used| == |larger| && |m.picks| == |m.terms| == i
    decreases TotalSize(smaller) + TotalSize(larger), 2, i
  {
    if i == 0 then Matching(seq(|larger|, _ => false), [], [])
    else
      var m := Greedy(smaller, larger, i - 1);
      ChildSize(smaller, i - 1);
      var best := BestAmong(smaller[i - 1], larger, m.used, |larger|);
      Take(m, larger, Size(smaller[i - 1]), best)
  }

  function Weight(size: nat, larger: seq<Tree>, index: Option<nat>): real
    requires index.Some? ==> index.value < |larger|
  {
    HalfTotal(size, if index.Some? then Size(larger[index.value]) else 0)
  }

  function Take(m: Matching, larger: seq<Tree>, size: nat, best: Best): (r: Matching)
    requires |m.used| == |larger| && (best.index.Some? ==> best.index.value < |larger|)
    ensures |r.used| == |larger|
  {
    Matching(if best.index.Some? then m.used[best.index.value := true] else m.used,
      m.picks + [best.index], m.terms + [(best.sim, Weight(size, larger, best.index))])
  }

  /** The first unused tree of greatest positive score among the first `j`. */
  function BestAmong(s: Tree, larger: seq<Tree>, used: seq<bool>, j: nat): (r: Best)
    requires j <= |larger| == |used|
    ensures r.index.Some? ==> r.index.value < j && !used[r.index.value] && r.sim > 0.0
    ensures r.index.None? ==> r.sim == 0.0
    decreases Size(s) + TotalSize(larger), 1, j
  {
    if j == 0 then Best(0.0, None)
    else
      var best := BestAmong(s, larger, used, j - 1);
      ChildSize(larger, j - 1);
      if used[j - 1] then best
      else
        var sim := Score(s, larger[j - 1]);
        if sim > best.sim then Best(sim, Some(j - 1)) else best
  }

  // -------------------------------------------------------------------------
  // Equality up to the order of siblings
  // -------------------------------------------------------------------------

  ghost predicate Permutation(p: seq<nat>, n: nat) {
    && |p| == n && (forall i :: 0 <= i < n ==> p[i] < n)
    && (forall i, j :: 0 <= i < j < n ==> p[i] != p[j])
  }

  /** Same types and shapes, with siblings in any order; values do not matter. */
  ghost predicate Iso(a: Tree, b: Tree)
    decreases a
  {
    && a.kind == b.kind && a.Leaf? == b.Leaf?
    && (a.Node? ==> |a.children| == |b.children| && exists p :: (
          Permutation(p, |a.children|) && forall i :: 0 <= i < |a.children| ==> p[i] < |b.children| && Iso(a.children[i], b.children[p[i]])))
  }

  /** `p` pairs each tree of `as_` with an isomorphic one of `bs`. */
  ghost predicate Pairs(as_: seq<Tree>, bs: seq<Tree>, p: seq<nat>) {
    && |as_| == |bs| && Permutation(p, |as_|)
    && forall i :: 0 <= i < |as_| ==> Iso(as_[i], bs[p[i]])
  }

  lemma IsoByPairs(a: Tree, b: Tree, p: seq<nat>)
    requires a.Node? && b.Node? && a.kind == b.kind && Pairs(a.children, b.children, p)
    ensures Iso(a, b)
  {
  }

  lemma PairsOfIso(a: Tree, b: Tree) returns (p: seq<nat>)
    requires a.Node? && Iso(a, b)
    ensures b.Node? && a.kind == b.kind && Pairs(a.children, b.children, p)
  {
    p :| Permutation(p, |a.children|) && forall i :: 0 <= i < |a.children| ==> p[i] < |b.children| && Iso(a.children[i], b.children[p[i]]);
  }

  // Every index is taken by a permutation.
  lemma {:induction false} PermutationOnto(p: seq<nat>, n: nat, k: nat) returns (i: nat)
    requires Permutation(p, n) && k < n
    ensures i < n && p[i] == k
  {
    if i' :| 0 <= i' < n && p[i'] == k {
      i := i';
    } else {
      var values := set j | 0 <= j < n :: p[j];
      Count(p, n);
      Within(values + {k}, n);
      assert false;
    }
  }

  lemma {:induction false} Count(p: seq<nat>, m: nat)
    requires m <= |p| && forall i, j :: 0 <= i < j < |p| ==> p[i] != p[j]
    ensures |set j | 0 <= j < m :: p[j]| == m
  {
    if m > 0 {
      Count(p, m - 1);
      assert (set j | 0 <= j < m :: p[j]) == (set j | 0 <= j < m - 1 :: p[j]) + {p[m - 1]};
    }
  }

  lemma {:induction false} Within(s: set<nat>, n: nat)
    requires forall x :: x in s ==> x < n
    ensures |s| <= n
  {
    if n == 0 {
      assert s == {};
    } else {
      Within(s - {n - 1}, n - 1);
    }
  }

  lemma Inverse(as_: seq<Tree>, bs: seq<Tree>, p: seq<nat>) returns (q: seq<nat>)
    requires |as_| == |bs| && Permutation(p, |as_|)
    ensures Permutation(q, |as_|) && forall k :: 0 <= k < |as_| ==> p[q[k]] == k
  {
    var n := |as_|;
    q := [];
    while |q| < n
      invariant |q| <= n && forall k :: 0 <= k < |q| ==> q[k] < n && p[q[k]] == k
    {
      var i := PermutationOnto(p, n, |q|);
      q := q + [i];
    }
  }

  lemma {:induction false} IsoSymmetric(a: Tree, b: Tree)
    requires Iso(a, b)
    ensures Iso(b, a)
    decreases a
  {
    if a.Node? {
      var p := PairsOfIso(a, b);
      var q := Inverse(a.children, b.children, p);
      forall k | 0 <= k < |b.children| ensures Iso(b.children[k], a.children[q[k]]) {
        IsoSymmetric(a.children[q[k]], b.children[k]);
      }
      IsoByPairs(b, a, q);
    }
  }

  lemma {:induction false} IsoTransitive(a: Tree, b: Tree, c: Tree)
    requires Iso(a, b) && Iso(b, c)
    ensures Iso(a, c)
    decreases a
  {
    if a.Node? {
      var p := PairsOfIso(a, b);
      var q := PairsOfIso(b, c);
      var n := |a.children|;
      var r := seq(n, i requires 0 <= i < n => q[p[i]]);
      forall i | 0 <= i < n ensures Iso(a.children[i], c.children[r[i]]) {
        IsoTransitive(a.children[i], b.children[p[i]], c.children[r[i]]);
      }
      IsoByPairs(a, c, r);
    }
  }

  // -------------------------------------------------------------------------
  // Scalar facts
  // -------------------------------------------------------------------------

  lemma Product(sim: real, w: real)
    requires 0.0 <= sim <= 1.0 && w > 0.0
    ensures 0.0 <= sim * w <= w && (sim * w == w <==> sim == 1.0)
  {
    if sim < 1.0 { assert (1.0 - sim) * w > 0.0; }
  }

  lemma WeightedStep(x: real, y: real, sim: real, w: real)
    requires 0.0 <= x <= y && 0.0 <= sim <= 1.0 && w > 0.0
    ensures 0.0 <= x + sim * w <= y + w && (x + sim * w == y + w <==> x == y && sim == 1.0)
  {
    Product(sim, w);
  }

  ghost predicate GoodTerms(terms: seq<(real, real)>) {
    forall k :: 0 <= k < |terms| ==> 0.0 <= terms[k].0 <= 1.0 && terms[k].1 > 0.0
  }

  lemma AllOnes(terms: seq<(real, real)>)
    requires terms != []
    ensures var init := terms[..|terms| - 1];
      (forall k :: 0 <= k < |terms| ==> terms[k].0 == 1.0) <==> (forall k :: 0 <= k < |init| ==> init[k].0 == 1.0) && terms[|terms| - 1].0 == 1.0
  {
    var n := |terms| - 1;
    assert forall k :: 0 <= k < n ==> terms[..n][k] == terms[k];
  }

  /** A weighted sum of scores stays below the weights and reaches them only when every score is one. */
  lemma {:induction false} WeightedFacts(terms: seq<(real, real)>)
    requires GoodTerms(terms)
    ensures 0.0 <= Weighted(terms) <= Weights(terms) && (terms != [] ==> Weights(terms) > 0.0)
    ensures Weighted(terms) == Weights(terms) <==> forall k :: 0 <= k < |terms| ==> terms[k].0 == 1.0
  {
    if terms != [] {
      var init, last := terms[..|terms| - 1], terms[|terms| - 1];
      WeightedFacts(init);
      WeightedStep(Weighted(init), Weights(init), last.0, last.1);
      AllOnes(terms);
    }
  }

  lemma RatioFacts(x: real, y: real)
    requires 0.0 <= x <= y && y > 0.0
    ensures 0.0 <= x / y <= 1.0 && (x / y == 1.0 <==> x == y)
  {
    assert x / y * y == x;
  }

  lemma CombineShare(r: real, u: real, c: real)
    requires 0.0 <= r < 1.0 && u == 1.0 - r && 0.0 <= c <= 1.0
    ensures 0.0 <= r * 1.0 + u * c <= 1.0 && (r * 1.0 + u * c == 1.0 <==> c == 1.0)
    ensures 0.0 <= u * c * 0.5 <= 0.5
  {
    Product(c, u);
    Commutes(c, u);
  }

  lemma Commutes(x: real, y: real)
    ensures x * y == y * x
  {
  }

  lemma CombineFacts(sameType: bool, total: real, children: real)
    requires total > 1.0 && 0.0 <= children <= 1.0
    ensures 0.0 <= Combine(sameType, total, children) <= 1.0
    ensures Combine(sameType, total, children) == 1.0 <==> sameType && children == 1.0
  {
    RatioFacts(1.0, total);
    CombineShare(1.0 / total, 1.0 - 1.0 / total, children);
  }

  // -------------------------------------------------------------------------
  // The greedy matching, given that the children's scores are right
  // -------------------------------------------------------------------------

  ghost predicate RightScore(a: Tree, b: Tree) {
    0.0 <= Score(a, b) <= 1.0 && (Score(a, b) == 1.0 <==> Iso(a, b))
  }

  ghost predicate RightScores(as_: seq<Tree>, bs: seq<Tree>) {
    forall i, j :: 0 <= i < |as_| && 0 <= j < |bs| ==> RightScore(as_[i], bs[j])
  }

  lemma {:induction false} BestIsBest(s: Tree, larger: seq<Tree>, used: seq<bool>, j: nat)
    requires j <= |larger| == |used| && forall k :: 0 <= k < |larger| ==> RightScore(s, larger[k])
    ensures var best := BestAmong(s, larger, used, j);
      && 0.0 <= best.sim <= 1.0 && (best.index.Some? ==> best.sim == Score(s, larger[best.index.value]))
      && forall k :: 0 <= k < j && !used[k] ==> Score(s, larger[k]) <= best.sim
  {
    if j > 0 {
      BestIsBest(s, larger, used, j - 1);
      assert RightScore(s, larger[j - 1]);
    }
  }

  /** The trees in use are those picked, each by one child. */
  ghost predicate Picked(m: Matching, larger: seq<Tree>) {
    && |m.used| == |larger|
    && (forall k :: 0 <= k < |m.picks| && m.picks[k].Some? ==> m.picks[k].value < |larger| && m.used[m.picks[k].value])
    && (forall j :: 0 <= j < |larger| && m.used[j] ==> Some(j) in m.picks)
    && (forall k, l :: 0 <= k < l < |m.picks| && m.picks[k].Some? ==> m.picks[k] != m.picks[l])
  }

  /** The score of each pick is that of its pair, and weights are positive. */
  ghost predicate Scored(smaller: seq<Tree>, larger: seq<Tree>, m: Matching) {
    |m.picks| == |m.terms| <= |smaller| && forall k :: 0 <= k < |m.picks| ==> ScoredAt(smaller, larger, m, k)
  }

  ghost predicate ScoredAt(smaller: seq<Tree>, larger: seq<Tree>, m: Matching, k: nat)
    requires k < |m.picks| == |m.terms| <= |smaller|
  {
    && 0.0 <= m.terms[k].0 <= 1.0 && m.terms[k].1 > 0.0
    && (m.terms[k].0 == 1.0 <==> PerfectAt(smaller, larger, m, k))
  }

  ghost predicate PerfectAt(smaller: seq<Tree>, larger: seq<Tree>, m: Matching, k: nat)
    requires k < |m.picks| <= |smaller|
  {
    m.picks[k].Some? && m.picks[k].value < |larger| && Iso(smaller[k], larger[m.picks[k].value])
  }

  /** Every child so far has picked an isomorphic tree. */
  ghost predicate Perfect(smaller: seq<Tree>, larger: seq<Tree>, m: Matching) {
    |m.picks| <= |smaller| && forall k :: 0 <= k < |m.picks| ==> PerfectAt(smaller, larger, m, k)
  }

  lemma TakeKeepsPicked(m: Matching, larger: seq<Tree>, size: nat, best: Best)
    requires Picked(m, larger) && (best.index.Some? ==> best.index.value < |larger| && !m.used[best.index.value])
    ensures Picked(Take(m, larger, size, best), larger)
  {
    var r := Take(m, larger, size, best);
    forall j | 0 <= j < |larger| && r.used[j] ensures Some(j) in r.picks {
      if best.index == Some(j) {
        assert r.picks[|m.picks|] == Some(j);
      } else {
        var k :| 0 <= k < |m.picks| && m.picks[k] == Some(j);
        assert r.picks[k] == Some(j);
      }
    }
  }

  lemma TakeKeepsScored(smaller: seq<Tree>, larger: seq<Tree>, m: Matching, best: Best)
    requires Scored(smaller, larger, m) && |m.picks| < |smaller| && |m.used| == |larger|
    requires best.index.Some? ==> best.index.value < |larger| && RightScore(smaller[|m.picks|], larger[best.index.value])
    requires best.sim == if best.index.Some? then Score(smaller[|m.picks|], larger[best.index.value]) else 0.0
    ensures Scored(smaller, larger, Take(m, larger, Size(smaller[|m.picks|]), best))
  {
    var r := Take(m, larger, Size(smaller[|m.picks|]), best);
    forall k | 0 <= k < |r.picks| ensures ScoredAt(smaller, larger, r, k) {
      if k < |m.picks| {
        assert ScoredAt(smaller, larger, m, k);
        assert PerfectAt(smaller, larger, r, k) <==> PerfectAt(smaller, larger, m, k);
      }
    }
  }

  lemma {:induction false} GreedyFacts(smaller: seq<Tree>, larger: seq<Tree>, i: nat)
    requires i <= |smaller| && RightScores(smaller, larger)
    ensures Picked(Greedy(smaller, larger, i), larger) && Scored(smaller, larger, Greedy(smaller, larger, i))
  {
    if i > 0 {
      GreedyFacts(smaller, larger, i - 1);
      var s, before := smaller[i - 1], Greedy(smaller, larger, i - 1);
      BestIsBest(s, larger, before.used, |larger|);
      var best := BestAmong(s, larger, before.used, |larger|);
      TakeKeepsPicked(before, larger, Size(s), best);
      assert best.index.Some? ==> RightScore(s, larger[best.index.value]);
      TakeKeepsScored(smaller, larger, before, best);
    }
  }

  /** The accumulated score reaches the accumulated weight only by a perfect matching. */
  lemma ScoredTotals(smaller: seq<Tree>, larger: seq<Tree>, m: Matching)
    requires Scored(smaller, larger, m)
    ensures 0.0 <= Weighted(m.terms) <= Weights(m.terms) && (m.terms != [] ==> Weights(m.terms) > 0.0)
    ensures Weighted(m.terms) == Weights(m.terms) <==> Perfect(smaller, larger, m)
  {
    forall k | 0 <= k < |m.terms|
      ensures 0.0 <= m.terms[k].0 <= 1.0 && m.terms[k].1 > 0.0 && (m.terms[k].0 == 1.0 <==> PerfectAt(smaller, larger, m, k))
    {
      assert ScoredAt(smaller, larger, m, k);
    }
    WeightedFacts(m.terms);
  }

  lemma {:induction false} UnmatchedFacts(larger: seq<Tree>, used: seq<bool>, j: nat)
    requires j <= |larger| == |used|
    ensures Unmatched(larger, used, j) >= 0.0
    ensures Unmatched(larger, used, j) == 0.0 <==> forall k :: 0 <= k < j ==> used[k]
  {
    if j > 0 { UnmatchedFacts(larger, used, j - 1); }
  }

  // -------------------------------------------------------------------------
  // A perfect matching is a permutation, and conversely
  // -------------------------------------------------------------------------

  /** A perfect matching that leaves nothing unused pairs the lists off. */
  lemma PerfectPairs(smaller: seq<Tree>, larger: seq<Tree>, m: Matching) returns (p: seq<nat>)
    requires |smaller| <= |larger| && |m.picks| == |smaller| && Picked(m, larger) && Perfect(smaller, larger, m)
    requires forall j :: 0 <= j < |larger| ==> m.used[j]
    ensures Pairs(smaller, larger, p)
  {
    var n := |smaller|;
    forall k | 0 <= k < n ensures m.picks[k].Some? && m.picks[k].value < |larger| && Iso(smaller[k], larger[m.picks[k].value]) {
      assert PerfectAt(smaller, larger, m, k);
    }
    p := seq(n, k requires 0 <= k < n => m.picks[k].value);
    forall k, l | 0 <= k < l < n ensures p[k] != p[l] {
      assert m.picks[k] != m.picks[l];
    }
    AllPicked(p, m, |larger|);
  }

  lemma AllPicked(p: seq<nat>, m: Matching, n: nat)
    requires |p| == |m.picks| && forall k :: 0 <= k < |p| ==> m.picks[k] == Some(p[k])
    requires |p| <= n && forall j :: 0 <= j < n ==> Some(j) in m.picks
    ensures |p| == n
  {
    var values := set k | 0 <= k < |p| :: p[k];
    ValuesBounded(p, |p|);
    var all := Upto(n);
    forall j | j in all ensures j in values {
      var k :| 0 <= k < |m.picks| && m.picks[k] == Some(j);
      assert p[k] == j;
    }
    assert all <= values && values == all + (values - all);
  }

  lemma {:induction false} ValuesBounded(p: seq<nat>, m: nat)
    requires m <= |p|
    ensures |set j | 0 <= j < m :: p[j]| <= m
  {
    if m > 0 {
      ValuesBounded(p, m - 1);
      assert (set j | 0 <= j < m :: p[j]) == (set j | 0 <= j < m - 1 :: p[j]) + {p[m - 1]};
    }
  }

  lemma {:induction false} Upto(n: nat) returns (s: set<nat>)
    ensures |s| == n && forall x: nat :: x in s <==> x < n
  {
    if n == 0 {
      s := {};
    } else {
      var rest := Upto(n - 1);
      s := rest + {n - 1};
    }
  }

  /** `p` agrees with the picks made so far. */
  ghost predicate Follows(p: seq<nat>, m: Matching) {
    |m.picks| <= |p| && forall k :: 0 <= k < |m.picks| ==> m.picks[k] == Some(p[k])
  }

  /**
   The exchange argument: when the lists pair off at all, then after any number of
   greedy picks they still pair off in a way that respects the picks.
   */
  lemma {:induction false} Exchange(smaller: seq<Tree>, larger: seq<Tree>, p: seq<nat>, i: nat) returns (q: seq<nat>)
    requires RightScores(smaller, larger) && Pairs(smaller, larger, p) && i <= |smaller|
    ensures Pairs(smaller, larger, q) && Follows(q, Greedy(smaller, larger, i))
  {
    if i == 0 {
      q := p;
    } else {
      var r := Exchange(smaller, larger, p, i - 1);
      var m, s := Greedy(smaller, larger, i - 1), smaller[i - 1];
      GreedyFacts(smaller, larger, i - 1);
      BestIsBest(s, larger, m.used, |larger|);
      q := ExchangeStep(smaller, larger, r, m, BestAmong(s, larger, m.used, |larger|));
    }
  }

  /** One pick: the best unused tree is isomorphic to the child, so partners can be swapped to give it that tree. */
  lemma ExchangeStep(smaller: seq<Tree>, larger: seq<Tree>, r: seq<nat>, m: Matching, best: Best) returns (q: seq<nat>)
    requires RightScores(smaller, larger) && Pairs(smaller, larger, r) && Picked(m, larger) && Follows(r, m) && |m.picks| < |smaller|
    requires 0.0 <= best.sim <= 1.0 && (best.index.None? ==> best.sim == 0.0)
    requires best.index.Some? ==> best.index.value < |larger| && !m.used[best.index.value] && best.sim == Score(smaller[|m.picks|], larger[best.index.value])
    requires forall k :: 0 <= k < |larger| && !m.used[k] ==> Score(smaller[|m.picks|], larger[k]) <= best.sim
    ensures Pairs(smaller, larger, q) && Follows(q, Take(m, larger, Size(smaller[|m.picks|]), best))
  {
    var i := |m.picks|;
    StillFree(m, larger, r, i);
    assert RightScore(smaller[i], larger[r[i]]);
    var j := best.index.value;
    assert RightScore(smaller[i], larger[j]);
    q := Swap(smaller, larger, r, i, j, m);
  }

  lemma StillFree(m: Matching, larger: seq<Tree>, r: seq<nat>, i: nat)
    requires Picked(m, larger) && Follows(r, m) && |m.picks| == i < |r| && Permutation(r, |larger|)
    ensures !m.used[r[i]]
  {
    forall k | 0 <= k < i ensures m.picks[k] != Some(r[i]) {}
  }

  /** Gives `j` to child `i` and child `i`'s partner to the child that had `j`. */
  lemma Swap(smaller: seq<Tree>, larger: seq<Tree>, r: seq<nat>, i: nat, j: nat, m: Matching) returns (q: seq<nat>)
    requires Pairs(smaller, larger, r) && |m.picks| == i < |smaller| && j < |larger| && Iso(smaller[i], larger[j])
    requires Picked(m, larger) && Follows(r, m) && !m.used[j]
    ensures Pairs(smaller, larger, q) && Follows(q, m) && q[i] == j
  {
    var n := |smaller|;
    var k := PermutationOnto(r, n, j);
    forall l | 0 <= l < i ensures r[l] != j { assert m.picks[l] == Some(r[l]); }
    q := r[i := j][k := r[i]];
    if k == i {
      assert q == r;
    } else {
      IsoSymmetric(smaller[i], larger[j]);
      IsoTransitive(smaller[k], larger[j], smaller[i]);
      IsoTransitive(smaller[k], smaller[i], larger[r[i]]);
    }
  }

  /** The score of two lists with right scores is one exactly when they pair off. */
  lemma RatioRight(smaller: seq<Tree>, larger: seq<Tree>)
    requires smaller != [] && |smaller| <= |larger| && RightScores(smaller, larger)
    ensures var c := Ratio(Greedy(smaller, larger, |smaller|), larger);
      0.0 <= c <= 1.0 && (c == 1.0 <==> exists p :: Pairs(smaller, larger, p))
  {
    var n := |smaller|;
    GreedyFacts(smaller, larger, n);
    MatchingRight(smaller, larger, Greedy(smaller, larger, n));
    if p :| Pairs(smaller, larger, p) {
      var q := Exchange(smaller, larger, p, n);
      FollowedIsPerfect(smaller, larger, q, Greedy(smaller, larger, n));
    }
  }

  lemma MatchingRight(smaller: seq<Tree>, larger: seq<Tree>, m: Matching)
    requires smaller != [] && |smaller| <= |larger| && |m.picks| == |smaller| && Picked(m, larger) && Scored(smaller, larger, m)
    ensures 0.0 <= Ratio(m, larger) <= 1.0
    ensures Ratio(m, larger) == 1.0 <==> Perfect(smaller, larger, m) && forall j :: 0 <= j < |larger| ==> m.used[j]
    ensures Ratio(m, larger) == 1.0 ==> exists p :: Pairs(smaller, larger, p)
  {
    ScoredTotals(smaller, larger, m);
    UnmatchedFacts(larger, m.used, |larger|);
    RatioFacts(Weighted(m.terms), Weights(m.terms) + Unmatched(larger, m.used, |larger|));
    if Perfect(smaller, larger, m) && forall j :: 0 <= j < |larger| ==> m.used[j] {
      var p := PerfectPairs(smaller, larger, m);
    }
  }

  lemma FollowedIsPerfect(smaller: seq<Tree>, larger: seq<Tree>, q: seq<nat>, m: Matching)
    requires Pairs(smaller, larger, q) && Follows(q, m) && |m.picks| == |smaller| && Picked(m, larger)
    ensures Perfect(smaller, larger, m) && forall j :: 0 <= j < |larger| ==> m.used[j]
  {
    forall k | 0 <= k < |smaller| ensures PerfectAt(smaller, larger, m, k) {}
    forall j | 0 <= j < |larger| ensures m.used[j] {
      var k := PermutationOnto(q, |smaller|, j);
      assert m.picks[k] == Some(j);
    }
  }

  // -------------------------------------------------------------------------
  // The score of two trees
  // -------------------------------------------------------------------------

  lemma ChildrenRight(as_: seq<Tree>, bs: seq<Tree>)
    requires as_ != [] || bs != []
    requires |as_| <= |bs| ==> RightScores(as_, bs)
    requires |as_| > |bs| ==> RightScores(bs, as_)
    ensures 0.0 <= ChildrenScore(as_, bs) <= 1.0
    ensures ChildrenScore(as_, bs) == 1.0 <==> exists p :: Pairs(as_, bs, p)
  {
    if as_ == [] || bs == [] {
    } else if |as_| <= |bs| {
      RatioRight(as_, bs);
    } else {
      RatioRight(bs, as_);
    }
  }

  /** The score lies in [0, 1], and is one exactly for trees equal up to values and the order of siblings. */
  lemma {:induction false} ScoreRight(a: Tree, b: Tree)
    ensures RightScore(a, b)
    decreases Size(a) + Size(b)
  {
    if a.Node? && b.Node? && (a.children != [] || b.children != []) {
      var as_, bs := a.children, b.children;
      forall i, j | 0 <= i < |as_| && 0 <= j < |bs| ensures RightScore(as_[i], bs[j]) && RightScore(bs[j], as_[i]) {
        ChildSize(as_, i);
        ChildSize(bs, j);
        ScoreRight(as_[i], bs[j]);
        ScoreRight(bs[j], as_[i]);
      }
      ChildrenRight(as_, bs);
      NotBothSingle(a, b);
      CombineFacts(a.kind == b.kind, HalfTotal(Size(a), Size(b)), ChildrenScore(as_, bs));
      IsoIffPairs(a, b);
    } else if a.Node? && b.Node? {
      IsoIffPairs(a, b);
      assert Pairs([], [], []);
    }
  }

  lemma IsoIffPairs(a: Tree, b: Tree)
    requires a.Node? && b.Node?
    ensures Iso(a, b) <==> a.kind == b.kind && exists p :: Pairs(a.children, b.children, p)
  {
    if Iso(a, b) { var p := PairsOfIso(a, b); }
    if p :| a.kind == b.kind && Pairs(a.children, b.children, p) { IsoByPairs(a, b, p); }
  }

  lemma NotBothSingle(a: Tree, b: Tree)
    requires a.Node? && b.Node? && (a.children != [] || b.children != [])
    ensures HalfTotal(Size(a), Size(b)) > 1.0
  {
    if a.children != [] { ChildSize(a.children, 0); } else { ChildSize(b.children, 0); }
  }

  // -------------------------------------------------------------------------
  // The program
  // -------------------------------------------------------------------------

  method StructuralSimilarity(a: Tree, b: Tree) returns (score: real)
    ensures score == Score(a, b) && 0.0 <= score <= 1.0 && (score == 1.0 <==> Iso(a, b))
    decreases Size(a) + Size(b), 0
  {
    ScoreRight(a, b);
    var sameType := a.kind == b.kind;
    if a.Leaf? && b.Leaf? {
      return if sameType then 1.0 else 0.0;
    }
    if a.Node? && b.Node? {
      if a.children == [] && b.children == [] {
        return if sameType then 1.0 else 0.0;
      }
      var children := GreedyChildrenSimilarity(a.children, b.children);
      return Combine(sameType, HalfTotal(Size(a), Size(b)), children);
    }
    return if sameType then 0.3 else 0.0;
  }

  method GreedyChildrenSimilarity(as_: seq<Tree>, bs: seq<Tree>) returns (score: real)
    ensures score == ChildrenScore(as_, bs)
    decreases TotalSize(as_) + TotalSize(bs), 3
  {
    if as_ == [] && bs == [] {
      return 1.0;
    }
    if as_ == [] || bs == [] {
      return 0.0;
    }
    if |as_| <= |bs| {
      score := MatchChildren(as_, bs);
    } else {
      score := MatchChildren(bs, as_);
    }
  }

  method MatchChildren(smaller: seq<Tree>, larger: seq<Tree>) returns (score: real)
    ensures score == Ratio(Greedy(smaller, larger, |smaller|), larger)
    decreases TotalSize(smaller) + TotalSize(larger), 2
  {
    var used := new bool[|larger|](_ => false);
    var similar, weight := 0.0, 0.0;
    ghost var m := Greedy(smaller, larger, 0);
    assert used[..] == m.used;
    for i := 0 to |smaller|
      invariant m == Greedy(smaller, larger, i)
      invariant used[..] == m.used && similar == Weighted(m.terms) && weight == Weights(m.terms)
    {
      var best := FindBest(smaller, i, larger, used);
      var w := Weight(Size(smaller[i]), larger, best.index);
      var gain := best.sim * w;
      TakeTerms(m, larger, Size(smaller[i]), best, gain, w);
      similar, weight := similar + gain, weight + w;
      if best.index.Some? {
        used[best.index.value] := true;
      }
      m := Take(m, larger, Size(smaller[i]), best);
    }
    weight := AddUnmatched(weight, larger, used);
    score := Quotient(similar, weight);
  }

  /** Unmatched trees of the larger list weigh in with no score. */
  method AddUnmatched(matched: real, larger: seq<Tree>, used: array<bool>) returns (weight: real)
    requires used.Length == |larger|
    ensures weight == matched + Unmatched(larger, used[..], |larger|)
  {
    weight := matched;
    for j := 0 to |larger|
      invariant weight == matched + Unmatched(larger, used[..], j)
    {
      if !used[j] {
        weight := weight + Size(larger[j]) as real;
      }
    }
  }

  lemma TakeTerms(m: Matching, larger: seq<Tree>, size: nat, best: Best, gain: real, w: real)
    requires |m.used| == |larger| && (best.index.Some? ==> best.index.value < |larger|)
    requires w == Weight(size, larger, best.index) && gain == best.sim * w
    ensures var r := Take(m, larger, size, best);
      Weighted(r.terms) == Weighted(m.terms) + gain && Weights(r.terms) == Weights(m.terms) + w
  {
    var r := Take(m, larger, size, best);
    assert r.terms[..|m.terms|] == m.terms;
  }

  /** The first unused tree of greatest positive score. */
  method FindBest(smaller: seq<Tree>, i: nat, larger: seq<Tree>, used: array<bool>) returns (best: Best)
    requires i < |smaller| && used.Length == |larger|
    ensures best == BestAmong(smaller[i], larger, used[..], |larger|)
    decreases TotalSize(smaller) + TotalSize(larger), 1
  {
    best := Best(0.0, None);
    for j := 0 to |larger|
      invariant best == BestAmong(smaller[i], larger, used[..], j)
    {
      if !used[j] {
        ChildSize(smaller, i);
        ChildSize(larger, j);
        var sim := StructuralSimilarity(smaller[i], larger[j]);
        if sim > best.sim {
          best := Best(sim, Some(j));
        }
      }
    }
  }
}
