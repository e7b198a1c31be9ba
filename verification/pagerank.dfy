/** Weighted PageRank by power iteration (crates/graph/src/pagerank.rs), over exact reals. */
module PageRank {
  import opened Bytes
  import opened Interning
  import opened RankVectors
  import Sorting

  /** Out-links by node, with positive weights, and the out-strength of each node. */
  datatype Graph = Graph(links: seq<seq<Link>>, strength: seq<real>) {
    ghost predicate Valid() {
      && |links| == |strength| > 0
      && forall i :: 0 <= i < |links| ==> GoodLinks(links[i], |links|) && strength[i] == Weight(links[i])
    }
  }

  /** A rank vector of the graph. */
  ghost predicate Fits(g: Graph, rank: seq<real>) {
    g.Valid() && |rank| == |g.links|
  }

  // -------------------------------------------------------------------------
  // One iteration as a function
  // -------------------------------------------------------------------------

  /** The teleport share plus an equal part of the damped dangling rank. */
  function Base(n: nat, damping: real, dangling: real): real
    requires n > 0
  {
    (1.0 - damping) / n as real + damping * dangling / n as real
  }

  ghost function BaseOf(g: Graph, damping: real, rank: seq<real>): real
    requires Fits(g, rank)
  {
    Base(|rank|, damping, Dangling(g.strength, rank, |rank|))
  }

  /** Rank sent per unit of outgoing weight. */
  function Share(damping: real, rank: real, strength: real): real
    requires strength != 0.0
  {
    damping * rank / strength
  }

  /** What node `i` sends along its links: its damped rank, in proportion to the weights. */
  ghost function Sends(g: Graph, damping: real, rank: seq<real>, i: nat): (adds: seq<Link>)
    requires Fits(g, rank) && i < |rank|
    ensures InRange(adds, |rank|)
  {
    if g.strength[i] == 0.0 then [] else
      assert GoodLinks(g.links[i], |g.links|);
      Adds(g.links[i], Times(Share(damping, rank[i], g.strength[i])))
  }

  ghost function AllSends(g: Graph, damping: real, rank: seq<real>): (all: seq<seq<Link>>)
    requires Fits(g, rank)
    ensures |all| == |rank| && AllInRange(all) && forall i :: 0 <= i < |all| ==> all[i] == Sends(g, damping, rank, i)
  {
    seq(|rank|, i requires 0 <= i < |rank| => Sends(g, damping, rank, i))
  }

  ghost function Step(g: Graph, damping: real, rank: seq<real>): (next: seq<real>)
    requires Fits(g, rank)
    ensures |next| == |rank|
  {
    Spread(BaseOf(g, damping, rank), AllSends(g, damping, rank), |rank|)
  }

  // -------------------------------------------------------------------------
  // Scalar facts
  // -------------------------------------------------------------------------

  lemma AbsProduct(x: real, y: real)
    ensures Abs(x * y) == Abs(x) * Abs(y)
  {
  }

  lemma DivideBack(n: real, x: real, y: real)
    requires n > 0.0
    ensures n * (x / n + y / n) == x + y
  {
  }

  lemma ShareBack(k: real, s: real)
    requires s != 0.0
    ensures k / s * s == k
  {
  }

  lemma SharesApart(x: real, y: real, s: real)
    requires s > 0.0
    ensures Abs(x / s - y / s) * s == Abs(x - y)
  {
    ShareBack(x, s);
    ShareBack(y, s);
    Distribute(s, x / s, -(y / s));
    AbsProduct(x / s - y / s, s);
  }

  lemma ScaledApart(k: real, x: real, y: real)
    ensures Abs(k * x - k * y) == Abs(k) * Abs(x - y)
  {
    Distribute(k, x, -y);
    AbsProduct(k, x - y);
  }

  lemma QuotientNonNegative(x: real, y: real, s: real)
    requires x >= 0.0 && y >= 0.0 && s > 0.0
    ensures x * y >= 0.0 && x * y / s >= 0.0
  {
  }

  lemma NotAboveShrunk(k: real, x: real)
    requires k < 1.0 && 0.0 <= x <= k * x
    ensures x == 0.0
  {
  }

  // -------------------------------------------------------------------------
  // The rank sum
  // -------------------------------------------------------------------------

  lemma SendsTotal(g: Graph, damping: real, rank: seq<real>, i: nat)
    requires Fits(g, rank) && i < |rank|
    ensures Weight(Sends(g, damping, rank, i)) == if g.strength[i] == 0.0 then 0.0 else Times(damping)(rank[i])
  {
    if g.strength[i] != 0.0 {
      var share := Share(damping, rank[i], g.strength[i]);
      TimesAdditive(share);
      WeightAdds(g.links[i], Times(share));
      ShareBack(damping * rank[i], g.strength[i]);
    }
  }

  lemma BaseTotal(n: nat, damping: real, dangling: real)
    requires n > 0
    ensures Sum(Constant(n, Base(n, damping, dangling))) == 1.0 - damping + Times(damping)(dangling)
  {
    SumConstant(n, Base(n, damping, dangling));
    DivideBack(n as real, 1.0 - damping, damping * dangling);
  }

  /** One iteration maps the rank sum `s` to `1 - d + d s`; in particular it keeps 1. */
  lemma StepSum(g: Graph, damping: real, rank: seq<real>)
    requires Fits(g, rank)
    ensures Sum(Step(g, damping, rank)) == 1.0 - damping + Times(damping)(Sum(rank))
  {
    var all, n := AllSends(g, damping, rank), |rank|;
    forall j | 0 <= j < n ensures Weight(all[j]) == if g.strength[j] == 0.0 then 0.0 else Times(damping)(rank[j]) {
      SendsTotal(g, damping, rank, j);
    }
    BaseTotal(n, damping, Dangling(g.strength, rank, n));
    TimesAdditive(damping);
    SpreadSum(g.strength, rank, all, Times(damping), BaseOf(g, damping, rank), 1.0 - damping);
  }

  // -------------------------------------------------------------------------
  // Ranks stay non-negative
  // -------------------------------------------------------------------------

  lemma SendsNonNegative(g: Graph, damping: real, rank: seq<real>, i: nat)
    requires Fits(g, rank) && i < |rank| && NonNegative(rank) && damping >= 0.0
    ensures NonNegativeAdds(Sends(g, damping, rank, i))
  {
    var s := g.strength[i];
    if s != 0.0 {
      assert GoodLinks(g.links[i], |g.links|);
      WeightPositive(g.links[i], |rank|);
      QuotientNonNegative(damping, rank[i], s);
      var share := Share(damping, rank[i], s);
      forall w | w > 0.0 ensures Times(share)(w) >= 0.0 { QuotientNonNegative(share, w, 1.0); }
      AddsNonNegative(g.links[i], Times(share), |rank|);
    }
  }

  lemma BaseNonNegative(n: nat, damping: real, dangling: real)
    requires n > 0 && dangling >= 0.0 && 0.0 <= damping <= 1.0
    ensures Base(n, damping, dangling) >= 0.0
  {
    QuotientNonNegative(damping, dangling, n as real);
    QuotientNonNegative(1.0, 1.0 - damping, n as real);
  }

  lemma StepNonNegative(g: Graph, damping: real, rank: seq<real>)
    requires Fits(g, rank) && NonNegative(rank) && 0.0 <= damping <= 1.0
    ensures NonNegative(Step(g, damping, rank))
  {
    var all := AllSends(g, damping, rank);
    forall j | 0 <= j < |all| ensures NonNegativeAdds(all[j]) {
      SendsNonNegative(g, damping, rank, j);
    }
    DanglingNonNegative(g.strength, rank, |rank|);
    BaseNonNegative(|rank|, damping, Dangling(g.strength, rank, |rank|));
    SpreadNonNegative(BaseOf(g, damping, rank), all, |rank|);
  }

  // -------------------------------------------------------------------------
  // One iteration contracts the L1 distance by the damping factor
  // -------------------------------------------------------------------------

  lemma BaseApart(n: nat, damping: real, x: real, y: real)
    requires n > 0
    ensures n as real * Abs(Base(n, damping, x) - Base(n, damping, y)) == Abs(damping) * Abs(x - y)
  {
    ScaledApart(n as real, Base(n, damping, x), Base(n, damping, y));
    DivideBack(n as real, 1.0 - damping, damping * x);
    DivideBack(n as real, 1.0 - damping, damping * y);
    ScaledApart(damping, x, y);
  }

  lemma BaseDifference(n: nat, damping: real, x: real, y: real)
    requires n > 0
    ensures Sum(Constant(n, Abs(Base(n, damping, x) - Base(n, damping, y)))) == Times(Abs(damping))(Abs(x - y))
  {
    BaseApart(n, damping, x, y);
    SumConstantIs(n, Abs(Base(n, damping, x) - Base(n, damping, y)), Times(Abs(damping))(Abs(x - y)));
  }

  lemma SumConstantIs(n: nat, c: real, total: real)
    requires n as real * c == total
    ensures Sum(Constant(n, c)) == total
  {
    SumConstant(n, c);
  }

  lemma BaseDistance(n: nat, damping: real, x: real, y: real, d: real)
    requires n > 0 && Abs(x - y) <= d
    ensures L1(Constant(n, Base(n, damping, x)), Constant(n, Base(n, damping, y))) <= Times(Abs(damping))(d)
  {
    L1Constant(n, Base(n, damping, x), Base(n, damping, y));
    BaseDifference(n, damping, x, y);
    TimesMonotone(Abs(damping), Abs(x - y), d);
  }

  lemma TimesMonotone(k: real, x: real, y: real)
    requires k >= 0.0 && x <= y
    ensures Times(k)(x) <= Times(k)(y)
  {
    Distribute(k, y, -x);
  }

  /** A node's change in what it sends is its damped change in rank. */
  lemma SendsDifference(g: Graph, damping: real, a: seq<real>, b: seq<real>, i: nat)
    requires Fits(g, a) && Fits(g, b) && i < |a|
    requires SameTargets(Sends(g, damping, a, i), Sends(g, damping, b, i))
    ensures AddsL1(Sends(g, damping, a, i), Sends(g, damping, b, i))
         == if g.strength[i] == 0.0 then 0.0 else Times(Abs(damping))(Abs(a[i] - b[i]))
  {
    if g.strength[i] != 0.0 {
      assert GoodLinks(g.links[i], |g.links|);
      SendDifference(g.links[i], damping, a[i], b[i], g.strength[i], |a|);
    }
  }

  lemma SendsSameTargets(g: Graph, damping: real, a: seq<real>, b: seq<real>, i: nat)
    requires Fits(g, a) && Fits(g, b) && i < |a|
    ensures SameTargets(Sends(g, damping, a, i), Sends(g, damping, b, i))
  {
  }

  lemma SendDifference(links: seq<Link>, k: real, x: real, y: real, s: real, n: nat)
    requires GoodLinks(links, n) && s == Weight(links) && s != 0.0
    ensures AddsL1(Adds(links, Times(Share(k, x, s))), Adds(links, Times(Share(k, y, s)))) == Times(Abs(k))(Abs(x - y))
  {
    WeightPositive(links, n);
    ShareScale(k, x, y, s);
    SharesDifference(links, Share(k, x, s), Share(k, y, s), n);
  }

  lemma ShareScale(k: real, x: real, y: real, s: real)
    requires s > 0.0
    ensures Times(Abs(Share(k, x, s) - Share(k, y, s)))(s) == Times(Abs(k))(Abs(x - y))
  {
    SharesApart(k * x, k * y, s);
    ScaledApart(k, x, y);
  }

  lemma SharesDifference(links: seq<Link>, x: real, y: real, n: nat)
    requires GoodLinks(links, n)
    ensures AddsL1(Adds(links, Times(x)), Adds(links, Times(y))) == Times(Abs(x - y))(Weight(links))
  {
    TimesAdditive(Abs(x - y));
    TimesApart(x, y);
    AddsDifference(links, Times(x), Times(y), Times(Abs(x - y)), n);
  }

  lemma TimesApart(x: real, y: real)
    ensures forall w :: w > 0.0 ==> Abs(Times(x)(w) - Times(y)(w)) == Times(Abs(x - y))(w)
  {
    forall w | w > 0.0 ensures Abs(Times(x)(w) - Times(y)(w)) == Times(Abs(x - y))(w) { ScaledApart(w, x, y); }
  }

  /** For any damping factor, one iteration brings two rank vectors closer by that factor. */
  lemma StepContracts(g: Graph, damping: real, a: seq<real>, b: seq<real>)
    requires Fits(g, a) && Fits(g, b)
    ensures L1(Step(g, damping, a), Step(g, damping, b)) <= Times(Abs(damping))(L1(a, b))
  {
    var p, q, h, n := AllSends(g, damping, a), AllSends(g, damping, b), Times(Abs(damping)), |a|;
    forall j | 0 <= j < n
      ensures SameTargets(p[j], q[j]) && AddsL1(p[j], q[j]) == if g.strength[j] == 0.0 then 0.0 else h(Abs(a[j] - b[j]))
    {
      SendsSameTargets(g, damping, a, b, j);
      SendsDifference(g, damping, a, b, j);
    }
    DanglingDifference(g.strength, a, b, n);
    BaseDistance(n, damping, Dangling(g.strength, a, n), Dangling(g.strength, b, n), DanglingL1(g.strength, a, b, n));
    TimesAdditive(Abs(damping));
    AllDifferenceTotal(g.strength, a, b, p, q, h);
    L1Spread(BaseOf(g, damping, a), BaseOf(g, damping, b), p, q, n);
  }

  lemma ContractedEqual(k: real, a: seq<real>, b: seq<real>)
    requires 0.0 <= k < 1.0 && |a| == |b| && L1(a, b) <= Times(k)(L1(a, b))
    ensures a == b
  {
    ShrunkIsZero(k, L1(a, b));
    L1Zero(a, b);
  }

  lemma ShrunkIsZero(k: real, x: real)
    requires k < 1.0 && 0.0 <= x <= Times(k)(x)
    ensures x == 0.0
  {
    assert Times(k)(x) == k * x;
    NotAboveShrunk(k, x);
  }

  /** With damping below one there is at most one stationary rank vector. */
  lemma StationaryUnique(g: Graph, damping: real, a: seq<real>, b: seq<real>)
    requires Fits(g, a) && Fits(g, b) && Abs(damping) < 1.0
    requires Step(g, damping, a) == a && Step(g, damping, b) == b
    ensures a == b
  {
    StepContracts(g, damping, a, b);
    ContractedEqual(Abs(damping), a, b);
  }

  // -------------------------------------------------------------------------
  // The program
  // -------------------------------------------------------------------------

  type WeightedEdge = (str, str, real)

  method BuildGraph(edges: seq<WeightedEdge>) returns (labels: seq<str>, g: Graph)
    ensures |g.links| == |labels| && (edges != [] ==> g.Valid())
    ensures forall i, j :: 0 <= i < j < |labels| ==> labels[i] != labels[j]
    ensures forall x :: x in labels <==> exists k :: 0 <= k < |edges| && (edges[k].0 == x || edges[k].1 == x)
    ensures forall i :: 0 <= i < |labels| ==> g.links[i] == LinksOf(edges, labels, i)
  {
    labels := [];
    var index: map<str, nat> := map[];
    for k := 0 to |edges|
      invariant Interned(index, labels)
      invariant forall x :: x in labels <==> exists j :: 0 <= j < k && (edges[j].0 == x || edges[j].1 == x)
    {
      index, labels := NodeIndex(edges[k].0, index, labels);
      index, labels := NodeIndex(edges[k].1, index, labels);
    }
    forall e | e in edges ensures e.0 in labels && e.1 in labels {
      var k :| 0 <= k < |edges| && edges[k] == e;
    }
    g := CollectLinks(edges, index, labels);
    forall i | 0 <= i < |labels| ensures GoodLinks(g.links[i], |labels|) && g.strength[i] == Weight(g.links[i]) && g.links[i] == LinksOf(edges, labels, i) {
      assert LinksSoFar(edges, labels, g, i);
    }
    forall i, j | 0 <= i < j < |labels| ensures labels[i] != labels[j] { assert index[labels[i]] == i && index[labels[j]] == j; }
    if edges != [] {
      assert edges[0].0 in labels;
    }
  }

  /** What node `i` has collected from the edges. */
  ghost predicate LinksSoFar(edges: seq<WeightedEdge>, labels: seq<str>, g: Graph, i: nat)
    requires |g.links| == |g.strength| == |labels| && i < |labels|
  {
    GoodLinks(g.links[i], |labels|) && g.strength[i] == Weight(g.links[i]) && g.links[i] == LinksOf(edges, labels, i)
  }

  method CollectLinks(edges: seq<WeightedEdge>, index: map<str, nat>, labels: seq<str>) returns (g: Graph)
    requires Interned(index, labels) && forall e :: e in edges ==> e.0 in labels && e.1 in labels
    ensures |g.links| == |g.strength| == |labels| && forall i :: 0 <= i < |labels| ==> LinksSoFar(edges, labels, g, i)
  {
    var n := |labels|;
    var links: seq<seq<Link>> := seq(n, _ => []);
    var strength := seq(n, _ => 0.0);
    for k := 0 to |edges|
      invariant |links| == |strength| == n
      invariant forall i :: 0 <= i < n ==> LinksSoFar(edges[..k], labels, Graph(links, strength), i)
    {
      var (src, dst, w) := edges[k];
      assert edges[k] in edges;
      LabelIndex(index, labels, src);
      LabelIndex(index, labels, dst);
      ghost var before, upTo := Graph(links, strength), edges[..k + 1];
      if w > 0.0 {
        var si, di := index[src], index[dst];
        links := links[si := links[si] + [(di, w)]];
        strength := strength[si := strength[si] + w];
      }
      ghost var after := Graph(links, strength);
      forall i | 0 <= i < n ensures LinksSoFar(upTo, labels, after, i) {
        assert LinksSoFar(edges[..k], labels, before, i);
        LinksStep(edges, labels, k, i, before, after);
      }
    }
    assert edges[..|edges|] == edges;
    g := Graph(links, strength);
  }

  lemma LinksStep(edges: seq<WeightedEdge>, labels: seq<str>, k: nat, i: nat, before: Graph, after: Graph)
    requires k < |edges| && |before.links| == |before.strength| == |after.links| == |after.strength| == |labels| && i < |labels|
    requires LinksSoFar(edges[..k], labels, before, i)
    requires var (src, dst, w) := edges[k];
      && Position(labels, dst) < |labels|
      && if w > 0.0 && Position(labels, src) == i
         then after.links[i] == before.links[i] + [(Position(labels, dst), w)] && after.strength[i] == before.strength[i] + w
         else after.links[i] == before.links[i] && after.strength[i] == before.strength[i]
    ensures LinksSoFar(edges[..k + 1], labels, after, i)
  {
    assert edges[..k + 1][..k] == edges[..k];
    var (src, dst, w) := edges[k];
    if w > 0.0 && Position(labels, src) == i {
      assert after.links[i][..|before.links[i]|] == before.links[i];
    }
  }

  /** Position of a name among the labels; `|labels|` when it is missing. */
  function Position(labels: seq<str>, x: str): (i: nat)
    ensures i <= |labels| && (i < |labels| ==> labels[i] == x)
  {
    if labels == [] || labels[0] == x then 0 else 1 + Position(labels[1..], x)
  }

  /** The positive-weight edges leaving node `i`, in input order. */
  function LinksOf(edges: seq<WeightedEdge>, labels: seq<str>, i: nat): seq<Link> {
    if edges == [] then []
    else
      var before := LinksOf(edges[..|edges| - 1], labels, i);
      var (src, dst, w) := edges[|edges| - 1];
      if w > 0.0 && Position(labels, src) == i then before + [(Position(labels, dst), w)] else before
  }

  lemma {:induction false} PositionOf(labels: seq<str>, i: nat)
    requires i < |labels| && forall a, b :: 0 <= a < b < |labels| ==> labels[a] != labels[b]
    ensures Position(labels, labels[i]) == i
  {
    if i > 0 { PositionOf(labels[1..], i - 1); }
  }

  lemma LabelIndex(index: map<str, nat>, labels: seq<str>, x: str)
    requires Interned(index, labels) && x in labels
    ensures x in index && index[x] == Position(labels, x) < |labels|
  {
    forall a, b | 0 <= a < b < |labels| ensures labels[a] != labels[b] {
      assert index[labels[a]] == a && index[labels[b]] == b;
    }
    PositionOf(labels, index[x]);
  }

  /** One power iteration, accumulated in place. */
  method Iterate(g: Graph, damping: real, rank: seq<real>) returns (next: array<real>)
    requires Fits(g, rank)
    ensures fresh(next) && next[..] == Step(g, damping, rank)
  {
    var dangling := 0.0;
    for i := 0 to |rank|
      invariant dangling == Dangling(g.strength, rank, i)
    {
      if g.strength[i] == 0.0 {
        dangling := dangling + rank[i];
      }
    }
    next := SendAll(g, damping, rank, Base(|rank|, damping, dangling));
  }

  method SendAll(g: Graph, damping: real, rank: seq<real>, base: real) returns (next: array<real>)
    requires Fits(g, rank)
    ensures fresh(next) && next[..] == Spread(base, AllSends(g, damping, rank), |rank|)
  {
    var n := |rank|;
    ghost var all := AllSends(g, damping, rank);
    next := new real[n](_ => base);
    ConstantIs(n, base);
    assert next[..] == Constant(n, base);
    for i := 0 to n
      invariant next[..] == Spread(base, all, i)
    {
      SendFrom(g, damping, rank, i, next);
    }
  }

  method SendFrom(g: Graph, damping: real, rank: seq<real>, i: nat, next: array<real>)
    requires Fits(g, rank) && i < |rank| && next.Length == |rank|
    modifies next
    ensures next[..] == Scatter(old(next[..]), Sends(g, damping, rank, i))
  {
    if g.strength[i] != 0.0 {
      assert GoodLinks(g.links[i], |rank|);
      AddLinks(next, g.links[i], Share(damping, rank[i], g.strength[i]));
    }
  }

  method AddLinks(next: array<real>, links: seq<Link>, share: real)
    requires GoodLinks(links, next.Length)
    modifies next
    ensures next[..] == Scatter(old(next[..]), Adds(links, Times(share)))
  {
    ghost var before := next[..];
    for j := 0 to |links|
      invariant next[..] == Scatter(before, Adds(links[..j], Times(share)))
    {
      assert links[..j + 1][..j] == links[..j];
      var (di, w) := links[j];
      AddsStep(links, Times(share), j);
      var part := Times(share)(w);
      next[di] := next[di] + part;
    }
    assert links[..|links|] == links;
  }

  lemma AddsStep(links: seq<Link>, f: real -> real, j: nat)
    requires j < |links|
    ensures Adds(links[..j + 1], f) == Adds(links[..j], f) + [(links[j].0, f(links[j].1))]
  {
    assert links[..j + 1][..j] == links[..j];
  }

  method Difference(a: array<real>, b: seq<real>) returns (d: real)
    requires a.Length == |b|
    ensures d == L1(a[..], b)
  {
    d := 0.0;
    for i := 0 to |b|
      invariant d == L1(a[..i], b[..i])
    {
      assert a[..i + 1][..i] == a[..i] && b[..i + 1][..i] == b[..i];
      d := d + (if a[i] - b[i] < 0.0 then -(a[i] - b[i]) else a[i] - b[i]);
    }
    assert a[..a.Length] == a[..] && b[..|b|] == b;
  }

  /** The iterates of a run: the uniform vector and repeated steps. */
  ghost predicate IsRun(g: Graph, damping: real, trace: seq<seq<real>>) {
    && g.Valid() && trace != [] && trace[0] == Constant(|g.links|, 1.0 / |g.links| as real)
    && (forall k :: 0 <= k < |trace| ==> |trace[k]| == |g.links|)
    && (forall k :: 0 < k < |trace| ==> StepsAt(g, damping, trace, k))
  }

  ghost predicate StepsAt(g: Graph, damping: real, trace: seq<seq<real>>, k: nat)
    requires g.Valid() && 0 < k < |trace|
  {
    |trace[k - 1]| == |g.links| && trace[k] == Step(g, damping, trace[k - 1])
  }

  /** Every iterate sums to one. */
  lemma {:induction false} RunSum(g: Graph, damping: real, trace: seq<seq<real>>, k: nat)
    requires IsRun(g, damping, trace) && k < |trace|
    ensures Sum(trace[k]) == 1.0
  {
    if k == 0 {
      UniformSum(|g.links|);
    } else {
      RunSum(g, damping, trace, k - 1);
      assert StepsAt(g, damping, trace, k);
      StepKeepsOne(g, damping, trace[k - 1]);
    }
  }

  lemma StepKeepsOne(g: Graph, damping: real, rank: seq<real>)
    requires Fits(g, rank) && Sum(rank) == 1.0
    ensures Sum(Step(g, damping, rank)) == 1.0
  {
    StepSum(g, damping, rank);
    assert Times(damping)(1.0) == damping;
  }

  lemma UniformSum(n: nat)
    requires n > 0
    ensures Sum(Constant(n, 1.0 / n as real)) == 1.0
  {
    SumConstant(n, 1.0 / n as real);
  }

  /** For damping in [0, 1] no iterate has a negative rank. */
  lemma {:induction false} RunNonNegative(g: Graph, damping: real, trace: seq<seq<real>>, k: nat)
    requires IsRun(g, damping, trace) && k < |trace| && 0.0 <= damping <= 1.0
    ensures NonNegative(trace[k])
  {
    if k == 0 {
      ConstantIs(|g.links|, 1.0 / |g.links| as real);
    } else {
      RunNonNegative(g, damping, trace, k - 1);
      assert StepsAt(g, damping, trace, k);
      StepNonNegative(g, damping, trace[k - 1]);
    }
  }

  /** Successive changes shrink by the damping factor. */
  lemma RunContracts(g: Graph, damping: real, trace: seq<seq<real>>, k: nat)
    requires IsRun(g, damping, trace) && k + 2 < |trace|
    ensures L1(trace[k + 2], trace[k + 1]) <= Times(Abs(damping))(L1(trace[k + 1], trace[k]))
  {
    assert StepsAt(g, damping, trace, k + 1) && StepsAt(g, damping, trace, k + 2);
    StepContracts(g, damping, trace[k + 1], trace[k]);
  }

  /** Descending score, then ascending name. */
  predicate RanksBefore(x: (str, real), y: (str, real)) {
    x.1 > y.1 || (x.1 == y.1 && Le(x.0, y.0))
  }

  lemma RanksBeforeTotal()
    ensures Sorting.TotalPreorder(RanksBefore)
  {
    forall x: (str, real), y: (str, real) ensures RanksBefore(x, y) || RanksBefore(y, x) {
      LtTotal(x.0, y.0);
    }
    forall x: (str, real), y: (str, real), z: (str, real) | RanksBefore(x, y) && RanksBefore(y, z) ensures RanksBefore(x, z) {
      if x.1 == y.1 == z.1 { LeLtTransitive(x.0, y.0, z.0); }
    }
  }

  lemma RunExtended(g: Graph, damping: real, trace: seq<seq<real>>, next: seq<real>)
    requires IsRun(g, damping, trace) && next == Step(g, damping, trace[|trace| - 1])
    ensures IsRun(g, damping, trace + [next])
  {
    var longer := trace + [next];
    forall k | 0 < k < |longer| ensures StepsAt(g, damping, longer, k) {
      if k < |trace| { assert StepsAt(g, damping, trace, k); }
    }
  }

  /** None of the first changes, up to vector `n`, is below `tolerance`. */
  ghost predicate Moving(trace: seq<seq<real>>, tolerance: real, n: nat)
    requires n <= |trace|
  {
    forall k :: 0 < k < n ==> MovesAt(trace, tolerance, k)
  }

  ghost predicate MovesAt(trace: seq<seq<real>>, tolerance: real, k: nat)
    requires 0 < k < |trace|
  {
    |trace[k]| == |trace[k - 1]| && L1(trace[k], trace[k - 1]) >= tolerance
  }

  lemma StillMoving(trace: seq<seq<real>>, next: seq<real>, tolerance: real)
    requires Moving(trace, tolerance, |trace|)
    ensures Moving(trace + [next], tolerance, |trace|)
  {
    var longer := trace + [next];
    forall k | 0 < k < |trace| ensures MovesAt(longer, tolerance, k) {
      assert MovesAt(trace, tolerance, k);
    }
  }

  /** A run of at most `limit` steps that stops at the first change below `tolerance`. */
  ghost predicate Stopped(g: Graph, damping: real, limit: nat, tolerance: real, trace: seq<seq<real>>) {
    && IsRun(g, damping, trace) && |trace| <= limit + 1 && Moving(trace, tolerance, |trace| - 1)
    && (|trace| <= limit ==> |trace| > 1 && L1(trace[|trace| - 1], trace[|trace| - 2]) < tolerance)
  }

  method Power(g: Graph, damping: real, maxIterations: nat, tolerance: real) returns (rank: seq<real>)
    requires g.Valid()
    ensures exists trace :: Stopped(g, damping, maxIterations, tolerance, trace) && rank == trace[|trace| - 1]
  {
    rank := Uniform(|g.links|);
    ghost var trace := [rank];
    for i := 0 to maxIterations
      invariant IsRun(g, damping, trace) && |trace| == i + 1 && rank == trace[i]
      invariant Moving(trace, tolerance, |trace|)
    {
      var next, diff := StepAndDifference(g, damping, rank);
      RunExtended(g, damping, trace, next);
      StillMoving(trace, next, tolerance);
      trace := trace + [next];
      rank := next;
      if diff < tolerance {
        assert Stopped(g, damping, maxIterations, tolerance, trace);
        return;
      }
      assert MovesAt(trace, tolerance, i + 1);
    }
    assert Stopped(g, damping, maxIterations, tolerance, trace);
  }

  method StepAndDifference(g: Graph, damping: real, rank: seq<real>) returns (next: seq<real>, diff: real)
    requires Fits(g, rank)
    ensures next == Step(g, damping, rank) && diff == L1(next, rank)
  {
    var a := Iterate(g, damping, rank);
    diff := Difference(a, rank);
    next := a[..];
  }

  /** The graph of the edges over distinct labels for exactly their ends. */
  ghost predicate BuiltFrom(edges: seq<WeightedEdge>, labels: seq<str>, g: Graph) {
    && g.Valid() && |g.links| == |labels|
    && (forall i, j :: 0 <= i < j < |labels| ==> labels[i] != labels[j])
    && (forall x :: x in labels <==> exists k :: 0 <= k < |edges| && (edges[k].0 == x || edges[k].1 == x))
    && forall i :: 0 <= i < |labels| ==> g.links[i] == LinksOf(edges, labels, i)
  }

  /** `result` pairs the labels with the last vector of a run, by descending score, then name. */
  ghost predicate Ranks(edges: seq<WeightedEdge>, damping: real, limit: nat, tolerance: real, labels: seq<str>, g: Graph, trace: seq<seq<real>>, result: seq<(str, real)>) {
    && BuiltFrom(edges, labels, g) && Stopped(g, damping, limit, tolerance, trace)
    && multiset(result) == multiset(Zipped(labels, trace[|trace| - 1])) && Sorting.SortedBy(result, RanksBefore)
  }

  method ComputePageRank(edges: seq<WeightedEdge>, damping: real, maxIterations: nat, tolerance: real) returns (result: seq<(str, real)>)
    ensures edges == [] ==> result == []
    ensures edges != [] ==> exists labels, g, trace :: Ranks(edges, damping, maxIterations, tolerance, labels, g, trace, result)
  {
    var labels, g := BuildGraph(edges);
    if edges != [] { assert edges[0].0 in labels; }
    if |labels| == 0 {
      return [];
    }
    assert labels[0] in labels;
    var rank := Power(g, damping, maxIterations, tolerance);
    ghost var trace :| Stopped(g, damping, maxIterations, tolerance, trace) && rank == trace[|trace| - 1];
    result := Ranked(labels, rank);
    assert Ranks(edges, damping, maxIterations, tolerance, labels, g, trace, result);
  }

  ghost function TotalScore(result: seq<(str, real)>): real {
    if result == [] then 0.0 else TotalScore(result[..|result| - 1]) + result[|result| - 1].1
  }

  lemma {:induction false} TotalWithout(s: seq<(str, real)>, j: nat)
    requires j < |s|
    ensures TotalScore(s) == TotalScore(s[..j] + s[j + 1..]) + s[j].1
  {
    var n := |s| - 1;
    if j == n {
      assert s[..j] + s[j + 1..] == s[..n];
    } else {
      TotalWithout(s[..n], j);
      var rest := s[..j] + s[j + 1..];
      assert s[..n][..j] == s[..j] && rest[..n - 1] == s[..j] + s[..n][j + 1..] && rest[n - 1] == s[n];
    }
  }

  /** The total does not depend on the order. */
  lemma {:induction false} TotalPermuted(s: seq<(str, real)>, r: seq<(str, real)>)
    requires multiset(s) == multiset(r)
    ensures TotalScore(s) == TotalScore(r)
    decreases |s|
  {
    if s == [] {
      assert |multiset(r)| == |multiset(s)| && r == [];
    } else {
      var n := |s| - 1;
      assert s == s[..n] + [s[n]];
      assert s[n] in multiset(r);
      var j :| 0 <= j < |r| && r[j] == s[n];
      Sorting.RemoveAt(r, j);
      TotalWithout(r, j);
      var rest := r[..j] + r[j + 1..];
      assert multiset(s[..n]) == multiset(s) - multiset{s[n]};
      assert multiset(rest) == multiset(r) - multiset{r[j]};
      TotalPermuted(s[..n], rest);
    }
  }

  lemma {:induction false} TotalZipped(labels: seq<str>, rank: seq<real>)
    requires |labels| == |rank|
    ensures TotalScore(Zipped(labels, rank)) == Sum(rank)
  {
    if labels != [] {
      var n := |labels| - 1;
      TotalZipped(labels[..n], rank[..n]);
      assert Zipped(labels, rank)[..n] == Zipped(labels[..n], rank[..n]);
    }
  }

  /** Every node is ranked, once; the scores sum to one, and for damping in [0, 1] none is negative. */
  lemma ScoresSumToOne(edges: seq<WeightedEdge>, damping: real, limit: nat, tolerance: real, labels: seq<str>, g: Graph, trace: seq<seq<real>>, result: seq<(str, real)>)
    requires Ranks(edges, damping, limit, tolerance, labels, g, trace, result)
    ensures TotalScore(result) == 1.0 && |result| == |labels|
    ensures forall x :: x in labels <==> exists p :: p in result && p.0 == x
    ensures 0.0 <= damping <= 1.0 ==> forall p :: p in result ==> p.1 >= 0.0
  {
    RunScores(g, damping, trace, labels, result);
  }

  lemma RunScores(g: Graph, damping: real, trace: seq<seq<real>>, labels: seq<str>, result: seq<(str, real)>)
    requires IsRun(g, damping, trace) && |labels| == |g.links|
    requires multiset(result) == multiset(Zipped(labels, trace[|trace| - 1]))
    ensures TotalScore(result) == 1.0 && |result| == |labels|
    ensures forall x :: x in labels <==> exists p :: p in result && p.0 == x
    ensures 0.0 <= damping <= 1.0 ==> forall p :: p in result ==> p.1 >= 0.0
  {
    var rank := trace[|trace| - 1];
    var zipped := Zipped(labels, rank);
    RunSum(g, damping, trace, |trace| - 1);
    TotalZipped(labels, rank);
    TotalPermuted(result, zipped);
    RankedOnce(labels, rank, result);
    if 0.0 <= damping <= 1.0 {
      RunNonNegative(g, damping, trace, |trace| - 1);
      forall p | p in result ensures p.1 >= 0.0 {
        var i :| 0 <= i < |labels| && p == (labels[i], rank[i]);
      }
    }
  }

  /** Sorting loses no node and invents none. */
  lemma RankedOnce(labels: seq<str>, rank: seq<real>, result: seq<(str, real)>)
    requires |labels| == |rank| && multiset(result) == multiset(Zipped(labels, rank))
    ensures |result| == |labels|
    ensures forall p :: p in result <==> exists i :: 0 <= i < |labels| && p == (labels[i], rank[i])
    ensures forall x :: x in labels <==> exists p :: p in result && p.0 == x
  {
    var zipped := Zipped(labels, rank);
    Sorting.SameMembers(result, zipped);
    assert |multiset(result)| == |multiset(zipped)|;
    forall p ensures p in result <==> exists i :: 0 <= i < |labels| && p == (labels[i], rank[i]) {
      if p in zipped { var i :| 0 <= i < |zipped| && zipped[i] == p; }
      if i :| 0 <= i < |labels| && p == (labels[i], rank[i]) { assert zipped[i] == p; }
    }
    forall x ensures x in labels <==> exists p :: p in result && p.0 == x {
      if x in labels {
        var i :| 0 <= i < |labels| && labels[i] == x;
        assert (labels[i], rank[i]) in result;
      }
    }
  }

  method Ranked(labels: seq<str>, rank: seq<real>) returns (result: seq<(str, real)>)
    requires |labels| == |rank|
    ensures multiset(result) == multiset(Zipped(labels, rank)) && Sorting.SortedBy(result, RanksBefore)
  {
    var zipped := Zipped(labels, rank);
    RanksBeforeTotal();
    Sorting.SortSorted(zipped, RanksBefore);
    result := Sorting.Sort(zipped, RanksBefore);
  }

  method Uniform(n: nat) returns (rank: seq<real>)
    requires n > 0
    ensures rank == Constant(n, 1.0 / n as real)
  {
    rank := [];
    for i := 0 to n
      invariant rank == Constant(i, 1.0 / n as real)
    {
      rank := rank + [1.0 / n as real];
    }
  }

  function Zipped(labels: seq<str>, rank: seq<real>): (z: seq<(str, real)>)
    requires |labels| == |rank|
  {
    seq(|labels|, i requires 0 <= i < |labels| => (labels[i], rank[i]))
  }
}
