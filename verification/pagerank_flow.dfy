/** Where rank goes (crates/graph/src/pagerank.rs): one iteration node by node, in terms of the input edges. */
module PageRankFlow {
  import opened Bytes
  import opened RankVectors
  import opened PageRank
  import Sorting

  // -------------------------------------------------------------------------
  // One iteration, read off the edges
  // -------------------------------------------------------------------------

  /** The positive weight leaving a node. */
  function OutStrength(edges: seq<WeightedEdge>, x: str): real {
    if edges == [] then 0.0
    else
      var (src, _, w) := edges[|edges| - 1];
      OutStrength(edges[..|edges| - 1], x) + (if w > 0.0 && src == x then w else 0.0)
  }

  /** The rank of a named node. */
  function RankOf(labels: seq<str>, rank: seq<real>, x: str): real
    requires |labels| == |rank|
  {
    if Position(labels, x) < |labels| then rank[Position(labels, x)] else 0.0
  }

  /** The damped rank of the source, in proportion to the weight of the edge. */
  function EdgeFlow(damping: real, rank: real, w: real, strength: real): real {
    if strength == 0.0 then 0.0 else damping * rank * w / strength
  }

  /** What flows into a node along `edges`, a part of `all`. */
  function Inflow(edges: seq<WeightedEdge>, all: seq<WeightedEdge>, damping: real, labels: seq<str>, rank: seq<real>, x: str): real
    requires |labels| == |rank|
  {
    if edges == [] then 0.0
    else
      var (src, dst, w) := edges[|edges| - 1];
      Inflow(edges[..|edges| - 1], all, damping, labels, rank, x)
      + (if w > 0.0 && dst == x then EdgeFlow(damping, RankOf(labels, rank, src), w, OutStrength(all, src)) else 0.0)
  }

  /** The rank of the first `i` nodes that no positive weight leaves. */
  function DanglingRank(edges: seq<WeightedEdge>, labels: seq<str>, rank: seq<real>, i: nat): real
    requires i <= |labels| == |rank|
  {
    if i == 0 then 0.0
    else DanglingRank(edges, labels, rank, i - 1) + (if OutStrength(edges, labels[i - 1]) == 0.0 then rank[i - 1] else 0.0)
  }

  // -------------------------------------------------------------------------
  // What one node receives
  // -------------------------------------------------------------------------

  function Received(adds: seq<Link>, j: nat): real {
    if adds == [] then 0.0
    else Received(adds[..|adds| - 1], j) + (if adds[|adds| - 1].0 == j then adds[|adds| - 1].1 else 0.0)
  }

  function ReceivedFrom(all: seq<seq<Link>>, i: nat, j: nat): real
    requires i <= |all|
  {
    if i == 0 then 0.0 else ReceivedFrom(all, i - 1, j) + Received(all[i - 1], j)
  }

  lemma {:induction false} ScatterAt(next: seq<real>, adds: seq<Link>, j: nat)
    requires InRange(adds, |next|) && j < |next|
    ensures Scatter(next, adds)[j] == next[j] + Received(adds, j)
  {
    if adds != [] { ScatterAt(next, adds[..|adds| - 1], j); }
  }

  lemma {:induction false} SpreadAt(base: real, all: seq<seq<Link>>, i: nat, j: nat)
    requires i <= |all| && AllInRange(all) && j < |all|
    ensures Spread(base, all, i)[j] == base + ReceivedFrom(all, i, j)
  {
    if i == 0 {
      ConstantIs(|all|, base);
    } else {
      SpreadAt(base, all, i - 1, j);
      ScatterAt(Spread(base, all, i - 1), all[i - 1], j);
    }
  }

  // -------------------------------------------------------------------------
  // Summing over edges instead of over nodes
  // -------------------------------------------------------------------------

  /** How much node `i` sends along a link of weight `w`. */
  type Sending = (nat, real) -> real

  /** What goes from node `i` to node `j` along `edges`. */
  function Between(edges: seq<WeightedEdge>, labels: seq<str>, i: nat, j: nat, f: Sending): real {
    if edges == [] then 0.0
    else Between(edges[..|edges| - 1], labels, i, j, f) + AlongFrom(edges[|edges| - 1], labels, i, j, f)
  }

  function AlongFrom(e: WeightedEdge, labels: seq<str>, i: nat, j: nat, f: Sending): real {
    if e.2 > 0.0 && Position(labels, e.0) == i && Position(labels, e.1) == j then f(i, e.2) else 0.0
  }

  /** From the first `i` nodes to node `j`. */
  function Into(edges: seq<WeightedEdge>, labels: seq<str>, i: nat, j: nat, f: Sending): real {
    if i == 0 then 0.0 else Into(edges, labels, i - 1, j, f) + Between(edges, labels, i - 1, j, f)
  }

  /** The same, edge by edge. */
  function IntoByEdge(edges: seq<WeightedEdge>, labels: seq<str>, n: nat, j: nat, f: Sending): real {
    if edges == [] then 0.0
    else IntoByEdge(edges[..|edges| - 1], labels, n, j, f) + Along(edges[|edges| - 1], labels, n, j, f)
  }

  function Along(e: WeightedEdge, labels: seq<str>, n: nat, j: nat, f: Sending): real {
    if Position(labels, e.0) < n then AlongFrom(e, labels, Position(labels, e.0), j, f) else 0.0
  }

  lemma {:induction false} IntoNone(labels: seq<str>, n: nat, j: nat, f: Sending)
    ensures Into([], labels, n, j, f) == 0.0
  {
    if n > 0 { IntoNone(labels, n - 1, j, f); }
  }

  lemma {:induction false} IntoStep(edges: seq<WeightedEdge>, labels: seq<str>, n: nat, j: nat, f: Sending)
    requires edges != []
    ensures Into(edges, labels, n, j, f) == Into(edges[..|edges| - 1], labels, n, j, f) + Along(edges[|edges| - 1], labels, n, j, f)
  {
    if n > 0 { IntoStep(edges, labels, n - 1, j, f); }
  }

  lemma {:induction false} IntoIsByEdge(edges: seq<WeightedEdge>, labels: seq<str>, n: nat, j: nat, f: Sending)
    ensures Into(edges, labels, n, j, f) == IntoByEdge(edges, labels, n, j, f)
  {
    if edges == [] {
      IntoNone(labels, n, j, f);
    } else {
      IntoStep(edges, labels, n, j, f);
      IntoIsByEdge(edges[..|edges| - 1], labels, n, j, f);
    }
  }

  // -------------------------------------------------------------------------
  // The links of the built graph are the edges
  // -------------------------------------------------------------------------

  /** What each node of the graph sends along a link. */
  ghost function SendingOf(g: Graph, damping: real, rank: seq<real>): Sending
    requires Fits(g, rank)
  {
    (i: nat, w: real) => if i < |rank| == |g.strength| && g.strength[i] != 0.0 then Times(Share(damping, rank[i], g.strength[i]))(w) else 0.0
  }

  lemma {:induction false} ReceivedLinks(edges: seq<WeightedEdge>, labels: seq<str>, i: nat, j: nat, f: Sending, h: real -> real)
    requires forall w :: f(i, w) == h(w)
    ensures Received(Adds(LinksOf(edges, labels, i), h), j) == Between(edges, labels, i, j, f)
  {
    if edges != [] {
      var init, e := edges[..|edges| - 1], edges[|edges| - 1];
      ReceivedLinks(init, labels, i, j, f, h);
      if e.2 > 0.0 && Position(labels, e.0) == i {
        var links := LinksOf(init, labels, i);
        var adds := Adds(links + [(Position(labels, e.1), e.2)], h);
        assert (links + [(Position(labels, e.1), e.2)])[..|links|] == links;
        assert adds[..|links|] == Adds(links, h);
      }
    }
  }

  lemma {:induction false} NothingLeaves(edges: seq<WeightedEdge>, labels: seq<str>, i: nat, j: nat, f: Sending)
    requires LinksOf(edges, labels, i) == []
    ensures Between(edges, labels, i, j, f) == 0.0
  {
    if edges != [] { NothingLeaves(edges[..|edges| - 1], labels, i, j, f); }
  }

  lemma NodeReceives(edges: seq<WeightedEdge>, labels: seq<str>, g: Graph, damping: real, rank: seq<real>, i: nat, j: nat)
    requires BuiltFrom(edges, labels, g) && Fits(g, rank) && i < |rank|
    ensures Received(Sends(g, damping, rank, i), j) == Between(edges, labels, i, j, SendingOf(g, damping, rank))
  {
    var f := SendingOf(g, damping, rank);
    if g.strength[i] == 0.0 {
      WeightPositive(g.links[i], |g.links|);
      NothingLeaves(edges, labels, i, j, f);
    } else {
      ReceivedLinks(edges, labels, i, j, f, Times(Share(damping, rank[i], g.strength[i])));
    }
  }

  lemma {:induction false} NodesReceive(all: seq<seq<Link>>, edges: seq<WeightedEdge>, labels: seq<str>, i: nat, j: nat, f: Sending)
    requires i <= |all| && forall k :: 0 <= k < i ==> Received(all[k], j) == Between(edges, labels, k, j, f)
    ensures ReceivedFrom(all, i, j) == Into(edges, labels, i, j, f)
  {
    if i > 0 { NodesReceive(all, edges, labels, i - 1, j, f); }
  }

  /** All of what node `j` receives, edge by edge. */
  lemma ReceivedIsInflow(edges: seq<WeightedEdge>, labels: seq<str>, g: Graph, damping: real, rank: seq<real>, j: nat)
    requires BuiltFrom(edges, labels, g) && Fits(g, rank) && j < |labels|
    ensures ReceivedFrom(AllSends(g, damping, rank), |rank|, j) == Inflow(edges, edges, damping, labels, rank, labels[j])
  {
    var all, f := AllSends(g, damping, rank), SendingOf(g, damping, rank);
    forall k | 0 <= k < |rank| ensures Received(all[k], j) == Between(edges, labels, k, j, f) {
      NodeReceives(edges, labels, g, damping, rank, k, j);
    }
    NodesReceive(all, edges, labels, |rank|, j, f);
    IntoIsByEdge(edges, labels, |rank|, j, f);
    ByEdgeIsInflow(edges, edges, labels, g, damping, rank, j);
  }

  ghost predicate Distinct(labels: seq<str>) {
    forall i, j :: 0 <= i < j < |labels| ==> labels[i] != labels[j]
  }

  lemma {:induction false} StrengthIs(edges: seq<WeightedEdge>, labels: seq<str>, i: nat)
    requires Distinct(labels) && i < |labels|
    ensures Weight(LinksOf(edges, labels, i)) == OutStrength(edges, labels[i])
  {
    if edges != [] {
      var init, e := edges[..|edges| - 1], edges[|edges| - 1];
      StrengthIs(init, labels, i);
      PositionOf(labels, i);
      if e.2 > 0.0 && e.0 == labels[i] {
        var links := LinksOf(init, labels, i);
        assert (links + [(Position(labels, e.1), e.2)])[..|links|] == links;
      }
    }
  }

  lemma GraphStrength(edges: seq<WeightedEdge>, labels: seq<str>, g: Graph, i: nat)
    requires BuiltFrom(edges, labels, g) && i < |labels|
    ensures g.strength[i] == OutStrength(edges, labels[i])
  {
    StrengthIs(edges, labels, i);
  }

  lemma {:induction false} DanglingIs(edges: seq<WeightedEdge>, labels: seq<str>, g: Graph, rank: seq<real>, i: nat)
    requires BuiltFrom(edges, labels, g) && Fits(g, rank) && i <= |rank|
    ensures Dangling(g.strength, rank, i) == DanglingRank(edges, labels, rank, i)
  {
    if i > 0 {
      DanglingIs(edges, labels, g, rank, i - 1);
      GraphStrength(edges, labels, g, i - 1);
    }
  }

  lemma {:induction false} OutStrengthPositive(edges: seq<WeightedEdge>, x: str)
    ensures OutStrength(edges, x) >= 0.0
    ensures OutStrength(edges, x) == 0.0 <==> forall e :: e in edges && e.2 > 0.0 ==> e.0 != x
  {
    if edges != [] {
      var init, e := edges[..|edges| - 1], edges[|edges| - 1];
      OutStrengthPositive(init, x);
      assert edges == init + [e];
    }
  }

  lemma SharedOut(d: real, r: real, w: real, s: real)
    requires s != 0.0
    ensures Times(Share(d, r, s))(w) == EdgeFlow(d, r, w, s)
  {
    var q := d * r / s;
    assert q * s == d * r;
    assert (q * w) * s == d * r * w;
    Cancelled(q * w, d * r * w, s);
  }

  lemma Cancelled(x: real, y: real, s: real)
    requires s != 0.0 && x * s == y
    ensures x == y / s
  {
  }

  /** An edge carries what its source sends. */
  lemma AlongIs(e: WeightedEdge, edges: seq<WeightedEdge>, labels: seq<str>, g: Graph, damping: real, rank: seq<real>, j: nat)
    requires BuiltFrom(edges, labels, g) && Fits(g, rank) && e in edges && j < |labels|
    ensures Along(e, labels, |labels|, j, SendingOf(g, damping, rank))
      == if e.2 > 0.0 && e.1 == labels[j] then EdgeFlow(damping, RankOf(labels, rank, e.0), e.2, OutStrength(edges, e.0)) else 0.0
  {
    var k :| 0 <= k < |edges| && edges[k] == e;
    assert e.0 in labels && e.1 in labels;
    var a: nat :| a < |labels| && labels[a] == e.0;
    var b: nat :| b < |labels| && labels[b] == e.1;
    PositionOf(labels, a);
    PositionOf(labels, b);
    PositionOf(labels, j);
    GraphStrength(edges, labels, g, a);
    if g.strength[a] != 0.0 { SharedOut(damping, rank[a], e.2, g.strength[a]); }
  }

  lemma {:induction false} ByEdgeIsInflow(part: seq<WeightedEdge>, edges: seq<WeightedEdge>, labels: seq<str>, g: Graph, damping: real, rank: seq<real>, j: nat)
    requires BuiltFrom(edges, labels, g) && Fits(g, rank) && j < |labels| && forall e :: e in part ==> e in edges
    ensures IntoByEdge(part, labels, |labels|, j, SendingOf(g, damping, rank)) == Inflow(part, edges, damping, labels, rank, labels[j])
  {
    if part != [] {
      ByEdgeIsInflow(part[..|part| - 1], edges, labels, g, damping, rank, j);
      AlongIs(part[|part| - 1], edges, labels, g, damping, rank, j);
    }
  }

  /** The new rank of a node: an equal share of the teleport and of the dangling rank, and what flows in along its edges. */
  lemma StepAt(edges: seq<WeightedEdge>, labels: seq<str>, g: Graph, damping: real, rank: seq<real>, j: nat)
    requires BuiltFrom(edges, labels, g) && Fits(g, rank) && j < |labels|
    ensures Step(g, damping, rank)[j] == Base(|labels|, damping, DanglingRank(edges, labels, rank, |labels|)) + Inflow(edges, edges, damping, labels, rank, labels[j])
  {
    SpreadAt(BaseOf(g, damping, rank), AllSends(g, damping, rank), |rank|, j);
    ReceivedIsInflow(edges, labels, g, damping, rank, j);
    DanglingIs(edges, labels, g, rank, |labels|);
  }

  // -------------------------------------------------------------------------
  // The order of the result
  // -------------------------------------------------------------------------

  lemma ZippedOnce(labels: seq<str>, rank: seq<real>, result: seq<(str, real)>)
    requires |labels| == |rank| && Distinct(labels) && multiset(result) == multiset(Zipped(labels, rank))
    ensures forall i, j :: 0 <= i < j < |result| ==> result[i].0 != result[j].0
  {
    RankedOnce(labels, rank, result);
    forall i, j | 0 <= i < j < |result| ensures result[i].0 != result[j].0 {
      assert result[i] in result && result[j] in result;
      if result[i] == result[j] {
        Sorting.TwiceCounts(result, i, j);
        Sorting.NoRepeatCounts(Zipped(labels, rank), result[i]);
      }
    }
  }

  /** Greater scores come first, and of equal scores the smaller name. */
  lemma ScoresDescend(edges: seq<WeightedEdge>, damping: real, limit: nat, tolerance: real, labels: seq<str>, g: Graph, trace: seq<seq<real>>, result: seq<(str, real)>)
    requires Ranks(edges, damping, limit, tolerance, labels, g, trace, result)
    ensures forall i, j :: 0 <= i < j < |result| ==> result[i].1 > result[j].1 || (result[i].1 == result[j].1 && Lt(result[i].0, result[j].0))
  {
    ZippedOnce(labels, trace[|trace| - 1], result);
    forall i, j | 0 <= i < j < |result| ensures result[i].1 > result[j].1 || (result[i].1 == result[j].1 && Lt(result[i].0, result[j].0)) {
      assert RanksBefore(result[i], result[j]);
    }
  }

  // -------------------------------------------------------------------------
  // Unlinked nodes come last
  // -------------------------------------------------------------------------

  predicate Entered(edges: seq<WeightedEdge>, x: str) {
    exists e :: e in edges && e.2 > 0.0 && e.1 == x
  }

  lemma FlowNonNegative(d: real, r: real, w: real, s: real)
    requires d >= 0.0 && r >= 0.0 && w > 0.0 && s >= 0.0
    ensures EdgeFlow(d, r, w, s) >= 0.0
  {
    if s > 0.0 {
      QuotientNonNegative(d, r, 1.0);
      QuotientNonNegative(d * r, w, s);
    }
  }

  lemma {:induction false} InflowSign(part: seq<WeightedEdge>, edges: seq<WeightedEdge>, damping: real, labels: seq<str>, rank: seq<real>, x: str)
    requires |labels| == |rank| && NonNegative(rank) && damping >= 0.0
    ensures Inflow(part, edges, damping, labels, rank, x) >= 0.0
    ensures !Entered(part, x) ==> Inflow(part, edges, damping, labels, rank, x) == 0.0
  {
    if part != [] {
      var init, e := part[..|part| - 1], part[|part| - 1];
      InflowSign(init, edges, damping, labels, rank, x);
      OutStrengthPositive(edges, e.0);
      if e.2 > 0.0 && e.1 == x {
        assert Entered(part, x);
        FlowNonNegative(damping, RankOf(labels, rank, e.0), e.2, OutStrength(edges, e.0));
      } else {
        assert Entered(init, x) ==> Entered(part, x);
        assert part == init + [e];
      }
    }
  }

  /** After any number of iterations a node that no positive edge enters ranks no higher than any other. */
  lemma UnlinkedRanksLast(edges: seq<WeightedEdge>, labels: seq<str>, g: Graph, damping: real, trace: seq<seq<real>>, t: nat, i: nat, j: nat)
    requires BuiltFrom(edges, labels, g) && IsRun(g, damping, trace) && 0.0 <= damping <= 1.0
    requires t < |trace| && i < |labels| && j < |labels| && !Entered(edges, labels[i])
    ensures trace[t][i] <= trace[t][j]
  {
    if t == 0 {
      ConstantIs(|g.links|, 1.0 / |g.links| as real);
    } else {
      assert StepsAt(g, damping, trace, t);
      RunNonNegative(g, damping, trace, t - 1);
      StepUnlinkedLast(edges, labels, g, damping, trace[t - 1], i, j);
    }
  }

  lemma StepUnlinkedLast(edges: seq<WeightedEdge>, labels: seq<str>, g: Graph, damping: real, rank: seq<real>, i: nat, j: nat)
    requires BuiltFrom(edges, labels, g) && Fits(g, rank) && NonNegative(rank) && damping >= 0.0
    requires i < |labels| && j < |labels| && !Entered(edges, labels[i])
    ensures Step(g, damping, rank)[i] <= Step(g, damping, rank)[j]
  {
    StepAt(edges, labels, g, damping, rank, i);
    StepAt(edges, labels, g, damping, rank, j);
    InflowSign(edges, edges, damping, labels, rank, labels[i]);
    InflowSign(edges, edges, damping, labels, rank, labels[j]);
  }

  /** So a node that no positive edge enters scores no more than any other. */
  lemma UnlinkedScoresLeast(edges: seq<WeightedEdge>, damping: real, limit: nat, tolerance: real, labels: seq<str>, g: Graph, trace: seq<seq<real>>, result: seq<(str, real)>)
    requires Ranks(edges, damping, limit, tolerance, labels, g, trace, result) && 0.0 <= damping <= 1.0
    ensures forall p, q :: p in result && q in result && !Entered(edges, p.0) ==> p.1 <= q.1
  {
    var last := |trace| - 1;
    RankedOnce(labels, trace[last], result);
    forall p, q | p in result && q in result && !Entered(edges, p.0) ensures p.1 <= q.1 {
      var i: nat :| i < |labels| && p == (labels[i], trace[last][i]);
      var j: nat :| j < |labels| && q == (labels[j], trace[last][j]);
      UnlinkedRanksLast(edges, labels, g, damping, trace, last, i, j);
    }
  }
}
