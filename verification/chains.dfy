/** The three-node chain used in examples, and single passes over three nodes. */
module Chains {
  import opened Bytes
  import opened Grouping
  import opened Sweeps
  import opened Louvain
  import LouvainRun

  /** One pass over three nodes. */
  lemma OnePass(visit: Visit, nodes: seq<str>, a: str, b: str, c: str, start: Assignment, passes: seq<seq<Assignment>>) returns (p: Assignment, q: Assignment)
    requires Passes(visit, nodes, start, passes, 1) && Increasing(nodes)
    requires Lt(a, b) && Lt(b, c) && forall x :: x in nodes <==> x in [a, b, c]
    ensures nodes == [a, b, c]
    ensures visit(start, a, p) && visit(p, b, q) && visit(q, c, After(start, passes))
  {
    LtTransitive(a, b, c);
    SameListing(nodes, [a, b, c]);
    assert |passes| == 1;
    assert PassAt(visit, [a, b, c], start, passes, 0);
    var steps := passes[0];
    assert passes[..0] == [];
    assert VisitAt(visit, [a, b, c], steps, 0) && VisitAt(visit, [a, b, c], steps, 1) && VisitAt(visit, [a, b, c], steps, 2);
    p, q := steps[1], steps[2];
  }

  /** One pass over the nodes of the edges, each alone at first. */
  ghost predicate PassesOnce(visit: Visit, edges: seq<Edge>, nodes: seq<str>, passes: seq<seq<Assignment>>) {
    && Increasing(nodes) && (forall x :: x in nodes <==> x in Nodes(edges))
    && Passes(visit, nodes, Singletons(Nodes(edges)), passes, 1)
  }

  lemma PassOfThree(visit: Visit, edges: seq<Edge>, a: str, b: str, c: str, nodes: seq<str>, passes: seq<seq<Assignment>>, final: Assignment)
    returns (p: Assignment, q: Assignment)
    requires Lt(a, b) && Lt(b, c) && Nodes(edges) == {a, b, c}
    requires PassesOnce(visit, edges, nodes, passes) && final == After(Singletons(Nodes(edges)), passes)
    ensures visit(map[a := a, b := b, c := c], a, p) && visit(p, b, q) && visit(q, c, final)
  {
    var start := Singletons(Nodes(edges));
    assert start == map[a := a, b := b, c := c];
    p, q := OnePass(visit, nodes, a, b, c, start, passes);
  }

  lemma VolumeGrows(edges: seq<Edge>, e: Edge, s: set<str>)
    requires e.0 != e.1
    ensures Volume(edges + [e], s) == Volume(edges, s) + (if e.0 in s then e.2 else 0.0) + (if e.1 in s then e.2 else 0.0)
    ensures TotalWeight(edges + [e]) == TotalWeight(edges) + e.2
  {
    assert (edges + [e])[..|edges|] == edges;
  }

  lemma TowardGrows(edges: seq<Edge>, e: Edge, a: Assignment, x: str, c: str)
    requires Covers(a, edges + [e]) && e.0 != e.1
    ensures Covers(a, edges) && e.0 in a && e.1 in a
    ensures Toward(edges + [e], a, x, c) == Toward(edges, a, x, c)
      + (if e.0 == x && a[e.1] == c then e.2 else 0.0) + (if e.1 == x && a[e.0] == c then e.2 else 0.0)
  {
    assert (edges + [e])[..|edges|] == edges && (edges + [e])[|edges|] == e;
    assert e in edges + [e];
    forall d | d in edges ensures d.0 in a && d.1 in a { assert d in edges + [e]; }
  }

  /** Two nodes `a` and `b` joined with weight 1, and `b` and `c` with weight `v`. */
  ghost function Chain(a: str, b: str, c: str, v: real): seq<Edge> {
    [(a, b, 1.0), (b, c, v)]
  }

  /** Degree sums in the chain. */
  lemma ChainVolume(a: str, b: str, c: str, v: real, s: set<str>)
    requires a != b && b != c && a != c
    ensures Volume(Chain(a, b, c, v), s) == (if a in s then 1.0 else 0.0) + (if b in s then 1.0 + v else 0.0) + (if c in s then v else 0.0)
    ensures TotalWeight(Chain(a, b, c, v)) == 1.0 + v
  {
    assert Chain(a, b, c, v) == [] + [(a, b, 1.0)] + [(b, c, v)];
    VolumeGrows([], (a, b, 1.0), s);
    VolumeGrows([] + [(a, b, 1.0)], (b, c, v), s);
  }

  lemma ChainToward(a: str, b: str, c: str, v: real, s: Assignment, x: str, d: str)
    requires a != b && b != c && a != c && s.Keys == {a, b, c}
    ensures Covers(s, Chain(a, b, c, v))
    ensures Toward(Chain(a, b, c, v), s, x, d) == (if x == a && s[b] == d then 1.0 else 0.0) + (if x == b && s[a] == d then 1.0 else 0.0)
      + (if x == b && s[c] == d then v else 0.0) + (if x == c && s[b] == d then v else 0.0)
  {
    assert Covers(s, Chain(a, b, c, v));
    assert Chain(a, b, c, v) == [] + [(a, b, 1.0)] + [(b, c, v)];
    TowardGrows([] + [(a, b, 1.0)], (b, c, v), s, x, d);
    TowardGrows([], (a, b, 1.0), s, x, d);
  }

  lemma ChainAdjacent(a: str, b: str, c: str, v: real, x: str, y: str)
    requires a != b && b != c && a != c
    ensures Adjacent(Chain(a, b, c, v), x, y) <==> (x == b && (y == a || y == c)) || (y == b && (x == a || x == c))
  {
    var edges := Chain(a, b, c, v);
    assert edges[0] == (a, b, 1.0) && edges[1] == (b, c, v);
    assert edges[0] in edges && edges[1] in edges;
  }

  /** A single candidate that gains is taken. */
  lemma OnlyMove(edges: seq<Edge>, gain: Gain, s: Assignment, x: str, d: str, p: Assignment)
    requires Covers(s, edges) && x in s && Degree(edges, x) != 0.0
    requires Candidate(edges, s, x, d) && Net(edges, s, gain, x, d) > 0.0
    requires forall e :: Candidate(edges, s, x, e) ==> e == d
    requires LouvainRun.Visited(edges, gain, s, x, p)
    ensures p == s[x := d]
  {
  }

  lemma LouvainPasses(edges: seq<Edge>, resolution: real, nodes: seq<str>, passes: seq<seq<Assignment>>, trace: seq<Assignment>, final: Assignment)
    requires LouvainRun.Detected(edges, 1, resolution, nodes, passes, trace, final) && TotalWeight(edges) != 0.0
    ensures PassesOnce(LouvainRun.VisitOf(edges, GainOf(resolution, TotalWeight(edges))), edges, nodes, passes)
    ensures final == After(Singletons(Nodes(edges)), passes)
  {
  }

  lemma InOrder(a: str, b: str, c: str)
    requires Lt(a, b) && Lt(b, c)
    ensures Lt(a, c) && a != b && b != c && a != c
  {
    LtTransitive(a, b, c);
    LtIrreflexive(a);
    LtIrreflexive(b);
  }

  lemma ThreeNodes(edges: seq<Edge>, a: str, b: str, c: str)
    requires |edges| >= 2 && edges[0].0 == a && edges[0].1 == b && edges[1].0 == b && edges[1].1 == c
    requires forall e :: e in edges ==> e.0 in [a, b, c] && e.1 in [a, b, c]
    ensures Nodes(edges) == {a, b, c}
  {
    assert edges[0] in edges && edges[1] in edges;
  }
}
