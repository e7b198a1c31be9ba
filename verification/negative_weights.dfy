/** Louvain where the total weight is negative: a run that lowers the modularity it is meant to raise. */
module NegativeWeights {
  import opened Bytes
  import opened Sweeps
  import opened Louvain
  import opened Chains
  import LouvainRun

  lemma NegativeGains()
    ensures GainOf(1.0, -2.0)(1.0, -2.0, 1.0) == 0.5 && GainOf(1.0, -2.0)(0.0, 0.0, 1.0) == 0.0
  {
  }

  /** With weights 1 and -3 the smallest node still joins its neighbour. */
  lemma FirstJoins(a: str, b: str, c: str, p: Assignment)
    requires a != b && b != c && a != c
    requires LouvainRun.Visited(Chain(a, b, c, -3.0), GainOf(1.0, -2.0), map[a := a, b := b, c := c], a, p)
    ensures p == map[a := b, b := b, c := c]
  {
    var edges, s := Chain(a, b, c, -3.0), map[a := a, b := b, c := c];
    ChainToward(a, b, c, -3.0, s, a, a);
    ChainToward(a, b, c, -3.0, s, a, b);
    assert Members(s, a) == {a} && Members(s, b) == {b};
    ChainVolume(a, b, c, -3.0, {a});
    ChainVolume(a, b, c, -3.0, {b});
    NegativeGains();
    OnlyMove(edges, GainOf(1.0, -2.0), s, a, b, p) by {
      forall y ensures Adjacent(edges, a, y) <==> y == b { ChainAdjacent(a, b, c, -3.0, a, y); }
    }
  }

  /** The other nodes of the pass leave it there. */
  lemma OthersLeaveIt(edges: seq<Edge>, gain: Gain, s: Assignment, x: str, y: str, t: Assignment)
    requires LouvainRun.Visited(edges, gain, s, x, t) && y != x && y in s
    ensures y in t && t[y] == s[y]
  {
  }

  /**
   Every Louvain run over edges of weight 1 and -3 with one pass, resolution 1 and
   names in order ends with a lower modularity than the singletons have.
   */
  lemma LouvainLowers(a: str, b: str, c: str, nodes: seq<str>, passes: seq<seq<Assignment>>, trace: seq<Assignment>, final: Assignment)
    requires Lt(a, b) && Lt(b, c)
    requires LouvainRun.Detected(Chain(a, b, c, -3.0), 1, 1.0, nodes, passes, trace, final)
    ensures var edges, o := Chain(a, b, c, -3.0), ObjectiveOf(1.0, -2.0);
      && TotalWeight(edges) == -2.0 && Covers(final, edges) && Covers(Singletons(Nodes(edges)), edges)
      && Quality(edges, nodes, o, final) < Quality(edges, nodes, o, Singletons(Nodes(edges)))
  {
    var edges := Chain(a, b, c, -3.0);
    InOrder(a, b, c);
    ChainVolume(a, b, c, -3.0, {});
    LouvainPasses(edges, 1.0, nodes, passes, trace, final);
    FirstLeaves(edges, a, b, c, nodes, passes, final);
    LouvainRun.EndsWorse(edges, nodes, 1.0, -2.0, 1, passes, trace, final);
  }

  lemma FirstLeaves(edges: seq<Edge>, a: str, b: str, c: str, nodes: seq<str>, passes: seq<seq<Assignment>>, final: Assignment)
    requires Lt(a, b) && Lt(b, c) && edges == Chain(a, b, c, -3.0)
    requires PassesOnce(LouvainRun.VisitOf(edges, GainOf(1.0, -2.0)), edges, nodes, passes) && final == After(Singletons(Nodes(edges)), passes)
    ensures final != Singletons(Nodes(edges))
  {
    InOrder(a, b, c);
    ThreeNodes(edges, a, b, c);
    var p, q := PassOfThree(LouvainRun.VisitOf(edges, GainOf(1.0, -2.0)), edges, a, b, c, nodes, passes, final);
    FirstJoins(a, b, c, p);
    OthersLeaveIt(edges, GainOf(1.0, -2.0), p, b, a, q);
    OthersLeaveIt(edges, GainOf(1.0, -2.0), q, c, a, final);
    assert final[a] == b && Singletons(Nodes(edges))[a] == a;
  }
}
