/** Whether a detected community contains the node it is named after, for both algorithms. */
module CommunityNames {
  import opened Bytes
  import opened Grouping
  import opened Sweeps
  import opened Representatives
  import opened Loyalty
  import opened Forests
  import opened Stars
  import opened Chains
  import opened Louvain
  import LouvainRun
  import LabelPropagation

  // -------------------------------------------------------------------------
  // Every run
  // -------------------------------------------------------------------------

  /** Louvain: a community contains its name exactly when the last visit of that node left it there. */
  lemma LouvainNameListedIff(edges: seq<Edge>, limit: nat, resolution: real, nodes: seq<str>, passes: seq<seq<Assignment>>,
                             trace: seq<Assignment>, final: Assignment, groups: map<str, seq<str>>, c: str)
    requires LouvainRun.Detected(edges, limit, resolution, nodes, passes, trace, final) && Groups(groups, final) && c in groups
    ensures c in groups[c] <==> TotalWeight(edges) == 0.0 || KeepsName(nodes, passes, c)
  {
    var m := TotalWeight(edges);
    if m != 0.0 {
      var visit := LouvainRun.VisitOf(edges, GainOf(resolution, m));
      LouvainRun.VisitsFollow(edges, GainOf(resolution, m));
      NameListedIff(visit, LinksOf(edges), nodes, Singletons(Nodes(edges)), passes, groups, c);
    } else {
      NameListed(groups, Nodes(edges), final, c);
    }
  }

  /** Louvain: when no node has two neighbours, every community contains its name. */
  lemma LouvainApart(edges: seq<Edge>, limit: nat, resolution: real, nodes: seq<str>, passes: seq<seq<Assignment>>,
                     trace: seq<Assignment>, final: Assignment, groups: map<str, seq<str>>, c: str)
    requires LouvainRun.Detected(edges, limit, resolution, nodes, passes, trace, final) && Groups(groups, final) && c in groups
    requires Apart(LinksOf(edges))
    ensures c in groups[c]
  {
    var m := TotalWeight(edges);
    if m != 0.0 {
      LouvainRun.VisitsFollow(edges, GainOf(resolution, m));
      ApartIsLoyal(LouvainRun.VisitOf(edges, GainOf(resolution, m)), LinksOf(edges));
      LoyalNamesListed(LouvainRun.VisitOf(edges, GainOf(resolution, m)), LinksOf(edges), nodes, Singletons(Nodes(edges)), passes, groups, c);
    } else {
      NameListed(groups, Nodes(edges), final, c);
    }
  }

  /** Louvain: on stars whose rays weigh the same, at resolution two or less, every community contains its name. */
  lemma LouvainStars(edges: seq<Edge>, limit: nat, resolution: real, nodes: seq<str>, passes: seq<seq<Assignment>>,
                     trace: seq<Assignment>, final: Assignment, groups: map<str, seq<str>>, c: str)
    requires LouvainRun.Detected(edges, limit, resolution, nodes, passes, trace, final) && Groups(groups, final) && c in groups
    requires Centred(LinksOf(edges)) && Even(edges) && resolution <= 2.0
    ensures c in groups[c]
  {
    var m := TotalWeight(edges);
    if m != 0.0 {
      LouvainRun.VisitsFollow(edges, GainOf(resolution, m));
      StarsAreLoyal(edges, resolution);
      LoyalNamesListed(LouvainRun.VisitOf(edges, GainOf(resolution, m)), LinksOf(edges), nodes, Singletons(Nodes(edges)), passes, groups, c);
    } else {
      NameListed(groups, Nodes(edges), final, c);
    }
  }

  /** Label propagation: a community contains its name exactly when the last visit of that node left it there. */
  lemma LabelNameListedIff(edges: seq<Edge>, limit: nat, nodes: seq<str>, passes: seq<seq<Assignment>>,
                           trace: seq<Assignment>, final: Assignment, groups: map<str, seq<str>>, c: str)
    requires LabelPropagation.Ends(edges, nodes, limit, passes, trace, final) && Groups(groups, final) && c in groups
    ensures c in groups[c] <==> KeepsName(nodes, passes, c)
  {
    IncreasingDistinct(nodes);
    LabelPropagation.VisitsFollow(edges);
    NameListedIff(LabelPropagation.VisitOf(edges), LinksOf(edges), nodes, Singletons(Nodes(edges)), passes, groups, c);
  }

  /** Label propagation: when no node has two neighbours, every community contains its name. */
  lemma LabelApart(edges: seq<Edge>, limit: nat, nodes: seq<str>, passes: seq<seq<Assignment>>,
                   trace: seq<Assignment>, final: Assignment, groups: map<str, seq<str>>, c: str)
    requires LabelPropagation.Ends(edges, nodes, limit, passes, trace, final) && Groups(groups, final) && c in groups
    requires Apart(LinksOf(edges))
    ensures c in groups[c]
  {
    LabelPropagation.VisitsFollow(edges);
    ApartIsLoyal(LabelPropagation.VisitOf(edges), LinksOf(edges));
    LoyalNamesListed(LabelPropagation.VisitOf(edges), LinksOf(edges), nodes, Singletons(Nodes(edges)), passes, groups, c);
  }

  /** Label propagation: on a forest without repeated edges every community contains its name. */
  lemma LabelForest(edges: seq<Edge>, limit: nat, nodes: seq<str>, passes: seq<seq<Assignment>>,
                    trace: seq<Assignment>, final: Assignment, groups: map<str, seq<str>>, c: str)
    requires LabelPropagation.Ends(edges, nodes, limit, passes, trace, final) && Groups(groups, final) && c in groups
    requires Forest(LinksOf(edges)) && Single(edges)
    ensures c in groups[c]
  {
    LabelPropagation.VisitsFollow(edges);
    ForestIsLoyal(edges);
    LoyalNamesListed(LabelPropagation.VisitOf(edges), LinksOf(edges), nodes, Singletons(Nodes(edges)), passes, groups, c);
  }

  /** Louvain: a community is named after a node connected to each of its members. */
  lemma LouvainNamesConnected(edges: seq<Edge>, limit: nat, resolution: real, nodes: seq<str>, passes: seq<seq<Assignment>>,
                              trace: seq<Assignment>, final: Assignment)
    requires LouvainRun.Detected(edges, limit, resolution, nodes, passes, trace, final)
    ensures Local(LinksOf(edges), final)
  {
    var m := TotalWeight(edges);
    if m != 0.0 {
      LouvainRun.NamesStayLocal(edges, GainOf(resolution, m), trace, |trace| - 1);
    } else {
      StartLocal(LinksOf(edges), final);
    }
  }

  // -------------------------------------------------------------------------
  // Two runs that leave a community without its name
  // -------------------------------------------------------------------------

  lemma SmallestMemberAlone(groups: map<str, seq<str>>, final: Assignment, a: str, b: str, c: str)
    requires Groups(groups, final) && final == map[a := b, b := c, c := c] && a != b && b != c && a != c
    ensures b in groups && groups[b] == [a]
  {
    assert final[a] in final.Values;
    assert forall x :: x in [a] <==> x in groups[b];
    SameListing(groups[b], [a]);
  }

  lemma ChainGains()
    ensures var gain := GainOf(1.0, 11.0);
      gain(1.0, 11.0, 1.0) == 0.5 && gain(0.0, 0.0, 1.0) == 0.0 && gain(10.0, 10.0, 11.0) == 5.0 && gain(1.0, 1.0, 11.0) == 0.5
  {
  }

  /** The smallest node gains half a unit by joining its neighbour. */
  lemma ChainFirst(a: str, b: str, c: str, p: Assignment)
    requires a != b && b != c && a != c
    requires LouvainRun.Visited(Chain(a, b, c, 10.0), GainOf(1.0, 11.0), map[a := a, b := b, c := c], a, p)
    ensures p == map[a := b, b := b, c := c]
  {
    var edges, s := Chain(a, b, c, 10.0), map[a := a, b := b, c := c];
    ChainToward(a, b, c, 10.0, s, a, a);
    ChainToward(a, b, c, 10.0, s, a, b);
    assert Members(s, a) == {a} && Members(s, b) == {b};
    ChainVolume(a, b, c, 10.0, {a});
    ChainVolume(a, b, c, 10.0, {b});
    ChainGains();
    OnlyMove(edges, GainOf(1.0, 11.0), s, a, b, p) by {
      forall y ensures Adjacent(edges, a, y) <==> y == b { ChainAdjacent(a, b, c, 10.0, a, y); }
    }
  }

  /** The middle node then gains four and a half by leaving for the heavy edge. */
  lemma ChainSecond(a: str, b: str, c: str, q: Assignment)
    requires a != b && b != c && a != c
    requires LouvainRun.Visited(Chain(a, b, c, 10.0), GainOf(1.0, 11.0), map[a := b, b := b, c := c], b, q)
    ensures q == map[a := b, b := c, c := c]
  {
    var edges, s := Chain(a, b, c, 10.0), map[a := b, b := b, c := c];
    ChainToward(a, b, c, 10.0, s, b, b);
    ChainToward(a, b, c, 10.0, s, b, c);
    assert Members(s, b) == {a, b} && Members(s, c) == {c};
    ChainVolume(a, b, c, 10.0, {b});
    ChainVolume(a, b, c, 10.0, {a, b});
    ChainVolume(a, b, c, 10.0, {c});
    ChainGains();
    OnlyMove(edges, GainOf(1.0, 11.0), s, b, c, q) by {
      forall y ensures Adjacent(edges, b, y) <==> y == a || y == c { ChainAdjacent(a, b, c, 10.0, b, y); }
    }
  }

  /** The last node finds its only neighbour in its own community. */
  lemma ChainThird(a: str, b: str, c: str, r: Assignment)
    requires a != b && b != c && a != c
    requires LouvainRun.Visited(Chain(a, b, c, 10.0), GainOf(1.0, 11.0), map[a := b, b := c, c := c], c, r)
    ensures r == map[a := b, b := c, c := c]
  {
    forall y ensures Adjacent(Chain(a, b, c, 10.0), c, y) <==> y == b { ChainAdjacent(a, b, c, 10.0, c, y); }
  }

  /**
   Every Louvain run over the chain with one pass, resolution 1 and names in order
   leaves community `b` without node `b`.
   */
  lemma LouvainDropsName(a: str, b: str, c: str, nodes: seq<str>, passes: seq<seq<Assignment>>, trace: seq<Assignment>, final: Assignment,
                         groups: map<str, seq<str>>)
    requires Lt(a, b) && Lt(b, c)
    requires LouvainRun.Detected(Chain(a, b, c, 10.0), 1, 1.0, nodes, passes, trace, final) && Groups(groups, final)
    ensures b in groups && groups[b] == [a]
  {
    InOrder(a, b, c);
    ChainVolume(a, b, c, 10.0, {});
    LouvainPasses(Chain(a, b, c, 10.0), 1.0, nodes, passes, trace, final);
    ChainRun(Chain(a, b, c, 10.0), a, b, c, nodes, passes, final);
    SmallestMemberAlone(groups, final, a, b, c);
  }

  lemma ChainRun(edges: seq<Edge>, a: str, b: str, c: str, nodes: seq<str>, passes: seq<seq<Assignment>>, final: Assignment)
    requires Lt(a, b) && Lt(b, c) && edges == Chain(a, b, c, 10.0)
    requires PassesOnce(LouvainRun.VisitOf(edges, GainOf(1.0, 11.0)), edges, nodes, passes) && final == After(Singletons(Nodes(edges)), passes)
    ensures final == map[a := b, b := c, c := c]
  {
    InOrder(a, b, c);
    ThreeNodes(edges, a, b, c);
    var p, q := PassOfThree(LouvainRun.VisitOf(edges, GainOf(1.0, 11.0)), edges, a, b, c, nodes, passes, final);
    ChainFirst(a, b, c, p);
    ChainSecond(a, b, c, q);
    ChainThird(a, b, c, final);
  }

  // Label propagation

  lemma VotesGrow(edges: seq<Edge>, e: Edge, a: Assignment, x: str, l: str)
    requires Covers(a, edges + [e]) && e.0 != e.1
    ensures Covers(a, edges) && e.0 in a && e.1 in a
    ensures LabelPropagation.Votes(edges + [e], a, x, l) == LabelPropagation.Votes(edges, a, x, l)
      + (if e.0 == x && a[e.1] == l then 1 else 0) + (if e.1 == x && a[e.0] == l then 1 else 0)
  {
    assert (edges + [e])[..|edges|] == edges && (edges + [e])[|edges|] == e;
    assert e in edges + [e];
    forall d | d in edges ensures d.0 in a && d.1 in a { assert d in edges + [e]; }
  }

  /** One edge between `a` and `b`, and two between `b` and `c`. */
  ghost function Fork(a: str, b: str, c: str): seq<Edge> {
    [(a, b, 1.0), (b, c, 1.0), (c, b, 1.0)]
  }

  lemma ForkVotes(a: str, b: str, c: str, s: Assignment, x: str, l: str)
    requires a != b && b != c && a != c && s.Keys == {a, b, c}
    ensures Covers(s, Fork(a, b, c))
    ensures LabelPropagation.Votes(Fork(a, b, c), s, x, l) == (if x == a && s[b] == l then 1 else 0) + (if x == b && s[a] == l then 1 else 0)
      + (if x == b && s[c] == l then 2 else 0) + (if x == c && s[b] == l then 2 else 0)
  {
    assert Covers(s, Fork(a, b, c));
    assert Fork(a, b, c) == [] + [(a, b, 1.0)] + [(b, c, 1.0)] + [(c, b, 1.0)];
    VotesGrow([] + [(a, b, 1.0)] + [(b, c, 1.0)], (c, b, 1.0), s, x, l);
    VotesGrow([] + [(a, b, 1.0)], (b, c, 1.0), s, x, l);
    VotesGrow([], (a, b, 1.0), s, x, l);
  }

  /** A label with more votes than any other and than the current one is adopted. */
  lemma OnlyWinner(edges: seq<Edge>, s: Assignment, x: str, l: str, p: Assignment)
    requires Covers(s, edges) && x in s && LabelPropagation.Visited(edges, s, x, p)
    requires forall k :: k != l ==> LabelPropagation.Votes(edges, s, x, k) < LabelPropagation.Votes(edges, s, x, l)
    ensures p == s[x := l]
  {
    if LabelPropagation.Stable(edges, s, x) && p == s {
      assert LabelPropagation.Votes(edges, s, x, l) <= LabelPropagation.Votes(edges, s, x, s[x]);
    } else {
      var k :| LabelPropagation.IsRelabel(edges, s, p, x, k);
      assert LabelPropagation.Votes(edges, s, x, l) <= LabelPropagation.Votes(edges, s, x, k);
    }
  }

  /** Every label propagation run over the fork with one round leaves community `b` without node `b`. */
  lemma LabelDropsName(a: str, b: str, c: str, nodes: seq<str>, passes: seq<seq<Assignment>>, trace: seq<Assignment>, final: Assignment,
                       groups: map<str, seq<str>>)
    requires Lt(a, b) && Lt(b, c)
    requires LabelPropagation.Ends(Fork(a, b, c), nodes, 1, passes, trace, final) && Groups(groups, final)
    ensures b in groups && groups[b] == [a]
  {
    InOrder(a, b, c);
    ForkNodes(a, b, c);
    LabelPasses(Fork(a, b, c), nodes, passes, trace, final);
    ForkRun(Fork(a, b, c), a, b, c, nodes, passes, final);
    SmallestMemberAlone(groups, final, a, b, c);
  }

  lemma LabelPasses(edges: seq<Edge>, nodes: seq<str>, passes: seq<seq<Assignment>>, trace: seq<Assignment>, final: Assignment)
    requires LabelPropagation.Ends(edges, nodes, 1, passes, trace, final)
    ensures PassesOnce(LabelPropagation.VisitOf(edges), edges, nodes, passes) && final == After(Singletons(Nodes(edges)), passes)
  {
  }

  lemma ForkNodes(a: str, b: str, c: str)
    ensures Nodes(Fork(a, b, c)) == {a, b, c}
  {
    ThreeNodes(Fork(a, b, c), a, b, c);
  }

  lemma ForkRun(edges: seq<Edge>, a: str, b: str, c: str, nodes: seq<str>, passes: seq<seq<Assignment>>, final: Assignment)
    requires Lt(a, b) && Lt(b, c) && edges == Fork(a, b, c) && Nodes(edges) == {a, b, c}
    requires PassesOnce(LabelPropagation.VisitOf(edges), edges, nodes, passes) && final == After(Singletons(Nodes(edges)), passes)
    ensures final == map[a := b, b := c, c := c]
  {
    var p, q := PassOfThree(LabelPropagation.VisitOf(edges), edges, a, b, c, nodes, passes, final);
    ForkVisits(edges, a, b, c, map[a := a, b := b, c := c], p, q, final);
  }

  /** `a` follows `b`, then `b` follows the two votes for `c`. */
  lemma ForkVisits(edges: seq<Edge>, a: str, b: str, c: str, start: Assignment, p: Assignment, q: Assignment, final: Assignment)
    requires Lt(a, b) && Lt(b, c) && start == map[a := a, b := b, c := c] && edges == Fork(a, b, c)
    requires var visit := LabelPropagation.VisitOf(edges); visit(start, a, p) && visit(p, b, q) && visit(q, c, final)
    ensures final == map[a := b, b := c, c := c]
  {
    InOrder(a, b, c);
    ForkVisit(a, b, c, start, a, b, p);
    ForkVisit(a, b, c, p, b, c, q);
    ForkVisit(a, b, c, q, c, c, final);
  }

  lemma ForkVisit(a: str, b: str, c: str, s: Assignment, x: str, l: str, p: Assignment)
    requires a != b && b != c && a != c && s.Keys == {a, b, c} && LabelPropagation.Visited(Fork(a, b, c), s, x, p)
    requires if x == a then s[b] == l else if x == b then s[a] != l && s[c] == l else x == c && s[b] == l
    ensures p == s[x := l]
  {
    forall k ensures LabelPropagation.Votes(Fork(a, b, c), s, x, k) == (if x == a && s[b] == k then 1 else 0) + (if x == b && s[a] == k then 1 else 0)
      + (if x == b && s[c] == k then 2 else 0) + (if x == c && s[b] == k then 2 else 0)
    {
      ForkVotes(a, b, c, s, x, k);
    }
    OnlyWinner(Fork(a, b, c), s, x, l, p);
  }
}
