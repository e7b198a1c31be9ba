/** Label propagation on forests without repeated edges (crates/graph/src/community.rs). */
module Forests {
  import opened Bytes
  import opened Sweeps
  import opened GraphPaths
  import opened Representatives
  import opened Loyalty
  import opened Louvain
  import opened LabelPropagation

  ghost function Without(links: Links, x: str, y: str): Links {
    links - {(x, y), (y, x)}
  }

  /** Every link is the only connection between its ends. */
  ghost predicate Forest(links: Links) {
    forall x, y :: Neighbours(links, x, y) ==> !Connected(Without(links, x, y), x, y)
  }

  predicate JoinsPair(e: Edge, x: str, y: str) {
    x != y && ((e.0 == x && e.1 == y) || (e.0 == y && e.1 == x))
  }

  /** No two edges join the same two nodes. */
  ghost predicate Single(edges: seq<Edge>) {
    forall i, j, x, y :: 0 <= i < j < |edges| && JoinsPair(edges[i], x, y) ==> !JoinsPair(edges[j], x, y)
  }

  /** In a forest two neighbours outside the node's own community are in different ones. */
  lemma DifferentCommunities(links: Links, a: Assignment, x: str, u: str, w: str)
    requires Forest(links) && Tight(links, a) && x in a && u in a && w in a
    requires Neighbours(links, x, u) && Neighbours(links, x, w) && a[u] == a[w] != a[x]
    ensures u == w
  {
    if u != w {
      var rest := Without(links, x, u);
      MembersConnected(links, a, w, u);
      ConnectedMore(Inside(links, a, a[u]), rest, w, u);
      if (x, w) in links { ConnectedLink(rest, x, w); } else { ConnectedLink(rest, w, x); }
      ConnectedTransitive(rest, x, w, u);
    }
  }

  lemma LinksGrow(edges: seq<Edge>, x: str, y: str)
    requires edges != [] && Neighbours(LinksOf(edges[..|edges| - 1]), x, y)
    ensures Neighbours(LinksOf(edges), x, y)
  {
    var init := edges[..|edges| - 1];
    forall e | e in init ensures e in edges {}
  }

  lemma {:induction false} VoteOfNeighbour(edges: seq<Edge>, a: Assignment, x: str, y: str)
    requires Covers(a, edges) && y in a && Neighbours(LinksOf(edges), x, y)
    ensures Votes(edges, a, x, a[y]) > 0
  {
    if edges != [] {
      var last := edges[|edges| - 1];
      assert last in edges;
      if !JoinsPair(last, x, y) {
        var e :| e in edges && JoinsPair(e, x, y);
        assert e in edges[..|edges| - 1];
        VoteOfNeighbour(edges[..|edges| - 1], a, x, y);
      }
    }
  }

  /** A label that one neighbour alone carries has at most one vote. */
  lemma {:induction false} OneVote(edges: seq<Edge>, a: Assignment, x: str, l: str, y: str)
    requires Covers(a, edges) && Single(edges)
    requires forall z :: z in a && Neighbours(LinksOf(edges), x, z) && a[z] == l ==> z == y
    ensures Votes(edges, a, x, l) <= 1
  {
    if edges != [] {
      var n := |edges| - 1;
      var init, last := edges[..n], edges[n];
      assert last in edges && (last.0, last.1) in LinksOf(edges);
      forall z | z in a && Neighbours(LinksOf(init), x, z) && a[z] == l ensures z == y { LinksGrow(edges, x, z); }
      OneVote(init, a, x, l, y);
      if Votes(init, a, x, l) > 0 {
        var z := VotesCome(init, a, x, l);
        var e :| e in init && JoinsPair(e, x, z);
        var i :| 0 <= i < n && edges[i] == e;
        assert z == y && JoinsPair(edges[i], x, y);
      }
    }
  }

  /** With single edges a node at home never sees another label more often than its own. */
  lemma ForestIsLoyal(edges: seq<Edge>)
    requires Forest(LinksOf(edges)) && Single(edges)
    ensures Loyal(VisitOf(edges), LinksOf(edges))
  {
    var links := LinksOf(edges);
    forall a: Assignment, x: str, b: Assignment | Visited(edges, a, x, b) && Tight(links, a) && x in a && AtHome(links, a, x) ensures b == a {
      if l :| IsRelabel(edges, a, b, x, l) {
        var h :| HomeBy(links, a, x, h);
        VoteOfNeighbour(edges, a, x, h);
        var y := VotesCome(edges, a, x, l);
        forall z | z in a && Neighbours(links, x, z) && a[z] == l ensures z == y { DifferentCommunities(links, a, x, y, z); }
        OneVote(edges, a, x, l, y);
      }
    }
  }
}
