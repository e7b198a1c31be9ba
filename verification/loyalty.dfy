/**
 Communities no member of which ever leaves (crates/graph/src/community.rs): when
 a node with a neighbour in its own community stays put, every community is
 connected and contains the node it is named after.
 */
module Loyalty {
  import opened Bytes
  import opened Grouping
  import opened Sweeps
  import opened GraphPaths
  import opened Representatives

  /** A neighbour of the node is in its community. */
  ghost predicate AtHome(links: Links, a: Assignment, x: str)
    requires x in a
  {
    exists y :: HomeBy(links, a, x, y)
  }

  ghost predicate HomeBy(links: Links, a: Assignment, x: str, y: str)
    requires x in a
  {
    y in a && Neighbours(links, x, y) && a[y] == a[x]
  }

  /** The links between members of a community. */
  ghost function Inside(links: Links, a: Assignment, c: str): Links {
    set l | l in links && l.0 in a && l.1 in a && a[l.0] == c && a[l.1] == c
  }

  /** The community's name is a member, reached from the node without leaving the community; a node away from its own name is not alone. */
  ghost predicate TightAt(links: Links, a: Assignment, x: str)
    requires x in a
  {
    && a[x] in a && a[a[x]] == a[x] && Connected(Inside(links, a, a[x]), x, a[x])
    && (a[x] != x ==> AtHome(links, a, x) && AtHome(links, a, a[x]))
  }

  ghost predicate Tight(links: Links, a: Assignment) {
    forall x :: x in a ==> TightAt(links, a, x)
  }

  /** No visit moves a node that is at home. */
  ghost predicate Loyal(visit: Visit, links: Links) {
    forall a: Assignment, x: str, b: Assignment :: visit(a, x, b) && Tight(links, a) && x in a && AtHome(links, a, x) ==> b == a
  }

  lemma ConnectedMore(links: Links, more: Links, x: str, y: str)
    requires links <= more && Connected(links, x, y)
    ensures Connected(more, x, y)
  {
    var p :| PathFromTo(Undirected(links), p, x, y);
    forall i | 0 <= i < |p| - 1 ensures LinkAt(Undirected(more), p, i) { assert LinkAt(Undirected(links), p, i); }
    assert PathFromTo(Undirected(more), p, x, y);
  }

  /** A node away from home is alone in its own community. */
  lemma AloneAtName(links: Links, a: Assignment, x: str)
    requires Tight(links, a) && x in a && !AtHome(links, a, x)
    ensures a[x] == x && forall z :: z in a && a[z] == x ==> z == x
  {
    assert TightAt(links, a, x);
    forall z | z in a && a[z] == x ensures z == x { assert TightAt(links, a, z); }
  }

  lemma JoinStaysTight(links: Links, a: Assignment, x: str, y: str, b: Assignment)
    requires JoinsBy(links, a, x, y, b) && Tight(links, a) && !AtHome(links, a, x)
    ensures Tight(links, b)
  {
    AloneAtName(links, a, x);
    var c := a[y];
    assert TightAt(links, a, y);
    forall z | z in b ensures TightAt(links, b, z) {
      if z == x {
        JoinedIsTight(links, a, x, y, b);
      } else {
        assert TightAt(links, a, z);
        OthersStayTight(links, a, x, y, b, z);
      }
    }
  }

  lemma HomeKept(links: Links, a: Assignment, x: str, y: str, b: Assignment, z: str)
    requires JoinsBy(links, a, x, y, b) && z in a && z != x && AtHome(links, a, z)
    requires forall w :: w in a && a[w] == a[x] ==> w == x
    ensures AtHome(links, b, z)
  {
    var w :| HomeBy(links, a, z, w);
    assert HomeBy(links, b, z, w);
  }

  lemma InsideGrows(links: Links, a: Assignment, x: str, y: str, b: Assignment, c: str)
    requires JoinsBy(links, a, x, y, b) && c != a[x]
    ensures Inside(links, a, c) <= Inside(links, b, c)
  {
  }

  lemma JoinedIsTight(links: Links, a: Assignment, x: str, y: str, b: Assignment)
    requires JoinsBy(links, a, x, y, b) && Tight(links, a) && a[x] == x && forall z :: z in a && a[z] == x ==> z == x
    ensures TightAt(links, b, x)
  {
    var c := a[y];
    assert TightAt(links, a, y);
    InsideGrows(links, a, x, y, b, c);
    ConnectedMore(Inside(links, a, c), Inside(links, b, c), y, c);
    if (x, y) in links {
      ConnectedLink(Inside(links, b, c), x, y);
    } else {
      ConnectedLink(Inside(links, b, c), y, x);
    }
    ConnectedTransitive(Inside(links, b, c), x, y, c);
    assert HomeBy(links, b, x, y);
    NameAtHome(links, a, x, y, b);
  }

  lemma NameAtHome(links: Links, a: Assignment, x: str, y: str, b: Assignment)
    requires JoinsBy(links, a, x, y, b) && Tight(links, a) && a[x] == x && forall z :: z in a && a[z] == x ==> z == x
    ensures a[y] in b && AtHome(links, b, a[y])
  {
    assert TightAt(links, a, y);
    if a[y] == y { assert HomeBy(links, b, y, x); } else { HomeKept(links, a, x, y, b, a[y]); }
  }

  lemma OthersStayTight(links: Links, a: Assignment, x: str, y: str, b: Assignment, z: str)
    requires JoinsBy(links, a, x, y, b) && Tight(links, a) && a[x] == x && (forall z :: z in a && a[z] == x ==> z == x) && z in a && z != x
    ensures TightAt(links, b, z)
  {
    assert TightAt(links, a, z);
    InsideGrows(links, a, x, y, b, a[z]);
    ConnectedMore(Inside(links, a, a[z]), Inside(links, b, a[z]), z, a[z]);
    if a[z] != z {
      HomeKept(links, a, x, y, b, z);
      HomeKept(links, a, x, y, b, a[z]);
    }
  }

  lemma StartTight(links: Links, a: Assignment)
    requires forall x :: x in a ==> a[x] == x
    ensures Tight(links, a)
  {
    forall x | x in a ensures TightAt(links, a, x) { ConnectedReflexive(Inside(links, a, x), x); }
  }

  lemma LoyalKeepsTight(visit: Visit, links: Links)
    requires Follows(visit, links) && Loyal(visit, links)
    ensures Kept(visit, a => Tight(links, a))
  {
    forall a: Assignment, x: str, b: Assignment | Tight(links, a) && visit(a, x, b) ensures Tight(links, b) {
      assert Joins(links, a, x, b);
      if b != a {
        var y :| JoinsBy(links, a, x, y, b);
        JoinStaysTight(links, a, x, y, b);
      }
    }
  }

  /** Under loyal visits every community contains the node it is named after. */
  lemma LoyalNamesListed(visit: Visit, links: Links, nodes: seq<str>, start: Assignment, passes: seq<seq<Assignment>>, groups: map<str, seq<str>>, c: str)
    requires Follows(visit, links) && Loyal(visit, links) && Running(visit, nodes, start, passes)
    requires (forall x :: x in start ==> start[x] == x) && Groups(groups, After(start, passes)) && c in groups
    ensures c in groups[c]
  {
    var inv: Assignment -> bool := a => Tight(links, a);
    LoyalKeepsTight(visit, links);
    StartTight(links, start);
    RunKeeps(visit, nodes, start, passes, inv, |passes|);
    assert passes[..|passes|] == passes;
    var final := After(start, passes);
    var z :| z in final && final[z] == c;
    assert TightAt(links, final, z);
  }

  /** No node has two neighbours, however many edges join them. */
  ghost predicate Apart(links: Links) {
    forall x, y, z :: Neighbours(links, x, y) && Neighbours(links, x, z) ==> y == z
  }

  lemma ApartIsLoyal(visit: Visit, links: Links)
    requires Follows(visit, links) && Apart(links)
    ensures Loyal(visit, links)
  {
    forall a: Assignment, x: str, b: Assignment | visit(a, x, b) && Tight(links, a) && x in a && AtHome(links, a, x) ensures b == a {
      assert Joins(links, a, x, b);
      var h :| HomeBy(links, a, x, h);
      forall y ensures !JoinsBy(links, a, x, y, b) { assert Neighbours(links, x, y) ==> y == h; }
    }
  }

  /** Members of a community are connected without leaving it. */
  lemma MembersConnected(links: Links, a: Assignment, u: str, w: str)
    requires Tight(links, a) && u in a && w in a && a[u] == a[w]
    ensures Connected(Inside(links, a, a[u]), u, w)
  {
    assert TightAt(links, a, u) && TightAt(links, a, w);
    ConnectedSymmetric(Inside(links, a, a[u]), w, a[w]);
    ConnectedTransitive(Inside(links, a, a[u]), u, a[u], w);
  }
}
