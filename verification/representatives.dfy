/**
 Communities and the nodes they are named after (crates/graph/src/community.rs).

 Both algorithms move one node at a time into the community of a neighbour, so a
 community is named after a node of its own component; but that node may itself
 have moved away.
 */
module Representatives {
  import opened Bytes
  import opened Grouping
  import opened Sweeps
  import opened GraphPaths

  ghost predicate Neighbours(links: Links, x: str, y: str) {
    x != y && ((x, y) in links || (y, x) in links)
  }

  /** `b` is `a`, or `a` after `x` joined the other community of the neighbour `y`. */
  ghost predicate JoinsBy(links: Links, a: Assignment, x: str, y: str, b: Assignment) {
    Neighbours(links, x, y) && x in a && y in a && a[y] != a[x] && b == a[x := a[y]]
  }

  ghost predicate Joins(links: Links, a: Assignment, x: str, b: Assignment) {
    x in a && (b == a || exists y :: JoinsBy(links, a, x, y, b))
  }

  /** Every visit leaves the assignment alone or moves the visited node to the community of a neighbour. */
  ghost predicate Follows(visit: Visit, links: Links) {
    forall a: Assignment, x: str, b: Assignment :: visit(a, x, b) ==> Joins(links, a, x, b)
  }

  // -------------------------------------------------------------------------
  // Names stay in the component
  // -------------------------------------------------------------------------

  /** Every community name is a node, connected to each node of the community. */
  ghost predicate Local(links: Links, a: Assignment) {
    forall x {:trigger LocalAt(links, a, x)} :: LocalAt(links, a, x)
  }

  ghost predicate LocalAt(links: Links, a: Assignment, x: str) {
    x in a ==> a[x] in a && Connected(links, x, a[x])
  }

  lemma StartLocal(links: Links, a: Assignment)
    requires forall x :: x in a ==> a[x] == x
    ensures Local(links, a)
  {
    forall x ensures LocalAt(links, a, x) { ConnectedReflexive(links, x); }
  }

  lemma JoinStaysLocal(links: Links, a: Assignment, x: str, y: str, b: Assignment)
    requires JoinsBy(links, a, x, y, b) && Local(links, a)
    ensures Local(links, b)
  {
    if (x, y) in links { ConnectedLink(links, x, y); } else { ConnectedLink(links, y, x); }
    assert LocalAt(links, a, y);
    ConnectedTransitive(links, x, y, a[y]);
    forall z ensures LocalAt(links, b, z) { assert LocalAt(links, a, z); }
  }

  // -------------------------------------------------------------------------
  // When a community contains its name
  // -------------------------------------------------------------------------

  /** Community names are nodes. */
  ghost predicate NamedByNodes(all: set<str>, a: Assignment) {
    a.Keys == all && a.Values <= all
  }

  lemma JoinStaysNamed(links: Links, all: set<str>, a: Assignment, x: str, b: Assignment)
    requires Joins(links, a, x, b) && NamedByNodes(all, a)
    ensures NamedByNodes(all, b)
  {
    if b != a {
      var y :| JoinsBy(links, a, x, y, b);
      assert a[y] in a.Values;
      assert b.Keys == a.Keys;
      forall v | v in b.Values ensures v in all {
        var z :| z in b && b[z] == v;
        assert v == a[y] || a[z] in a.Values;
      }
    }
  }

  lemma NamesKept(visit: Visit, links: Links, all: set<str>)
    requires Follows(visit, links)
    ensures Kept(visit, a => NamedByNodes(all, a))
  {
    forall a: Assignment, x: str, b: Assignment | NamedByNodes(all, a) && visit(a, x, b) ensures NamedByNodes(all, b) {
      assert Joins(links, a, x, b);
      JoinStaysNamed(links, all, a, x, b);
    }
  }

  /** In the last pass, the visit of the node `c` left it in the community named `c`; with no pass at all it never moved. */
  ghost predicate KeepsName(nodes: seq<str>, passes: seq<seq<Assignment>>, c: str) {
    passes == [] || StaysHome(nodes, passes[|passes| - 1], c)
  }

  ghost predicate StaysHome(nodes: seq<str>, steps: seq<Assignment>, c: str) {
    exists i: nat :: LeftHome(nodes, steps, i, c)
  }

  ghost predicate LeftHome(nodes: seq<str>, steps: seq<Assignment>, i: nat, c: str) {
    i < |nodes| && nodes[i] == c && i + 1 < |steps| && c in steps[i + 1] && steps[i + 1][c] == c
  }

  /** The visits after that of `c` do not move `c`. */
  lemma {:induction false} UntouchedAfter(visit: Visit, links: Links, nodes: seq<str>, steps: seq<Assignment>, i: nat, j: nat)
    requires Follows(visit, links) && Started(visit, nodes, steps) && NoDuplicates(nodes)
    requires i < |nodes| && i + 1 <= j < |steps| && nodes[i] in steps[i + 1]
    ensures nodes[i] in steps[j] && steps[j][nodes[i]] == steps[i + 1][nodes[i]]
  {
    if j > i + 1 {
      UntouchedAfter(visit, links, nodes, steps, i, j - 1);
      assert VisitAt(visit, nodes, steps, j - 1);
      assert Joins(links, steps[j - 1], nodes[j - 1], steps[j]);
    }
  }

  /**
   A community contains the node it is named after exactly when the last visit
   of that node left it there.
   */
  lemma NameListedIff(visit: Visit, links: Links, nodes: seq<str>, start: Assignment, passes: seq<seq<Assignment>>, groups: map<str, seq<str>>, c: str)
    requires Follows(visit, links) && NoDuplicates(nodes) && Running(visit, nodes, start, passes)
    requires (forall x :: x in nodes <==> x in start) && forall x :: x in start ==> start[x] == x
    requires Groups(groups, After(start, passes)) && c in groups
    ensures c in groups[c] <==> KeepsName(nodes, passes, c)
  {
    NamesThroughout(visit, links, nodes, start, passes);
    NameListed(groups, start.Keys, After(start, passes), c);
    NameKeptIff(visit, links, nodes, start, passes, c);
  }

  lemma NameKeptIff(visit: Visit, links: Links, nodes: seq<str>, start: Assignment, passes: seq<seq<Assignment>>, c: str)
    requires Follows(visit, links) && NoDuplicates(nodes) && Running(visit, nodes, start, passes)
    requires (forall x :: x in start ==> start[x] == x) && c in nodes && c in start
    ensures c in After(start, passes) && (After(start, passes)[c] == c <==> KeepsName(nodes, passes, c))
  {
    NamesThroughout(visit, links, nodes, start, passes);
    if passes != [] {
      var steps := passes[|passes| - 1];
      assert PassAt(visit, nodes, start, passes, |passes| - 1);
      HomeAtEnd(visit, links, nodes, steps, start.Keys, c);
    }
  }

  lemma NameListed(groups: map<str, seq<str>>, all: set<str>, a: Assignment, c: str)
    requires Groups(groups, a) && c in groups && NamedByNodes(all, a)
    ensures c in all && c in a && (c in groups[c] <==> a[c] == c)
  {
    assert c in a.Values;
  }

  ghost predicate AllNamed(all: set<str>, steps: seq<Assignment>) {
    forall i: nat :: i < |steps| ==> NamedByNodes(all, steps[i])
  }

  lemma NamesThroughout(visit: Visit, links: Links, nodes: seq<str>, start: Assignment, passes: seq<seq<Assignment>>)
    requires Follows(visit, links) && Running(visit, nodes, start, passes)
    requires forall x :: x in start ==> start[x] == x
    ensures NamedByNodes(start.Keys, After(start, passes))
    ensures passes != [] ==> AllNamed(start.Keys, passes[|passes| - 1])
  {
    var inv: Assignment -> bool := a => NamedByNodes(start.Keys, a);
    NamesKept(visit, links, start.Keys);
    assert inv(start);
    RunKeeps(visit, nodes, start, passes, inv, |passes|);
    assert passes[..|passes|] == passes;
    if passes != [] {
      var last := |passes| - 1;
      forall i: nat | i < |passes[last]| ensures NamedByNodes(start.Keys, passes[last][i]) {
        PassKeeps(visit, nodes, start, passes, inv, last, i);
      }
    }
  }

  lemma HomeAtEnd(visit: Visit, links: Links, nodes: seq<str>, steps: seq<Assignment>, all: set<str>, c: str)
    requires Follows(visit, links) && NoDuplicates(nodes) && Started(visit, nodes, steps) && |steps| == |nodes| + 1
    requires c in nodes && c in all && AllNamed(all, steps)
    ensures c in steps[|nodes|] && (StaysHome(nodes, steps, c) <==> steps[|nodes|][c] == c)
  {
    var i: nat :| i < |nodes| && nodes[i] == c;
    assert NamedByNodes(all, steps[i + 1]) && NamedByNodes(all, steps[|nodes|]);
    UntouchedAfter(visit, links, nodes, steps, i, |nodes|);
    assert LeftHome(nodes, steps, i, c) <==> steps[|nodes|][c] == c;
    if j: nat :| LeftHome(nodes, steps, j, c) { assert j == i; }
  }
}
