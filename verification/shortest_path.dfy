/** Directed shortest path by bounded breadth-first search (crates/graph/src/path.rs). */
module ShortestPath {
  import opened Bytes
  import opened Wrappers
  import opened GraphPaths

  type Edge = (str, str)

  ghost function LinksOf(edges: seq<Edge>): Links {
    set e | e in edges
  }

  predicate Within(maxDepth: Option<nat>, n: nat) {
    maxDepth.Some? ==> n <= maxDepth.value
  }

  ghost predicate Simple(p: seq<str>) {
    forall i, j :: 0 <= i < j < |p| ==> p[i] != p[j]
  }

  // -------------------------------------------------------------------------
  // The search tree
  // -------------------------------------------------------------------------

  /** Every visited node but the source hangs, one level deeper, below a visited node that links to it. */
  ghost predicate Tree(links: Links, src: str, parent: map<str, str>, depth: map<str, nat>) {
    && src in depth && depth[src] == 0 && parent.Keys == depth.Keys - {src}
    && forall x {:trigger HangsAt(links, parent, depth, x)} :: x in parent ==> HangsAt(links, parent, depth, x)
  }

  ghost predicate HangsAt(links: Links, parent: map<str, str>, depth: map<str, nat>, x: str)
    requires x in parent
  {
    && x in depth && parent[x] in depth && depth[x] == depth[parent[x]] + 1
    && (parent[x], x) in links
  }

  /** The queue holds visited nodes with their depths, over at most two levels in order. */
  ghost predicate Queued(queue: seq<(str, nat)>, depth: map<str, nat>) {
    && (forall j :: 0 <= j < |queue| ==> queue[j].0 in depth && depth[queue[j].0] == queue[j].1)
    && (forall i, j :: 0 <= i < j < |queue| ==> queue[i].1 <= queue[j].1)
    && (queue != [] ==> forall x :: x in depth ==> depth[x] <= queue[0].1 + 1)
  }

  /** A node is closed when it lies too deep to be expanded or all it links to is visited, no more than one level deeper. */
  ghost predicate Closed(links: Links, maxDepth: Option<nat>, depth: map<str, nat>, x: str)
    requires x in depth
  {
    !Within(maxDepth, depth[x] + 1) || forall y :: (x, y) in links ==> y in depth && depth[y] <= depth[x] + 1
  }

  ghost predicate Open(queue: seq<(str, nat)>, x: str) {
    exists j :: 0 <= j < |queue| && queue[j].0 == x
  }

  ghost predicate AllClosed(links: Links, maxDepth: Option<nat>, depth: map<str, nat>, queue: seq<(str, nat)>) {
    forall x {:trigger Closed(links, maxDepth, depth, x)} :: x in depth && !Open(queue, x) ==> Closed(links, maxDepth, depth, x)
  }

  /** A path from the source either stays among visited nodes or leaves them at one that is still open or too deep. */
  lemma {:induction false} Frontier(links: Links, src: str, maxDepth: Option<nat>, parent: map<str, str>, depth: map<str, nat>, queue: seq<(str, nat)>, p: seq<str>) returns (i: nat)
    requires Tree(links, src, parent, depth) && AllClosed(links, maxDepth, depth, queue)
    requires IsPath(links, p) && p[0] == src
    ensures i < |p| && p[i] in depth && depth[p[i]] <= i
    ensures i == |p| - 1 || Open(queue, p[i]) || !Within(maxDepth, depth[p[i]] + 1)
  {
    if |p| == 1 {
      i := 0;
    } else {
      var init := p[..|p| - 1];
      forall j | 0 <= j < |init| - 1 ensures LinkAt(links, init, j) { assert LinkAt(links, p, j); }
      i := Frontier(links, src, maxDepth, parent, depth, queue, init);
      if i == |init| - 1 && !Open(queue, p[i]) && Within(maxDepth, depth[p[i]] + 1) {
        assert Closed(links, maxDepth, depth, p[i]) && LinkAt(links, p, i);
        i := i + 1;
      }
    }
  }

  /** With the open nodes all at depth `d` or more, an unvisited node is at least `d + 1` links away, as far as the bound allows. */
  lemma NoShorterPath(links: Links, src: str, maxDepth: Option<nat>, parent: map<str, str>, depth: map<str, nat>, queue: seq<(str, nat)>, d: nat, p: seq<str>)
    requires Tree(links, src, parent, depth) && AllClosed(links, maxDepth, depth, queue)
    requires forall x :: x in depth && Open(queue, x) ==> depth[x] >= d
    requires IsPath(links, p) && p[0] == src && p[|p| - 1] !in depth && Within(maxDepth, |p| - 1)
    ensures |p| - 1 > d
  {
    var i := Frontier(links, src, maxDepth, parent, depth, queue, p);
  }

  // -------------------------------------------------------------------------
  // The program
  // -------------------------------------------------------------------------

  ghost predicate Adjacency(edges: seq<Edge>, adj: map<str, seq<str>>) {
    && (forall x, y :: (x in adj && y in adj[x]) <==> (x, y) in edges)
  }

  method BuildAdjacency(edges: seq<Edge>) returns (adj: map<str, seq<str>>)
    ensures Adjacency(edges, adj)
  {
    adj := map[];
    for k := 0 to |edges|
      invariant Adjacency(edges[..k], adj)
    {
      var (s, d) := edges[k];
      ghost var before := adj;
      adj := adj[s := (if s in adj then adj[s] else []) + [d]];
      assert edges[..k + 1] == edges[..k] + [edges[k]];
      forall x, y ensures (x in adj && y in adj[x]) <==> (x, y) in edges[..k + 1] {
        assert (x in before && y in before[x]) <==> (x, y) in edges[..k];
      }
    }
    assert edges[..|edges|] == edges;
  }

  /** Walks parent pointers back from `dst`: a simple path whose length is the depth of `dst`. */
  method Reconstruct(parent: map<str, str>, dst: str, ghost links: Links, ghost src: str, ghost depth: map<str, nat>) returns (path: seq<str>)
    requires Tree(links, src, parent, depth) && dst in depth
    ensures PathFromTo(links, path, src, dst) && |path| == depth[dst] + 1 && Simple(path)
  {
    var back := [dst];
    var cur := dst;
    while cur in parent
      invariant cur in depth && back != [] && back[0] == dst && back[|back| - 1] == cur && |back| - 1 + depth[cur] == depth[dst]
      invariant forall j :: 0 <= j < |back| ==> back[j] in depth && depth[back[j]] == depth[dst] - j
      invariant forall i, j :: 0 <= i && j == i + 1 < |back| ==> (back[j], back[i]) in links
      decreases depth[cur]
    {
      assert HangsAt(links, parent, depth, cur);
      cur := parent[cur];
      back := back + [cur];
    }
    path := Reversed(back);
    forall i | 0 <= i < |path| - 1 ensures LinkAt(links, path, i) {
      var j := |back| - 2 - i;
      assert (back[j + 1], back[j]) in links;
    }
  }

  function Reversed(s: seq<str>): (r: seq<str>)
    ensures |r| == |s| && forall i :: 0 <= i < |s| ==> r[i] == s[|s| - 1 - i]
  {
    if s == [] then [] else Reversed(s[1..]) + [s[0]]
  }

  /** What holds between expansions while `dst` has not been seen. */
  ghost predicate Searching(links: Links, src: str, dst: str, maxDepth: Option<nat>, parent: map<str, str>, depth: map<str, nat>, queue: seq<(str, nat)>) {
    && Tree(links, src, parent, depth) && Queued(queue, depth) && AllClosed(links, maxDepth, depth, queue) && dst !in depth
  }

  /** `p` is a shortest path, within the bound. */
  ghost predicate Shortest(links: Links, src: str, dst: str, maxDepth: Option<nat>, p: seq<str>) {
    && PathFromTo(links, p, src, dst) && Simple(p) && Within(maxDepth, |p| - 1)
    && forall q :: PathFromTo(links, q, src, dst) ==> |p| <= |q|
  }

  lemma VisitKeepsSearching(links: Links, src: str, dst: str, maxDepth: Option<nat>, parent: map<str, str>, depth: map<str, nat>,
                            queue: seq<(str, nat)>, nb: str)
    requires Searching(links, src, dst, maxDepth, parent, depth, queue) && queue != []
    requires nb !in depth && nb != dst && (queue[0].0, nb) in links
    ensures var (node, d) := queue[0]; Searching(links, src, dst, maxDepth, parent[nb := node], depth[nb := d + 1], queue + [(nb, d + 1)])
  {
    var (node, d) := queue[0];
    var parent', depth', queue' := parent[nb := node], depth[nb := d + 1], queue + [(nb, d + 1)];
    TreeGrows(links, src, parent, depth, nb, node);
    assert queue'[|queue|] == (nb, d + 1);
    forall x | Open(queue, x) ensures Open(queue', x) {
      var j :| 0 <= j < |queue| && queue[j].0 == x;
      assert queue'[j].0 == x;
    }
    forall x | x in depth' && !Open(queue', x) ensures Closed(links, maxDepth, depth', x) {
      assert Closed(links, maxDepth, depth, x);
    }
  }

  lemma TreeGrows(links: Links, src: str, parent: map<str, str>, depth: map<str, nat>, nb: str, node: str)
    requires Tree(links, src, parent, depth) && nb !in depth && node in depth && (node, nb) in links
    ensures Tree(links, src, parent[nb := node], depth[nb := depth[node] + 1])
  {
    var parent', depth' := parent[nb := node], depth[nb := depth[node] + 1];
    forall x | x in parent' ensures HangsAt(links, parent', depth', x) {
      if x != nb { assert HangsAt(links, parent, depth, x); }
    }
  }

  /** Taking a closed node off the front of the queue. */
  lemma PopKeepsSearching(links: Links, src: str, dst: str, maxDepth: Option<nat>, parent: map<str, str>, depth: map<str, nat>, queue: seq<(str, nat)>)
    requires Searching(links, src, dst, maxDepth, parent, depth, queue) && queue != [] && Closed(links, maxDepth, depth, queue[0].0)
    ensures Searching(links, src, dst, maxDepth, parent, depth, queue[1..])
  {
    var rest := queue[1..];
    forall x | Open(queue, x) && x != queue[0].0 ensures Open(rest, x) {
      var j :| 0 <= j < |queue| && queue[j].0 == x;
      assert rest[j - 1].0 == x;
    }
  }

  /** Seeing `dst` below the front node yields a shortest path. */
  lemma FoundIsShortest(links: Links, src: str, dst: str, maxDepth: Option<nat>, parent: map<str, str>, depth: map<str, nat>, queue: seq<(str, nat)>, p: seq<str>)
    requires Searching(links, src, dst, maxDepth, parent, depth, queue) && queue != [] && Within(maxDepth, queue[0].1 + 1)
    requires PathFromTo(links, p, src, dst) && Simple(p) && |p| == queue[0].1 + 2
    ensures Shortest(links, src, dst, maxDepth, p)
  {
    forall q | PathFromTo(links, q, src, dst) ensures |p| <= |q| {
      if |q| < |p| { NoShorterPath(links, src, maxDepth, parent, depth, queue, queue[0].1, q); }
    }
  }

  /** With nothing left to expand there is no path within the bound. */
  lemma ExhaustedMeansNone(links: Links, src: str, dst: str, maxDepth: Option<nat>, parent: map<str, str>, depth: map<str, nat>)
    requires Searching(links, src, dst, maxDepth, parent, depth, [])
    ensures forall q :: PathFromTo(links, q, src, dst) ==> !Within(maxDepth, |q| - 1)
  {
    forall q | PathFromTo(links, q, src, dst) && Within(maxDepth, |q| - 1) ensures false {
      NoShorterPath(links, src, maxDepth, parent, depth, [], |q|, q);
    }
  }

  ghost function Targets(edges: seq<Edge>): set<str> {
    set e | e in edges :: e.1
  }

  /** Visits the neighbours of the front node, stopping at `dst`. */
  method Expand(edges: seq<Edge>, neighbours: seq<str>, ghost src: str, dst: str, ghost maxDepth: Option<nat>, parent: map<str, str>,
                ghost depth: map<str, nat>, visited: set<str>, queue: seq<(str, nat)>)
    returns (parent': map<str, str>, ghost depth': map<str, nat>, visited': set<str>, queue': seq<(str, nat)>, path: Option<seq<str>>)
    requires Searching(LinksOf(edges), src, dst, maxDepth, parent, depth, queue) && queue != [] && visited == depth.Keys
    requires Within(maxDepth, queue[0].1 + 1) && forall y :: y in neighbours <==> (queue[0].0, y) in edges
    ensures path.Some? ==> Shortest(LinksOf(edges), src, dst, maxDepth, path.value)
    ensures path.None? ==> Searching(LinksOf(edges), src, dst, maxDepth, parent', depth', queue') && visited' == depth'.Keys
    ensures path.None? ==> queue <= queue' && Closed(LinksOf(edges), maxDepth, depth', queue[0].0)
    ensures path.None? ==> depth.Keys <= depth'.Keys && depth'.Keys - depth.Keys <= Targets(edges)
    ensures path.None? && depth'.Keys == depth.Keys ==> queue' == queue
  {
    var links := LinksOf(edges);
    var (node, d) := queue[0];
    parent', depth', visited', queue', path := parent, depth, visited, queue, None;
    for k := 0 to |neighbours|
      invariant Searching(links, src, dst, maxDepth, parent', depth', queue') && visited' == depth'.Keys && path.None?
      invariant queue <= queue' && depth.Keys <= depth'.Keys && depth'.Keys - depth.Keys <= Targets(edges)
      invariant depth'.Keys == depth.Keys ==> queue' == queue
      invariant forall j :: 0 <= j < k ==> neighbours[j] in depth' && depth'[neighbours[j]] <= d + 1
    {
      var nb := neighbours[k];
      assert nb in neighbours && queue'[0] == (node, d);
      if nb !in visited' {
        visited' := visited' + {nb};
        TreeGrows(links, src, parent', depth', nb, node);
        if nb == dst {
          var p := Reconstruct(parent'[nb := node], dst, links, src, depth'[nb := d + 1]);
          FoundIsShortest(links, src, dst, maxDepth, parent', depth', queue', p);
          path := Some(p);
          return;
        }
        VisitKeepsSearching(links, src, dst, maxDepth, parent', depth', queue', nb);
        parent', depth', queue' := parent'[nb := node], depth'[nb := d + 1], queue' + [(nb, d + 1)];
      }
    }
  }

  /** `Some` exactly when a directed path within the bound exists; then a simple one with the fewest links. */
  method FindShortestPath(edges: seq<Edge>, src: str, dst: str, maxDepth: Option<nat>) returns (path: Option<seq<str>>)
    ensures path.Some? ==> Shortest(LinksOf(edges), src, dst, maxDepth, path.value)
    ensures path.Some? <==> exists q :: PathFromTo(LinksOf(edges), q, src, dst) && Within(maxDepth, |q| - 1)
  {
    if src == dst {
      return Some([src]);
    }
    var links := LinksOf(edges);
    var adj := BuildAdjacency(edges);
    var visited: set<str>, parent: map<str, str>, queue := {src}, map[], [(src, 0)];
    ghost var depth: map<str, nat> := map[src := 0];
    StartSearching(links, src, dst, maxDepth);
    while queue != []
      invariant Searching(links, src, dst, maxDepth, parent, depth, queue) && visited == depth.Keys
      decreases Targets(edges) - depth.Keys, |queue|
    {
      var (node, d) := queue[0];
      if maxDepth.Some? && d >= maxDepth.value {
        PopKeepsSearching(links, src, dst, maxDepth, parent, depth, queue);
        queue := queue[1..];
      } else {
        var neighbours := if node in adj then adj[node] else [];
        path := None;
        ghost var before := depth;
        parent, depth, visited, queue, path := Expand(edges, neighbours, src, dst, maxDepth, parent, depth, visited, queue);
        if path.Some? {
          return;
        }
        PopKeepsSearching(links, src, dst, maxDepth, parent, depth, queue);
        queue := queue[1..];
        if depth.Keys != before.Keys { Shrinks(Targets(edges), before.Keys, depth.Keys); }
      }
    }
    ExhaustedMeansNone(links, src, dst, maxDepth, parent, depth);
    path := None;
  }

  lemma Shrinks(all: set<str>, before: set<str>, after: set<str>)
    requires before <= after && after - before <= all && after != before
    ensures all - after < all - before
  {
    var x :| x in after && x !in before;
    assert x in all - before && x !in all - after;
  }

  lemma StartSearching(links: Links, src: str, dst: str, maxDepth: Option<nat>)
    requires src != dst
    ensures Searching(links, src, dst, maxDepth, map[], map[src := 0], [(src, 0)])
  {
    var queue := [(src, 0)];
    assert queue[0].0 == src;
    assert Open(queue, src);
  }
}
