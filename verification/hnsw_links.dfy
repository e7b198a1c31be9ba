/** Linking a new node into a layer of an HNSW graph, with pruning (crates/vector/src/hnsw.rs). */
module HnswLinks {
  import opened HnswGraph
  import Sorting

  type Distance = (Vector, Vector) -> real

  /** Neighbours with their distances from node `i`. */
  function Scored(nodes: seq<Node>, distance: Distance, i: nat, list: seq<nat>): (s: seq<(real, nat)>)
    requires i < |nodes| && forall k :: 0 <= k < |list| ==> list[k] < |nodes|
    ensures |s| == |list| && forall k :: 0 <= k < |s| ==> s[k].1 == list[k]
  {
    seq(|list|, k requires 0 <= k < |list| => (distance(nodes[i].vector, nodes[list[k]].vector), list[k]))
  }

  function Indices(s: seq<(real, nat)>): (r: seq<nat>)
    ensures |r| == |s| && forall k :: 0 <= k < |s| ==> r[k] == s[k].1
  {
    seq(|s|, k requires 0 <= k < |s| => s[k].1)
  }

  function Min(a: nat, b: nat): nat {
    if a <= b then a else b
  }

  /** A list over twice the capacity `m` is cut to its `m` nearest. */
  function Pruned(nodes: seq<Node>, distance: Distance, m: nat, i: nat, list: seq<nat>): seq<nat>
    requires i < |nodes| && forall k :: 0 <= k < |list| ==> list[k] < |nodes|
  {
    if |list| <= m * 2 then list
    else
      var scored := Sorting.Sort(Scored(nodes, distance, i, list), NotFarther);
      Indices(scored[..m])
  }

  function WithList(n: Node, layer: nat, list: seq<nat>): Node
    requires layer < |n.neighbors|
  {
    n.(neighbors := n.neighbors[layer := list])
  }

  /** Node `i` once `x` is in its list. */
  function BackLinked(nodes: seq<Node>, distance: Distance, m: nat, x: nat, layer: nat, i: nat): Node
    requires i < |nodes| && layer < |nodes[i].neighbors| && x < |nodes|
    requires forall k :: 0 <= k < |nodes[i].neighbors[layer]| ==> nodes[i].neighbors[layer][k] < |nodes|
  {
    WithList(nodes[i], layer, Pruned(nodes, distance, m, i, nodes[i].neighbors[layer] + [x]))
  }

  /** What links `x` to the listed nodes: they can carry it, are not it, and do not have it yet. */
  ghost predicate Linkable(nodes: seq<Node>, m: nat, x: nat, layer: nat, nearest: seq<nat>) {
    && Linked(nodes, m) && At(nodes, x, layer) && Distinct(nearest)
    && forall k :: 0 <= k < |nearest| ==> At(nodes, nearest[k], layer) && nearest[k] != x && x !in Around(nodes, layer, nearest[k])
  }

  /** Node `i` once `x` is connected: `x` lists the nearest, they list `x` back, the rest is unchanged. */
  ghost predicate ConnectedAt(nodes: seq<Node>, after: seq<Node>, distance: Distance, m: nat, x: nat, layer: nat, nearest: seq<nat>, i: nat)
    requires Linkable(nodes, m, x, layer, nearest) && i < |nodes| == |after|
  {
    if i == x then
      NodeOk(nodes, m, i) && after[i] == WithList(nodes[i], layer, nearest)
    else if i in nearest then
      && layer < |nodes[i].neighbors| && (forall k :: 0 <= k < |nodes[i].neighbors[layer]| ==> nodes[i].neighbors[layer][k] < |nodes|)
      && after[i] == BackLinked(nodes, distance, m, x, layer, i)
    else after[i] == nodes[i]
  }

  ghost predicate Connected(nodes: seq<Node>, after: seq<Node>, distance: Distance, m: nat, x: nat, layer: nat, nearest: seq<nat>) {
    && Linkable(nodes, m, x, layer, nearest) && |after| == |nodes|
    && forall i :: 0 <= i < |nodes| ==> ConnectedAt(nodes, after, distance, m, x, layer, nearest, i)
  }

  lemma PrunedOk(nodes: seq<Node>, distance: Distance, m: nat, i: nat, layer: nat, list: seq<nat>)
    requires i < |nodes| && Distinct(list) && forall k :: 0 <= k < |list| ==> list[k] != i && At(nodes, list[k], layer)
    ensures forall k :: 0 <= k < |list| ==> list[k] < |nodes|
    ensures ListOk(nodes, m, i, layer, Pruned(nodes, distance, m, i, list))
    ensures forall n :: n in Pruned(nodes, distance, m, i, list) ==> n in list
  {
    forall k | 0 <= k < |list| ensures list[k] < |nodes| { assert At(nodes, list[k], layer); }
    if |list| > m * 2 {
      var scored := Scored(nodes, distance, i, list);
      var sorted := Sorting.Sort(scored, NotFarther);
      SortedDistinct(scored, sorted);
      var cut := sorted[..m];
      forall k | 0 <= k < |cut| ensures cut[k].1 in list {
        assert sorted[k] in multiset(scored);
        var j :| 0 <= j < |scored| && scored[j] == sorted[k];
      }
    }
  }

  /** Pruning drops nothing closer than what it keeps. */
  lemma PrunedKeepsNearest(nodes: seq<Node>, distance: Distance, m: nat, i: nat, list: seq<nat>, kept: nat, dropped: nat)
    requires i < |nodes| && forall k :: 0 <= k < |list| ==> list[k] < |nodes|
    requires kept in Pruned(nodes, distance, m, i, list) && dropped in list && dropped !in Pruned(nodes, distance, m, i, list)
    ensures kept in list && distance(nodes[i].vector, nodes[kept].vector) <= distance(nodes[i].vector, nodes[dropped].vector)
  {
    var scored := Scored(nodes, distance, i, list);
    var sorted := Sorting.Sort(scored, NotFarther);
    assert |list| > 2 * m;
    var a := InCut(sorted, m, kept);
    var j: nat :| j < |list| && list[j] == dropped;
    Sorting.SameMembers(scored, sorted);
    assert scored[j] in sorted;
    var b: nat :| b < |sorted| && sorted[b] == scored[j];
    assert sorted[..m][a] == sorted[a];
    CutKeeps(sorted, m, b);
    assert Sorting.TotalPreorder(NotFarther);
    Sorting.SortSorted(scored, NotFarther);
    assert NotFarther(sorted[a], sorted[b]);
    ScoredEntry(nodes, distance, i, list, sorted[a]);
    ScoredEntry(nodes, distance, i, list, sorted[b]);
  }

  lemma InCut(sorted: seq<(real, nat)>, m: nat, x: nat) returns (a: nat)
    requires m <= |sorted| && x in Indices(sorted[..m])
    ensures a < m && sorted[a].1 == x
  {
    a :| a < m && Indices(sorted[..m])[a] == x;
  }

  lemma CutKeeps(sorted: seq<(real, nat)>, m: nat, b: nat)
    requires m <= |sorted| && b < |sorted|
    ensures b < m ==> sorted[b].1 in Indices(sorted[..m])
  {
    if b < m { assert Indices(sorted[..m])[b] == sorted[b].1; }
  }

  lemma ScoredEntry(nodes: seq<Node>, distance: Distance, i: nat, list: seq<nat>, e: (real, nat))
    requires i < |nodes| && forall k :: 0 <= k < |list| ==> list[k] < |nodes|
    requires e in Scored(nodes, distance, i, list)
    ensures e.1 in list && e.0 == distance(nodes[i].vector, nodes[e.1].vector)
  {
  }

  /** What connecting `x` does to the list of node `i`: below twice the capacity it grows by `x`, at twice the capacity `m` remain of it. */
  ghost predicate LinksBack(nodes: seq<Node>, after: seq<Node>, m: nat, x: nat, layer: nat, nearest: seq<nat>, i: nat) {
    var before, now := Around(nodes, layer, i), Around(after, layer, i);
    if i == x then now == nearest
    else if i !in nearest then now == before
    else if |before| < 2 * m then now == before + [x]
    else |now| == m && forall n :: n in now ==> n in before + [x]
  }

  lemma ConnectLinksBack(nodes: seq<Node>, after: seq<Node>, distance: Distance, m: nat, x: nat, layer: nat, nearest: seq<nat>, i: nat)
    requires Connected(nodes, after, distance, m, x, layer, nearest)
    ensures LinksBack(nodes, after, m, x, layer, nearest, i)
  {
    if i < |nodes| {
      assert ConnectedAt(nodes, after, distance, m, x, layer, nearest, i) && NodeOk(nodes, m, i);
      if i != x && i in nearest {
        AroundOk(nodes, m, layer, i);
        BackLinkPruned(nodes, distance, m, x, layer, i);
      }
    } else {
      forall k | 0 <= k < |nearest| ensures nearest[k] != i { assert At(nodes, nearest[k], layer); }
    }
  }

  lemma BackLinkPruned(nodes: seq<Node>, distance: Distance, m: nat, x: nat, layer: nat, i: nat)
    requires Linked(nodes, m) && At(nodes, x, layer) && At(nodes, i, layer) && i != x && x !in Around(nodes, layer, i)
    requires layer < |nodes[i].neighbors| && forall k :: 0 <= k < |nodes[i].neighbors[layer]| ==> nodes[i].neighbors[layer][k] < |nodes|
    ensures var before, now := nodes[i].neighbors[layer], BackLinked(nodes, distance, m, x, layer, i).neighbors[layer];
      if |before| < 2 * m then now == before + [x] else |now| == m && forall n :: n in now ==> n in before + [x]
  {
    AroundOk(nodes, m, layer, i);
    PrunedOk(nodes, distance, m, i, layer, nodes[i].neighbors[layer] + [x]);
  }

  lemma SortedDistinct(scored: seq<(real, nat)>, sorted: seq<(real, nat)>)
    requires multiset(scored) == multiset(sorted) && forall i, j :: 0 <= i < j < |scored| ==> scored[i].1 != scored[j].1
    ensures forall i, j :: 0 <= i < j < |sorted| ==> sorted[i].1 != sorted[j].1
  {
    forall i, j | 0 <= i < j < |sorted| ensures sorted[i].1 != sorted[j].1 {
      assert sorted[i] in multiset(scored) && sorted[j] in multiset(scored);
      var a :| 0 <= a < |scored| && scored[a] == sorted[i];
      var b :| 0 <= b < |scored| && scored[b] == sorted[j];
      if sorted[i] == sorted[j] {
        Sorting.TwiceCounts(sorted, i, j);
        Sorting.NoRepeatCounts(scored, sorted[i]);
      }
    }
  }

  /** Everything but the neighbour lists of one layer is as before. */
  ghost predicate SameBut(nodes: seq<Node>, after: seq<Node>, layer: nat) {
    |after| == |nodes| && forall i :: 0 <= i < |nodes| ==> SameAt(nodes[i], after[i], layer)
  }

  ghost predicate SameAt(n: Node, a: Node, layer: nat) {
    && SameFields(n, a)
    && forall l :: 0 <= l < |n.neighbors| && l != layer ==> a.neighbors[l] == n.neighbors[l]
  }

  ghost predicate SameFields(n: Node, a: Node) {
    a.id == n.id && a.vector == n.vector && a.level == n.level && a.deleted == n.deleted && |a.neighbors| == |n.neighbors|
  }

  lemma ConnectedFrame(nodes: seq<Node>, after: seq<Node>, distance: Distance, m: nat, x: nat, layer: nat, nearest: seq<nat>)
    requires Connected(nodes, after, distance, m, x, layer, nearest)
    ensures SameBut(nodes, after, layer)
  {
    forall i | 0 <= i < |nodes| ensures SameAt(nodes[i], after[i], layer) {
      assert ConnectedAt(nodes, after, distance, m, x, layer, nearest, i);
      assert NodeOk(nodes, m, i);
    }
  }

  /** Connecting keeps every list short, without repeats and inside its layer. */
  lemma ConnectKeepsLinked(nodes: seq<Node>, after: seq<Node>, distance: Distance, m: nat, x: nat, layer: nat, nearest: seq<nat>)
    requires Connected(nodes, after, distance, m, x, layer, nearest) && |nearest| <= m
    ensures Linked(after, m)
  {
    ConnectedFrame(nodes, after, distance, m, x, layer, nearest);
    forall i | 0 <= i < |after| ensures NodeOk(after, m, i) {
      assert NodeOk(nodes, m, i) && SameAt(nodes[i], after[i], layer);
      forall l | 0 <= l < |after[i].neighbors| ensures ListOk(after, m, i, l, after[i].neighbors[l]) {
        assert ListOk(nodes, m, i, l, nodes[i].neighbors[l]);
        if l != layer {
          ListStaysOk(nodes, after, m, i, l, layer, after[i].neighbors[l]);
        } else {
          ConnectedListOk(nodes, after, distance, m, x, layer, nearest, i);
        }
      }
    }
  }

  lemma ListStaysOk(nodes: seq<Node>, after: seq<Node>, m: nat, i: nat, l: nat, layer: nat, list: seq<nat>)
    requires ListOk(nodes, m, i, l, list) && SameBut(nodes, after, layer)
    ensures ListOk(after, m, i, l, list)
  {
    forall k | 0 <= k < |list| ensures At(after, list[k], l) {
      assert At(nodes, list[k], l) && SameAt(nodes[list[k]], after[list[k]], layer);
    }
  }

  lemma ConnectedListOk(nodes: seq<Node>, after: seq<Node>, distance: Distance, m: nat, x: nat, layer: nat, nearest: seq<nat>, i: nat)
    requires Connected(nodes, after, distance, m, x, layer, nearest) && |nearest| <= m && i < |nodes|
    requires SameBut(nodes, after, layer) && layer < |after[i].neighbors|
    ensures ListOk(after, m, i, layer, after[i].neighbors[layer])
  {
    assert ConnectedAt(nodes, after, distance, m, x, layer, nearest, i) && NodeOk(nodes, m, i) && SameAt(nodes[i], after[i], layer);
    var old_ := nodes[i].neighbors[layer];
    assert ListOk(nodes, m, i, layer, old_);
    if i == x {
      assert ListOk(nodes, m, i, layer, nearest);
      ListStaysOk(nodes, after, m, i, layer, layer, nearest);
    } else if i in nearest {
      assert x !in Around(nodes, layer, i);
      PrunedOk(nodes, distance, m, i, layer, old_ + [x]);
      ListStaysOk(nodes, after, m, i, layer, layer, Pruned(nodes, distance, m, i, old_ + [x]));
    } else {
      ListStaysOk(nodes, after, m, i, layer, layer, old_);
    }
  }

  /** `x` is in no neighbour list of the layer. */
  ghost predicate Absent(nodes: seq<Node>, x: nat, layer: nat) {
    forall i: nat {:trigger Around(nodes, layer, i)} :: x !in Around(nodes, layer, i)
  }

  lemma AbsentUnreachable(nodes: seq<Node>, layer: nat, start: nat, x: nat, y: nat)
    requires Absent(nodes, x, layer) && start != x && Reachable(nodes, layer, start, y)
    ensures y != x
  {
    var p :| IsWalk(nodes, layer, p) && p[0] == start && p[|p| - 1] == y;
    if |p| > 1 {
      assert p[|p| - 1] in Around(nodes, layer, p[|p| - 2]);
    }
  }

  lemma AbsentStays(nodes: seq<Node>, after: seq<Node>, x: nat, layer: nat, l: nat)
    requires SameBut(nodes, after, layer) && l != layer && Absent(nodes, x, l)
    ensures Absent(after, x, l)
  {
    forall i: nat ensures x !in Around(after, l, i) {
      if i < |nodes| {
        assert SameAt(nodes[i], after[i], layer);
        assert Around(after, l, i) == Around(nodes, l, i);
      }
    }
  }
}
