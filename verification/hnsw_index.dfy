/** The HNSW index: insertion, soft deletion and search (crates/vector/src/hnsw.rs). */
module HnswIndexes {
  import opened Bytes
  import opened Wrappers
  import opened HnswGraph
  import opened HnswLinks

  datatype Config = Config(m: nat, efConstruction: nat, maxLayers: nat)

  // -------------------------------------------------------------------------
  // What a valid index looks like
  // -------------------------------------------------------------------------

  ghost predicate Levels(nodes: seq<Node>, maxLayers: nat) {
    forall i :: 0 <= i < |nodes| ==> nodes[i].level < maxLayers
  }

  /** The entry point is a node of the highest level. */
  ghost predicate EntryOk(nodes: seq<Node>, entryPoint: Option<nat>, maxLevel: nat) {
    match entryPoint
    case None => nodes == [] && maxLevel == 0
    case Some(e) => e < |nodes| && nodes[e].level == maxLevel && forall i :: 0 <= i < |nodes| ==> nodes[i].level <= maxLevel
  }

  /** Every looked-up id names a live node carrying it. */
  ghost predicate LookupOk(nodes: seq<Node>, lookup: map<str, nat>) {
    forall id :: id in lookup ==> lookup[id] < |nodes| && !nodes[lookup[id]].deleted && nodes[lookup[id]].id == id
  }

  /** Every live node is the one its id looks up; so live ids are unique. */
  ghost predicate LiveUnique(nodes: seq<Node>, lookup: map<str, nat>) {
    forall i :: 0 <= i < |nodes| && !nodes[i].deleted ==> nodes[i].id in lookup && lookup[nodes[i].id] == i
  }

  /** Live ids and their vectors. */
  ghost function LiveOf(nodes: seq<Node>, lookup: map<str, nat>): map<str, Vector>
    requires LookupOk(nodes, lookup)
  {
    map id | id in lookup :: nodes[lookup[id]].vector
  }

  /** Distances of the nodes from a query. */
  function QueryDist(nodes: seq<Node>, distance: Distance, query: Vector): Dist {
    i => if 0 <= i < |nodes| then distance(query, nodes[i].vector) else 0.0
  }

  ghost predicate AllSameFields(nodes: seq<Node>, after: seq<Node>) {
    |after| == |nodes| && forall i :: 0 <= i < |nodes| ==> SameFields(nodes[i], after[i])
  }

  ghost predicate DescentAt(nodes: seq<Node>, d: Dist, top: nat, path: seq<nat>, i: nat)
    requires i + 1 < |path|
  {
    i <= top && GreedyEnd(nodes, d, top - i, path[i], path[i + 1])
  }

  /** Every node of `path` is where the greedy search of one layer ended, the layers going down from `top`. */
  ghost predicate Descent(nodes: seq<Node>, d: Dist, top: nat, path: seq<nat>) {
    forall i: nat :: i + 1 < |path| ==> DescentAt(nodes, d, top, path, i)
  }

  /** `to` is reached from `from` by one greedy search per layer, from `top` down to the one above `bottom`. */
  ghost predicate DescendsTo(nodes: seq<Node>, d: Dist, from: nat, top: nat, bottom: nat, to: nat) {
    exists path :: DescentTo(nodes, d, from, top, bottom, to, path)
  }

  ghost predicate DescentTo(nodes: seq<Node>, d: Dist, from: nat, top: nat, bottom: nat, to: nat, path: seq<nat>) {
    path != [] && |path| + bottom == top + 1 && path[0] == from && path[|path| - 1] == to && Descent(nodes, d, top, path)
  }

  lemma DescentNext(nodes: seq<Node>, d: Dist, from: nat, top: nat, layer: nat, path: seq<nat>, current: nat, next: nat)
    requires DescentTo(nodes, d, from, top, layer, current, path) && layer > 0 && GreedyEnd(nodes, d, layer, current, next)
    ensures DescentTo(nodes, d, from, top, layer - 1, next, path + [next])
  {
    var more := path + [next];
    forall i: nat | i + 1 < |more| ensures DescentAt(nodes, d, top, more, i) {
      if i + 1 < |path| { assert DescentAt(nodes, d, top, path, i); }
    }
  }

  /** Greedy descent through the layers above `bottom`. */
  method Descend(nodes: seq<Node>, ghost m: nat, d: Dist, ep: nat, top: nat, bottom: nat) returns (current: nat)
    requires Linked(nodes, m) && At(nodes, ep, top) && bottom <= top
    ensures DescendsTo(nodes, d, ep, top, bottom, current)
    ensures At(nodes, current, bottom) && d(current) <= d(ep)
    ensures (bottom == top ==> current == ep) && (current == ep || At(nodes, current, bottom + 1))
  {
    current := ep;
    ghost var path := [ep];
    for layer := top + 1 downto bottom + 1
      invariant At(nodes, current, layer - 1) && d(current) <= d(ep)
      invariant (bottom == top ==> current == ep) && (current == ep || At(nodes, current, bottom + 1))
      invariant DescentTo(nodes, d, ep, top, layer - 1, current, path)
    {
      ghost var before := current;
      current := GreedyClosest(nodes, m, d, current, layer);
      DescentNext(nodes, d, ep, top, layer, path, before, current);
      path := path + [current];
    }
  }

  /** The `m` nearest of the search results. */
  function NearestOf(neighbors: seq<(real, nat)>, m: nat): seq<nat> {
    Indices(neighbors[..Min(m, |neighbors|)])
  }

  /** They are as many as fit, and no result left out is nearer. */
  lemma NearestFirst(nodes: seq<Node>, layer: nat, d: Dist, start: nat, e: nat, found: seq<(real, nat)>, m: nat)
    requires Beam(nodes, layer, d, start, e, found)
    ensures |NearestOf(found, m)| == Min(m, |found|)
    ensures forall hit, x :: hit in found && hit.1 !in NearestOf(found, m) && x in NearestOf(found, m) ==> d(x) <= hit.0
  {
    var nearest := NearestOf(found, m);
    assert forall l :: 0 <= l < |nearest| ==> nearest[l] == found[l].1 && found[l].1 in nearest;
    forall hit, x | hit in found && hit.1 !in nearest && x in nearest ensures d(x) <= hit.0 {
      var j :| 0 <= j < |found| && found[j] == hit;
      var k :| 0 <= k < |nearest| && nearest[k] == x;
      assert FoundOk(nodes, layer, d, start, e, found, found[k]);
    }
  }

  lemma ResultsLinkable(nodes: seq<Node>, m: nat, d: Dist, start: nat, e: nat, layer: nat, x: nat, found: seq<(real, nat)>)
    requires Linked(nodes, m) && At(nodes, x, layer) && Absent(nodes, x, layer) && start != x
    requires Beam(nodes, layer, d, start, e, found)
    ensures Linkable(nodes, m, x, layer, NearestOf(found, m)) && |NearestOf(found, m)| <= m
    ensures At(nodes, found[0].1, layer) && found[0].1 != x
  {
    forall k | 0 <= k < |found| ensures At(nodes, found[k].1, layer) && found[k].1 != x && x !in Around(nodes, layer, found[k].1) {
      assert FoundOk(nodes, layer, d, start, e, found, found[k]);
      AbsentUnreachable(nodes, layer, start, x, found[k].1);
    }
  }

  lemma PrunedByVectors(nodes: seq<Node>, after: seq<Node>, distance: Distance, m: nat, i: nat, list: seq<nat>)
    requires AllSameFields(nodes, after) && i < |nodes| && forall k :: 0 <= k < |list| ==> list[k] < |nodes|
    ensures Pruned(after, distance, m, i, list) == Pruned(nodes, distance, m, i, list)
  {
    assert SameFields(nodes[i], after[i]);
    forall k | 0 <= k < |list| ensures nodes[list[k]].vector == after[list[k]].vector { assert SameFields(nodes[list[k]], after[list[k]]); }
    assert Scored(after, distance, i, list) == Scored(nodes, distance, i, list);
  }

  /** What one more back link does to the nodes connected so far. */
  lemma BackLinkOk(start: seq<Node>, nodes: seq<Node>, distance: Distance, m: nat, x: nat, layer: nat, nearest: seq<nat>, k: nat)
    requires Linkable(start, m, x, layer, nearest) && |nodes| == |start| && k < |nearest|
    requires forall i :: 0 <= i < |start| ==> ConnectedSoFar(start, nodes, distance, m, x, layer, nearest, k, i)
    ensures var n := nearest[k];
      && n < |nodes| && nodes[n] == start[n] && layer < |nodes[n].neighbors| && x < |nodes|
      && (forall j :: 0 <= j < |nodes[n].neighbors[layer]| ==> nodes[n].neighbors[layer][j] < |nodes|)
      && Pruned(nodes, distance, m, n, nodes[n].neighbors[layer] + [x]) == Pruned(start, distance, m, n, nodes[n].neighbors[layer] + [x])
  {
    var n := nearest[k];
    assert At(start, n, layer);
    assert ConnectedSoFar(start, nodes, distance, m, x, layer, nearest, k, n);
    ListInRange(start, m, n, layer);
    SoFarSameFields(start, nodes, distance, m, x, layer, nearest, k);
    PrunedByVectors(start, nodes, distance, m, n, nodes[n].neighbors[layer] + [x]);
  }

  lemma BackLinkStep(start: seq<Node>, before: seq<Node>, after: seq<Node>, distance: Distance, m: nat, x: nat, layer: nat, nearest: seq<nat>, k: nat, done: nat)
    requires Linkable(start, m, x, layer, nearest) && |before| == |start| && k < |nearest| && done == k + 1
    requires forall i :: 0 <= i < |start| ==> ConnectedSoFar(start, before, distance, m, x, layer, nearest, k, i)
    requires var n := nearest[k];
      && n < |before| && layer < |before[n].neighbors| && x < |before|
      && (forall j :: 0 <= j < |before[n].neighbors[layer]| ==> before[n].neighbors[layer][j] < |before|)
      && after == before[n := WithList(before[n], layer, Pruned(before, distance, m, n, before[n].neighbors[layer] + [x]))]
    ensures forall i :: 0 <= i < |start| ==> ConnectedSoFar(start, after, distance, m, x, layer, nearest, done, i)
  {
    BackLinkOk(start, before, distance, m, x, layer, nearest, k);
    var n := nearest[k];
    assert after == before[n := BackLinked(start, distance, m, x, layer, n)];
    forall i | 0 <= i < |start| ensures ConnectedSoFar(start, after, distance, m, x, layer, nearest, done, i) {
      assert ConnectedSoFar(start, before, distance, m, x, layer, nearest, k, i);
      BackLinkAt(start, before, after, distance, m, x, layer, nearest, k, i);
    }
  }

  lemma BackLinkAt(start: seq<Node>, before: seq<Node>, after: seq<Node>, distance: Distance, m: nat, x: nat, layer: nat, nearest: seq<nat>, k: nat, i: nat)
    requires i < |start| == |before| && x < |start| && k < |nearest| && nearest[k] < |start| && nearest[k] != x
    requires layer < |start[nearest[k]].neighbors| && forall j :: 0 <= j < |start[nearest[k]].neighbors[layer]| ==> start[nearest[k]].neighbors[layer][j] < |start|
    requires after == before[nearest[k] := BackLinked(start, distance, m, x, layer, nearest[k])]
    requires ConnectedSoFar(start, before, distance, m, x, layer, nearest, k, i)
    ensures ConnectedSoFar(start, after, distance, m, x, layer, nearest, k + 1, i)
  {
    assert nearest[..k + 1] == nearest[..k] + [nearest[k]];
  }

  lemma AllConnected(start: seq<Node>, after: seq<Node>, distance: Distance, m: nat, x: nat, layer: nat, nearest: seq<nat>)
    requires Linkable(start, m, x, layer, nearest) && |after| == |start|
    requires forall i :: 0 <= i < |start| ==> ConnectedSoFar(start, after, distance, m, x, layer, nearest, |nearest|, i)
    ensures Connected(start, after, distance, m, x, layer, nearest)
  {
    assert NodeOk(start, m, x);
    forall i | 0 <= i < |start| ensures ConnectedAt(start, after, distance, m, x, layer, nearest, i) {
      assert ConnectedSoFar(start, after, distance, m, x, layer, nearest, |nearest|, i);
      if i in nearest { ListInRange(start, m, i, layer); }
    }
  }

  lemma AfterConnect(before: seq<Node>, after: seq<Node>, distance: Distance, m: nat, x: nat, layer: nat, nearest: seq<nat>)
    requires Connected(before, after, distance, m, x, layer, nearest) && |nearest| <= m
    ensures SameBut(before, after, layer) && AllSameFields(before, after) && Linked(after, m)
  {
    ConnectedFrame(before, after, distance, m, x, layer, nearest);
    ConnectKeepsLinked(before, after, distance, m, x, layer, nearest);
    FrameFields(before, after, layer);
  }

  lemma ListInRange(nodes: seq<Node>, m: nat, i: nat, layer: nat)
    requires Linked(nodes, m) && At(nodes, i, layer)
    ensures layer < |nodes[i].neighbors| && forall k :: 0 <= k < |nodes[i].neighbors[layer]| ==> nodes[i].neighbors[layer][k] < |nodes|
  {
    assert NodeOk(nodes, m, i);
    assert ListOk(nodes, m, i, layer, nodes[i].neighbors[layer]);
  }

  ghost predicate ConnectedSoFar(nodes: seq<Node>, after: seq<Node>, distance: Distance, m: nat, x: nat, layer: nat, nearest: seq<nat>, k: nat, i: nat)
    requires i < |nodes| == |after| && k <= |nearest|
  {
    if i == x then
      layer < |nodes[i].neighbors| && after[i] == WithList(nodes[i], layer, nearest)
    else if i in nearest[..k] then
      && x < |nodes| && layer < |nodes[i].neighbors| && (forall k :: 0 <= k < |nodes[i].neighbors[layer]| ==> nodes[i].neighbors[layer][k] < |nodes|)
      && after[i] == BackLinked(nodes, distance, m, x, layer, i)
    else after[i] == nodes[i]
  }

  lemma SoFarSameFields(nodes: seq<Node>, after: seq<Node>, distance: Distance, m: nat, x: nat, layer: nat, nearest: seq<nat>, k: nat)
    requires |after| == |nodes| && k <= |nearest|
    requires forall i :: 0 <= i < |nodes| ==> ConnectedSoFar(nodes, after, distance, m, x, layer, nearest, k, i)
    ensures AllSameFields(nodes, after)
  {
    forall i | 0 <= i < |nodes| ensures SameFields(nodes[i], after[i]) {
      assert ConnectedSoFar(nodes, after, distance, m, x, layer, nearest, k, i);
    }
  }

  /** What linking a new last node needs before the layers from `layer` down are connected. */
  ghost predicate Linking(nodes: seq<Node>, m: nat, x: nat, current: nat, layer: nat) {
    && Linked(nodes, m) && At(nodes, x, layer) && At(nodes, current, layer) && current != x
    && forall l :: 0 <= l <= layer ==> Absent(nodes, x, l)
  }

  /** One layer linked: `x` connected to the nearest of a beam search from `start`. */
  ghost predicate LayerLinked(nodes: seq<Node>, after: seq<Node>, distance: Distance, m: nat, efConstruction: nat, x: nat, start: nat, layer: nat, found: seq<(real, nat)>) {
    && x < |nodes| && Beam(nodes, layer, QueryDist(nodes, distance, nodes[x].vector), start, Max(efConstruction, 1), found)
    && Connected(nodes, after, distance, m, x, layer, NearestOf(found, m))
  }

  /** Links one layer: the nodes before and after, where its search starts, the layer, and what the search found. */
  type LayerStep = (seq<Node>, seq<Node>, nat, nat, seq<(real, nat)>) -> bool

  ghost function LinkOf(distance: Distance, m: nat, efConstruction: nat, x: nat): LayerStep {
    (nodes: seq<Node>, after: seq<Node>, start: nat, layer: nat, found: seq<(real, nat)>) => LayerLinked(nodes, after, distance, m, efConstruction, x, start, layer, found)
  }

  ghost predicate LinkageAt(step: LayerStep, states: seq<seq<Node>>, finds: seq<seq<(real, nat)>>, start: nat, top: nat, i: nat)
    requires i + 1 < |states| == |finds| + 1 && i <= top
  {
    (i > 0 ==> finds[i - 1] != []) && step(states[i], states[i + 1], if i == 0 then start else finds[i - 1][0].1, top - i, finds[i])
  }

  /** Layers linked one after the other from `top` down, each search starting at the nearest result of the one above. */
  ghost predicate Linkage(step: LayerStep, states: seq<seq<Node>>, finds: seq<seq<(real, nat)>>, start: nat, top: nat) {
    |states| == |finds| + 1 <= top + 2 && forall i: nat :: i < |finds| ==> LinkageAt(step, states, finds, start, top, i)
  }

  /** All layers from `top` down to 0 linked. */
  ghost predicate LinkedDown(step: LayerStep, nodes: seq<Node>, after: seq<Node>, start: nat, top: nat) {
    exists states, finds :: Links(step, nodes, after, states, finds, start, top)
  }

  ghost predicate Links(step: LayerStep, nodes: seq<Node>, after: seq<Node>, states: seq<seq<Node>>, finds: seq<seq<(real, nat)>>, start: nat, top: nat) {
    Linkage(step, states, finds, start, top) && |finds| == top + 1 && states[0] == nodes && states[top + 1] == after
  }

  /** The layers above `layer` are linked, and the next search starts at `current`. */
  ghost predicate LinkedAbove(step: LayerStep, nodes: seq<Node>, after: seq<Node>, states: seq<seq<Node>>, finds: seq<seq<(real, nat)>>, start: nat, top: nat, layer: nat, current: nat) {
    && Linkage(step, states, finds, start, top)
    && |finds| + layer == top + 1 && states[0] == nodes && states[|finds|] == after
    && if finds == [] then current == start else finds[|finds| - 1] != [] && current == finds[|finds| - 1][0].1
  }

  lemma LinkageNext(step: LayerStep, nodes: seq<Node>, before: seq<Node>, states: seq<seq<Node>>, finds: seq<seq<(real, nat)>>, start: nat, top: nat,
                    layer: nat, current: nat, after: seq<Node>, found: seq<(real, nat)>)
    requires LinkedAbove(step, nodes, before, states, finds, start, top, layer + 1, current)
    requires step(before, after, current, layer, found) && found != []
    ensures LinkedAbove(step, nodes, after, states + [after], finds + [found], start, top, layer, found[0].1)
  {
    var moreStates, moreFinds := states + [after], finds + [found];
    forall i: nat | i < |moreFinds| ensures LinkageAt(step, moreStates, moreFinds, start, top, i) {
      if i < |finds| {
        assert LinkageAt(step, states, finds, start, top, i);
      }
    }
  }

  lemma FrameFields(nodes: seq<Node>, after: seq<Node>, layer: nat)
    requires SameBut(nodes, after, layer)
    ensures AllSameFields(nodes, after)
  {
    forall i | 0 <= i < |nodes| ensures SameFields(nodes[i], after[i]) { assert SameAt(nodes[i], after[i], layer); }
  }

  lemma LinkingBelow(nodes: seq<Node>, after: seq<Node>, m: nat, x: nat, current: nat, layer: nat)
    requires layer > 0 && SameBut(nodes, after, layer) && Linked(after, m) && At(nodes, x, layer) && At(nodes, current, layer) && current != x
    requires forall l :: 0 <= l <= layer ==> Absent(nodes, x, l)
    ensures Linking(after, m, x, current, layer - 1)
  {
    assert SameAt(nodes[x], after[x], layer) && SameAt(nodes[current], after[current], layer);
    forall l | 0 <= l <= layer - 1 ensures Absent(after, x, l) { AbsentStays(nodes, after, x, layer, l); }
  }

  lemma SameFieldsTransitive(a: seq<Node>, b: seq<Node>, c: seq<Node>)
    requires AllSameFields(a, b) && AllSameFields(b, c)
    ensures AllSameFields(a, c)
  {
    forall i | 0 <= i < |a| ensures SameFields(a[i], c[i]) { assert SameFields(a[i], b[i]) && SameFields(b[i], c[i]); }
  }

  /** A node as pushed: no neighbours yet. */
  function NewNode(id: str, vector: Vector, level: nat): (n: Node)
    ensures |n.neighbors| == level + 1
  {
    Node(id, vector, level, seq(level + 1, _ => []), false)
  }

  lemma PushKeepsLinked(nodes: seq<Node>, m: nat, n: Node)
    requires Linked(nodes, m) && n == NewNode(n.id, n.vector, n.level)
    ensures Linked(nodes + [n], m) && forall l: nat :: Absent(nodes + [n], |nodes|, l)
  {
    var after := nodes + [n];
    forall i | 0 <= i < |after| ensures NodeOk(after, m, i) {
      if i < |nodes| {
        assert NodeOk(nodes, m, i);
        forall l | 0 <= l < |nodes[i].neighbors| ensures ListOk(after, m, i, l, nodes[i].neighbors[l]) {
          assert ListOk(nodes, m, i, l, nodes[i].neighbors[l]);
          forall k | 0 <= k < |nodes[i].neighbors[l]| ensures At(after, nodes[i].neighbors[l][k], l) { assert At(nodes, nodes[i].neighbors[l][k], l); }
        }
      }
    }
    forall l: nat, i: nat ensures |nodes| !in Around(after, l, i) {
      if i < |nodes| && l < |nodes[i].neighbors| {
        assert NodeOk(nodes, m, i) && ListOk(nodes, m, i, l, nodes[i].neighbors[l]);
        forall k | 0 <= k < |nodes[i].neighbors[l]| ensures nodes[i].neighbors[l][k] != |nodes| { assert At(nodes, nodes[i].neighbors[l][k], l); }
      }
    }
  }

  /** The id and distance of each live result. */
  function LiveHits(nodes: seq<Node>, found: seq<(real, nat)>): (hits: seq<(str, real)>)
    requires forall i :: 0 <= i < |found| ==> found[i].1 < |nodes|
    ensures |hits| <= |found|
  {
    if found == [] then []
    else
      var (dist, idx) := found[|found| - 1];
      LiveHits(nodes, found[..|found| - 1]) + (if nodes[idx].deleted then [] else [(nodes[idx].id, dist)])
  }

  class HnswIndex {
    const config: Config
    const metric: Metric
    const dim: nat
    const measure: (Vector, Vector, Metric) -> real

    var nodes: seq<Node>
    var nodeLookup: map<str, nat>
    var entryPoint: Option<nat>
    var maxLevel: nat

    ghost predicate Valid()
      reads this
    {
      && Linked(nodes, config.m) && Levels(nodes, config.maxLayers) && EntryOk(nodes, entryPoint, maxLevel)
      && LookupOk(nodes, nodeLookup)
    }

    ghost predicate Unique()
      reads this
    {
      LiveUnique(nodes, nodeLookup)
    }

    ghost predicate Dimensioned()
      reads this
    {
      forall i :: 0 <= i < |nodes| ==> |nodes[i].vector| == dim
    }

    ghost function Live(): map<str, Vector>
      requires Valid()
      reads this
    {
      LiveOf(nodes, nodeLookup)
    }

    /** The distance of the index's metric. */
    function Between(): Distance {
      (a, b) => measure(a, b, metric)
    }

    constructor (dim: nat, metric: Metric, config: Config, measure: (Vector, Vector, Metric) -> real)
      ensures Valid() && Unique() && Dimensioned() && Live() == map[]
      ensures this.dim == dim && this.metric == metric && this.config == config && this.measure == measure && nodes == []
    {
      this.dim, this.metric, this.config, this.measure := dim, metric, config, measure;
      nodes, nodeLookup, entryPoint, maxLevel := [], map[], None, 0;
    }

    /** Connects `x` to its nearest neighbours in a layer, and them back to it. */
    method Connect(x: nat, neighbors: seq<(real, nat)>, layer: nat)
      requires Linkable(nodes, config.m, x, layer, NearestOf(neighbors, config.m))
      modifies this`nodes
      ensures Connected(old(nodes), nodes, Between(), config.m, x, layer, NearestOf(neighbors, config.m))
      ensures forall i: nat :: LinksBack(old(nodes), nodes, config.m, x, layer, NearestOf(neighbors, config.m), i)
    {
      var nearest, m := NearestOf(neighbors, config.m), config.m;
      ghost var start := nodes;
      assert NodeOk(start, m, x);
      nodes := nodes[x := WithList(nodes[x], layer, nearest)];
      for k := 0 to |nearest|
        invariant |nodes| == |start|
        invariant forall i :: 0 <= i < |start| ==> ConnectedSoFar(start, nodes, Between(), m, x, layer, nearest, k, i)
      {
        ghost var before := nodes;
        BackLinkOk(start, nodes, Between(), m, x, layer, nearest, k);
        nodes := nodes[nearest[k] := WithList(nodes[nearest[k]], layer, Pruned(nodes, Between(), m, nearest[k], nodes[nearest[k]].neighbors[layer] + [x]))];
        BackLinkStep(start, before, nodes, Between(), m, x, layer, nearest, k, k + 1);
      }
      AllConnected(start, nodes, Between(), m, x, layer, nearest);
      forall i: nat ensures LinksBack(start, nodes, m, x, layer, nearest, i) {
        ConnectLinksBack(start, nodes, Between(), m, x, layer, nearest, i);
      }
    }

    /** Searches and connects one layer. */
    method ConnectLayer(x: nat, start: nat, layer: nat) returns (current: nat, ghost found: seq<(real, nat)>)
      requires Linking(nodes, config.m, x, start, layer)
      modifies this`nodes
      ensures Linked(nodes, config.m) && AllSameFields(old(nodes), nodes)
      ensures LayerLinked(old(nodes), nodes, Between(), config.m, config.efConstruction, x, start, layer, found) && current == found[0].1
      ensures layer > 0 ==> Linking(nodes, config.m, x, current, layer - 1)
    {
      var d := QueryDist(nodes, Between(), nodes[x].vector);
      var results := SearchLayer(nodes, config.m, d, start, config.efConstruction, layer);
      found := results;
      assert Absent(nodes, x, layer);
      ResultsLinkable(nodes, config.m, d, start, Max(config.efConstruction, 1), layer, x, found);
      ghost var before := nodes;
      Connect(x, results, layer);
      current := start;
      if results != [] {
        current := results[0].1;
      }
      AfterConnect(before, nodes, Between(), config.m, x, layer, NearestOf(found, config.m));
      if layer > 0 { LinkingBelow(before, nodes, config.m, x, current, layer); }
    }

    /** Connects every layer from `top` down to 0. */
    method ConnectLayers(x: nat, start: nat, top: nat)
      requires Linking(nodes, config.m, x, start, top)
      modifies this`nodes
      ensures Linked(nodes, config.m) && AllSameFields(old(nodes), nodes)
      ensures LinkedDown(LinkOf(Between(), config.m, config.efConstruction, x), old(nodes), nodes, start, top)
    {
      var current := start;
      ghost var m, pushed, step := config.m, nodes, LinkOf(Between(), config.m, config.efConstruction, x);
      ghost var states: seq<seq<Node>>, finds: seq<seq<(real, nat)>> := [nodes], [];
      for layer := top + 1 downto 0
        invariant Linked(nodes, m) && AllSameFields(pushed, nodes)
        invariant layer > 0 ==> Linking(nodes, m, x, current, layer - 1)
        invariant LinkedAbove(step, pushed, nodes, states, finds, start, top, layer, current)
      {
        ghost var before, from := nodes, current;
        ghost var found;
        current, found := ConnectLayer(x, current, layer);
        SameFieldsTransitive(pushed, before, nodes);
        LinkageNext(step, pushed, before, states, finds, start, top, layer, from, nodes, found);
        states, finds := states + [nodes], finds + [found];
      }
      assert Links(step, pushed, nodes, states, finds, start, top);
    }

    /** Links the freshly pushed last node into every layer it shares with the graph. */
    method LinkNew(x: nat, ep: nat, level: nat)
      requires Linked(nodes, config.m) && x < |nodes| && nodes[x].level == level && ep != x && At(nodes, ep, maxLevel)
      requires forall l: nat :: Absent(nodes, x, l)
      modifies this`nodes
      ensures Linked(nodes, config.m) && AllSameFields(old(nodes), nodes)
      ensures Joined(old(nodes), nodes, Between(), config, x, ep, maxLevel, level)
    {
      var d := QueryDist(nodes, Between(), nodes[x].vector);
      var top := Min(level, maxLevel);
      var current := Descend(nodes, config.m, d, ep, maxLevel, top);
      assert current != x;
      ConnectLayers(x, current, top);
    }

    /** Makes the pushed node the entry point of an empty index, or links it and lets the higher level be the entry point. */
    method Attach(x: nat, level: nat)
      requires Linked(nodes, config.m) && |nodes| == x + 1 && nodes[x].level == level && forall l: nat :: Absent(nodes, x, l)
      requires EntryOk(nodes[..x], entryPoint, maxLevel)
      modifies this`nodes, this`entryPoint, this`maxLevel
      ensures Linked(nodes, config.m) && AllSameFields(old(nodes), nodes) && EntryOk(nodes, entryPoint, maxLevel)
      ensures if old(entryPoint).None? then nodes == old(nodes)
              else Joined(old(nodes), nodes, Between(), config, x, old(entryPoint).value, old(maxLevel), level)
      ensures if old(entryPoint).None? || level > old(maxLevel) then entryPoint == Some(x) && maxLevel == level
              else entryPoint == old(entryPoint) && maxLevel == old(maxLevel)
    {
      ghost var pushed := nodes;
      forall i | 0 <= i < x ensures nodes[i] == nodes[..x][i] {}
      if entryPoint.None? {
        entryPoint, maxLevel := Some(x), level;
      } else {
        LinkNew(x, entryPoint.value, level);
        if level > maxLevel {
          maxLevel, entryPoint := level, Some(x);
        }
      }
      forall i | 0 <= i < |nodes| ensures SameFields(pushed[i], nodes[i]) {}
    }

    /**
     Adds a node of the given level. The structure survives any insertion; live
     ids stay unique exactly when the id was not live before.
     */
    method Insert(id: str, vector: Vector, level: nat)
      requires Valid() && level < config.maxLayers
      modifies this
      ensures Valid() && Live() == old(Live())[id := vector]
      ensures |nodes| == |old(nodes)| + 1 && AllSameFields(old(nodes) + [NewNode(id, vector, level)], nodes)
      ensures nodeLookup == old(nodeLookup)[id := |old(nodes)|]
      ensures if old(entryPoint).None? then nodes == [NewNode(id, vector, level)]
              else Joined(old(nodes) + [NewNode(id, vector, level)], nodes, Between(), config, |old(nodes)|, old(entryPoint).value, old(maxLevel), level)
      ensures if old(entryPoint).None? || level > old(maxLevel) then entryPoint == Some(|old(nodes)|) && maxLevel == level
              else entryPoint == old(entryPoint) && maxLevel == old(maxLevel)
      ensures old(Unique()) ==> (Unique() <==> id !in old(nodeLookup))
      ensures old(Dimensioned()) && |vector| == dim ==> Dimensioned()
    {
      var newIdx := |nodes|;
      ghost var before, lookup := nodes, nodeLookup;
      PushKeepsLinked(nodes, config.m, NewNode(id, vector, level));
      nodes := nodes + [NewNode(id, vector, level)];
      assert nodes[..newIdx] == before;
      nodeLookup := nodeLookup[id := newIdx];
      Attach(newIdx, level);
      InsertedFields(before, nodes, id, vector, level, lookup);
    }

    /** Marks a live node deleted. */
    method Remove(id: str) returns (removed: bool)
      requires Valid()
      modifies this`nodes, this`nodeLookup
      ensures Valid() && removed == (id in old(Live())) && Live() == old(Live()) - {id}
      ensures (old(Unique()) ==> Unique()) && (old(Dimensioned()) ==> Dimensioned())
      ensures AllButDeleted(old(nodes), nodes)
    {
      if id in nodeLookup && !nodes[nodeLookup[id]].deleted {
        var idx := nodeLookup[id];
        DeleteKeepsLinked(nodes, config.m, idx);
        nodes := nodes[idx := nodes[idx].(deleted := true)];
        nodeLookup := nodeLookup - {id};
        return true;
      }
      return false;
    }

    /**
     What a search with beam width `ef` returns: the live ones among the results of
     a beam search of layer 0, the first `k` of them, started where the descent ended.
     */
    ghost predicate Finds(query: Vector, k: nat, ef: nat, start: nat, found: seq<(real, nat)>, hits: seq<(str, real)>)
      reads this
    {
      if entryPoint.None? then hits == []
      else
        var d := QueryDist(nodes, Between(), query);
        && DescendsTo(nodes, d, entryPoint.value, maxLevel, 0, start) && At(nodes, start, 0) && d(start) <= d(entryPoint.value)
        && Beam(nodes, 0, d, start, Max(Max(ef, k), 1), found)
        && (forall i :: 0 <= i < |found| ==> found[i].1 < |nodes|)
        && hits == LiveHits(nodes, found)[..Min(k, |LiveHits(nodes, found)|)]
    }

    /** Searches with beam width `ef`. */
    method SearchEf(query: Vector, k: nat, ef: nat) returns (hits: seq<(str, real)>)
      requires Valid()
      ensures exists start, found :: Finds(query, k, ef, start, found, hits)
    {
      if entryPoint.None? {
        assert Finds(query, k, ef, 0, [], []);
        return [];
      }
      var d := QueryDist(nodes, Between(), query);
      var current := Descend(nodes, config.m, d, entryPoint.value, maxLevel, 0);
      var candidates := SearchLayer(nodes, config.m, d, current, Max(ef, k), 0);
      BeamInRange(nodes, 0, d, current, Max(Max(ef, k), 1), candidates);
      hits := TakeLive(nodes, candidates, k);
      assert Finds(query, k, ef, current, candidates, hits);
    }

    method Search(query: Vector, k: nat) returns (hits: seq<(str, real)>)
      requires Valid()
      ensures exists start, found :: Finds(query, k, config.efConstruction, start, found, hits)
    {
      hits := SearchEf(query, k, config.efConstruction);
    }
  }

  /** How a pushed node joins: a greedy descent to the highest layer it shares, then every layer below linked. */
  ghost predicate Joined(pushed: seq<Node>, after: seq<Node>, distance: Distance, config: Config, x: nat, ep: nat, maxLevel: nat, level: nat) {
    && x < |pushed|
    && exists start :: DescendsTo(pushed, QueryDist(pushed, distance, pushed[x].vector), ep, maxLevel, Min(level, maxLevel), start)
        && LinkedDown(LinkOf(distance, config.m, config.efConstruction, x), pushed, after, start, Min(level, maxLevel))
  }

  lemma LayerHasNeighbours(nodes: seq<Node>, after: seq<Node>, distance: Distance, m: nat, efConstruction: nat, x: nat, start: nat, layer: nat, found: seq<(real, nat)>, l: nat)
    requires LayerLinked(nodes, after, distance, m, efConstruction, x, start, layer, found) && m > 0
    ensures x < |nodes| == |after| && Around(after, layer, x) != [] && (l != layer ==> Around(after, l, x) == Around(nodes, l, x))
  {
    assert ConnectedAt(nodes, after, distance, m, x, layer, NearestOf(found, m), x);
    assert |NearestOf(found, m)| > 0;
  }

  lemma {:induction false} LinkageHasNeighbours(distance: Distance, m: nat, efConstruction: nat, x: nat, states: seq<seq<Node>>, finds: seq<seq<(real, nat)>>, start: nat, top: nat, i: nat, l: nat)
    requires Linkage(LinkOf(distance, m, efConstruction, x), states, finds, start, top) && m > 0 && i <= |finds| && top < l + i && l <= top
    ensures Around(states[i], l, x) != []
  {
    assert LinkageAt(LinkOf(distance, m, efConstruction, x), states, finds, start, top, i - 1);
    LayerHasNeighbours(states[i - 1], states[i], distance, m, efConstruction, x, if i == 1 then start else finds[i - 2][0].1, top - (i - 1), finds[i - 1], l);
    if l != top - (i - 1) { LinkageHasNeighbours(distance, m, efConstruction, x, states, finds, start, top, i - 1, l); }
  }

  /** With a positive capacity no inserted node stays isolated: it has a neighbour in every layer it shares. */
  lemma JoinedHasNeighbours(pushed: seq<Node>, after: seq<Node>, distance: Distance, config: Config, x: nat, ep: nat, maxLevel: nat, level: nat, l: nat)
    requires Joined(pushed, after, distance, config, x, ep, maxLevel, level) && config.m > 0 && l <= Min(level, maxLevel)
    ensures Around(after, l, x) != []
  {
    var step, top := LinkOf(distance, config.m, config.efConstruction, x), Min(level, maxLevel);
    var start: nat :| LinkedDown(step, pushed, after, start, top);
    LinkedHasNeighbours(distance, config.m, config.efConstruction, x, pushed, after, start, top, l);
  }

  lemma LinkedHasNeighbours(distance: Distance, m: nat, efConstruction: nat, x: nat, nodes: seq<Node>, after: seq<Node>, start: nat, top: nat, l: nat)
    requires LinkedDown(LinkOf(distance, m, efConstruction, x), nodes, after, start, top) && m > 0 && l <= top
    ensures Around(after, l, x) != []
  {
    var states, finds :| Links(LinkOf(distance, m, efConstruction, x), nodes, after, states, finds, start, top);
    LinkageHasNeighbours(distance, m, efConstruction, x, states, finds, start, top, top + 1, l);
  }

  /** Filters out deleted nodes and keeps the first `k`. */
  method TakeLive(nodes: seq<Node>, candidates: seq<(real, nat)>, k: nat) returns (hits: seq<(str, real)>)
    requires forall i :: 0 <= i < |candidates| ==> candidates[i].1 < |nodes|
    ensures hits == LiveHits(nodes, candidates)[..Min(k, |LiveHits(nodes, candidates)|)]
  {
    var live: seq<(str, real)> := [];
    for i := 0 to |candidates|
      invariant live == LiveHits(nodes, candidates[..i])
    {
      var (dist, idx) := candidates[i];
      assert candidates[..i + 1][..i] == candidates[..i];
      if !nodes[idx].deleted {
        live := live + [(nodes[idx].id, dist)];
      }
    }
    assert candidates[..|candidates|] == candidates;
    hits := live[..Min(k, |live|)];
  }

  lemma BeamInRange(nodes: seq<Node>, layer: nat, d: Dist, start: nat, e: nat, found: seq<(real, nat)>)
    requires Beam(nodes, layer, d, start, e, found)
    ensures forall i :: 0 <= i < |found| ==> found[i].1 < |nodes|
  {
    forall i | 0 <= i < |found| ensures found[i].1 < |nodes| { assert FoundOk(nodes, layer, d, start, e, found, found[i]); }
  }

  /** Only deletion marks differ. */
  ghost predicate AllButDeleted(nodes: seq<Node>, after: seq<Node>) {
    |after| == |nodes| && forall i :: 0 <= i < |nodes| ==> after[i] == nodes[i] || after[i] == nodes[i].(deleted := true)
  }

  lemma DeleteKeepsLinked(nodes: seq<Node>, m: nat, idx: nat)
    requires Linked(nodes, m) && idx < |nodes|
    ensures Linked(nodes[idx := nodes[idx].(deleted := true)], m)
  {
    var after := nodes[idx := nodes[idx].(deleted := true)];
    forall i | 0 <= i < |after| ensures NodeOk(after, m, i) {
      assert NodeOk(nodes, m, i);
      forall l | 0 <= l < |after[i].neighbors| ensures ListOk(after, m, i, l, after[i].neighbors[l]) {
        assert ListOk(nodes, m, i, l, nodes[i].neighbors[l]);
        forall k | 0 <= k < |nodes[i].neighbors[l]| ensures At(after, nodes[i].neighbors[l][k], l) { assert At(nodes, nodes[i].neighbors[l][k], l); }
      }
    }
  }

  /** What the fields of the nodes say once a node has been added. */
  lemma InsertedFields(before: seq<Node>, after: seq<Node>, id: str, vector: Vector, level: nat, lookup: map<str, nat>)
    requires AllSameFields(before + [NewNode(id, vector, level)], after) && LookupOk(before, lookup)
    ensures LookupOk(after, lookup[id := |before|])
    ensures LiveOf(after, lookup[id := |before|]) == LiveOf(before, lookup)[id := vector]
    ensures LiveUnique(before, lookup) ==> (LiveUnique(after, lookup[id := |before|]) <==> id !in lookup)
    ensures forall i :: 0 <= i < |before| ==> after[i].level == before[i].level && |after[i].vector| == |before[i].vector|
    ensures after[|before|].level == level && after[|before|].vector == vector
  {
    var pushed, lookup' := before + [NewNode(id, vector, level)], lookup[id := |before|];
    forall i | 0 <= i < |pushed| ensures SameFields(pushed[i], after[i]) {}
    assert SameFields(pushed[|before|], after[|before|]);
    forall i | 0 <= i < |before| ensures SameFields(before[i], after[i]) { assert SameFields(pushed[i], after[i]); }
    if id in lookup { assert SameFields(before[lookup[id]], after[lookup[id]]); }
  }
}
