/**
 Small HNSW indexes are exact (crates/vector/src/hnsw.rs): while at most one node
 more than the capacity is inserted, layer 0 links every two nodes, and a wide
 search has the distances of the linear scan (crates/vector/src/brute_force.rs).
 */
module HnswExact {
  import opened Bytes
  import opened HnswGraph
  import opened HnswLinks
  import opened HnswIndexes
  import opened BruteForce
  import Registry = VectorRegistry
  import Sorting

  // -------------------------------------------------------------------------
  // Complete layers
  // -------------------------------------------------------------------------

  /** In layer 0 each of the first `n` nodes lists all the others. */
  ghost predicate CompleteBelow(nodes: seq<Node>, n: nat) {
    n <= |nodes| && forall i, j :: 0 <= i < n && 0 <= j < n && i != j ==> j in Around(nodes, 0, i)
  }

  ghost predicate Complete(nodes: seq<Node>) {
    CompleteBelow(nodes, |nodes|)
  }

  lemma CompleteReaches(nodes: seq<Node>, n: nat, x: nat, y: nat)
    requires CompleteBelow(nodes, n) && x < n && y < n
    ensures Reachable(nodes, 0, x, y)
  {
    ReachSelf(nodes, 0, x);
    if x != y { ReachStep(nodes, 0, x, x, y); }
  }

  lemma CompleteReachesAll(nodes: seq<Node>, start: nat)
    requires Complete(nodes) && start < |nodes|
    ensures ReachesAll(nodes, start)
  {
    forall i | 0 <= i < |nodes| && !nodes[i].deleted ensures Reachable(nodes, 0, start, i) {
      CompleteReaches(nodes, |nodes|, start, i);
    }
  }

  // -------------------------------------------------------------------------
  // Distinct numbers below a bound
  // -------------------------------------------------------------------------

  lemma {:induction false} DistinctBelow(list: seq<nat>, n: nat)
    requires Distinct(list) && forall k :: 0 <= k < |list| ==> list[k] < n
    ensures |list| <= n
  {
    var all := Below(n);
    Within(list, all);
  }

  lemma {:induction false} Within(list: seq<nat>, all: set<nat>)
    requires Distinct(list) && forall k :: 0 <= k < |list| ==> list[k] in all
    ensures |list| <= |all|
  {
    if list != [] {
      var n := |list| - 1;
      Within(list[..n], all - {list[n]});
    }
  }

  // -------------------------------------------------------------------------
  // One node joins a complete layer
  // -------------------------------------------------------------------------

  /** The last node is pushed and in no list yet; the others are complete. */
  ghost predicate Waiting(nodes: seq<Node>, x: nat) {
    |nodes| == x + 1 && CompleteBelow(nodes, x) && Absent(nodes, x, 0) && Around(nodes, 0, x) == []
  }

  /** Linking a layer above leaves layer 0 as it was. */
  lemma UpperLayerWaits(nodes: seq<Node>, after: seq<Node>, x: nat, layer: nat)
    requires Waiting(nodes, x) && SameBut(nodes, after, layer) && layer > 0
    ensures Waiting(after, x)
  {
    forall i: nat ensures Around(after, 0, i) == Around(nodes, 0, i) {
      if i < |nodes| { assert SameAt(nodes[i], after[i], layer); }
    }
    AbsentStays(nodes, after, x, layer, 0);
  }

  /** A wide beam started in the graph finds every node but the new one. */
  lemma FindsTheOthers(nodes: seq<Node>, m: nat, d: Dist, x: nat, start: nat, e: nat, found: seq<(real, nat)>)
    requires Waiting(nodes, x) && Linked(nodes, m) && start < x && Beam(nodes, 0, d, start, e, found) && e >= |nodes|
    ensures forall i :: 0 <= i < x ==> i in Indices(found)
    ensures |found| <= x
  {
    var ids := Indices(found);
    forall i | 0 <= i < x ensures i in ids {
      CompleteReaches(nodes, x, start, i);
      WideBeamIsExhaustive(nodes, m, 0, d, start, e, found, i);
      var k :| 0 <= k < |found| && found[k].1 == i;
      assert ids[k] == i;
    }
    forall k | 0 <= k < |ids| ensures ids[k] < x {
      assert FoundOk(nodes, 0, d, start, e, found, found[k]);
      AbsentUnreachable(nodes, 0, start, x, found[k].1);
    }
    DistinctBelow(ids, x);
  }

  /** The search does not start at the new node, whose results could not be linked. */
  lemma StartsInGraph(nodes: seq<Node>, m: nat, d: Dist, x: nat, start: nat, e: nat, found: seq<(real, nat)>)
    requires Waiting(nodes, x) && m > 0 && Beam(nodes, 0, d, start, e, found) && Linkable(nodes, m, x, 0, NearestOf(found, m))
    ensures start < x
  {
    assert FoundOk(nodes, 0, d, start, e, found, found[0]);
    assert NearestOf(found, m)[0] == found[0].1;
    var p :| IsWalk(nodes, 0, p) && p[0] == start && p[|p| - 1] == found[0].1;
    if |p| > 1 { assert p[1] in Around(nodes, 0, p[0]); }
  }

  lemma OthersFit(nodes: seq<Node>, m: nat, x: nat, i: nat)
    requires Waiting(nodes, x) && Linked(nodes, m) && i < x
    ensures |Around(nodes, 0, i)| < x
  {
    AroundOk(nodes, m, 0, i);
    var list := Around(nodes, 0, i);
    forall k | 0 <= k < |list| ensures list[k] < x && list[k] != i { assert At(nodes, list[k], 0); }
    var all := Below(x);
    Within(list, all - {i});
  }

  /** With room for all of them, connecting the new node to what the search found completes the layer. */
  lemma ConnectCompletes(nodes: seq<Node>, after: seq<Node>, distance: Distance, m: nat, x: nat, nearest: seq<nat>)
    requires Waiting(nodes, x) && x <= m && Connected(nodes, after, distance, m, x, 0, nearest)
    requires forall i :: 0 <= i < x ==> i in nearest
    ensures Complete(after)
  {
    forall i, j | 0 <= i < |after| && 0 <= j < |after| && i != j ensures j in Around(after, 0, i) {
      ConnectLinksBack(nodes, after, distance, m, x, 0, nearest, i);
      if i < x { OthersFit(nodes, m, x, i); }
    }
  }

  lemma GroundLayerCompletes(nodes: seq<Node>, after: seq<Node>, distance: Distance, m: nat, efConstruction: nat, x: nat, start: nat, found: seq<(real, nat)>)
    requires LayerLinked(nodes, after, distance, m, efConstruction, x, start, 0, found)
    requires Waiting(nodes, x) && 0 < x <= m && efConstruction >= |nodes|
    ensures Complete(after)
  {
    var d, nearest := QueryDist(nodes, distance, nodes[x].vector), NearestOf(found, m);
    StartsInGraph(nodes, m, d, x, start, Max(efConstruction, 1), found);
    FindsTheOthers(nodes, m, d, x, start, Max(efConstruction, 1), found);
    assert found[..|found|] == found;
    ConnectCompletes(nodes, after, distance, m, x, nearest);
  }

  // -------------------------------------------------------------------------
  // All layers of one insertion
  // -------------------------------------------------------------------------

  lemma {:induction false} WaitsAbove(distance: Distance, m: nat, efConstruction: nat, x: nat, states: seq<seq<Node>>, finds: seq<seq<(real, nat)>>, start: nat, top: nat, i: nat)
    requires Linkage(LinkOf(distance, m, efConstruction, x), states, finds, start, top) && |finds| == top + 1 && i <= top && Waiting(states[0], x)
    ensures Waiting(states[i], x)
  {
    if i > 0 {
      WaitsAbove(distance, m, efConstruction, x, states, finds, start, top, i - 1);
      assert LinkageAt(LinkOf(distance, m, efConstruction, x), states, finds, start, top, i - 1);
      ConnectedFrame(states[i - 1], states[i], distance, m, x, top - (i - 1), NearestOf(finds[i - 1], m));
      UpperLayerWaits(states[i - 1], states[i], x, top - (i - 1));
    }
  }

  lemma LinkedDownCompletes(distance: Distance, m: nat, efConstruction: nat, x: nat, nodes: seq<Node>, after: seq<Node>, start: nat, top: nat)
    requires LinkedDown(LinkOf(distance, m, efConstruction, x), nodes, after, start, top)
    requires Waiting(nodes, x) && 0 < x <= m && efConstruction >= |nodes|
    ensures Complete(after)
  {
    var step := LinkOf(distance, m, efConstruction, x);
    var states: seq<seq<Node>>, finds: seq<seq<(real, nat)>> :| Links(step, nodes, after, states, finds, start, top);
    WaitsAbove(distance, m, efConstruction, x, states, finds, start, top, top);
    assert LinkageAt(step, states, finds, start, top, top);
    var from: nat := if top == 0 then start else finds[top - 1][0].1;
    GroundLayerCompletes(states[top], after, distance, m, efConstruction, x, from, finds[top]);
  }

  lemma JoinedCompletes(pushed: seq<Node>, after: seq<Node>, distance: Distance, config: Config, x: nat, ep: nat, maxLevel: nat, level: nat)
    requires Joined(pushed, after, distance, config, x, ep, maxLevel, level)
    requires Waiting(pushed, x) && 0 < x <= config.m && config.efConstruction >= |pushed|
    ensures Complete(after)
  {
    var start: nat :| LinkedDown(LinkOf(distance, config.m, config.efConstruction, x), pushed, after, start, Min(level, maxLevel));
    LinkedDownCompletes(distance, config.m, config.efConstruction, x, pushed, after, start, Min(level, maxLevel));
  }

  lemma PushedWaits(nodes: seq<Node>, m: nat, id: str, vector: Vector, level: nat)
    requires Linked(nodes, m) && Complete(nodes)
    ensures Waiting(nodes + [NewNode(id, vector, level)], |nodes|)
  {
    var pushed := nodes + [NewNode(id, vector, level)];
    PushKeepsLinked(nodes, m, NewNode(id, vector, level));
    forall i, j | 0 <= i < |nodes| && 0 <= j < |nodes| && i != j ensures j in Around(pushed, 0, i) {
      assert Around(pushed, 0, i) == Around(nodes, 0, i);
    }
  }

  // -------------------------------------------------------------------------
  // Runs
  // -------------------------------------------------------------------------

  /** An index all of whose nodes still fit around one. */
  ghost predicate Ample(config: Config, n: nat) {
    n <= config.m + 1 && n <= config.efConstruction
  }

  /** While there is room, inserting keeps layer 0 complete. */
  method InsertComplete(index: HnswIndex, id: str, vector: Vector, level: nat)
    requires index.Valid() && Complete(index.nodes) && level < index.config.maxLayers
    requires Ample(index.config, |index.nodes| + 1)
    modifies index
    ensures index.Valid() && Complete(index.nodes) && |index.nodes| == |old(index.nodes)| + 1
    ensures index.Live() == old(index.Live())[id := vector]
    ensures old(index.Unique()) ==> (index.Unique() <==> id !in old(index.nodeLookup))
  {
    ghost var nodes, ep, top := index.nodes, index.entryPoint, index.maxLevel;
    PushedWaits(nodes, index.config.m, id, vector, level);
    index.Insert(id, vector, level);
    if ep.Some? {
      JoinedCompletes(nodes + [NewNode(id, vector, level)], index.nodes, index.Between(), index.config, |nodes|, ep.value, top, level);
    }
  }

  /** Removing keeps every list. */
  method RemoveComplete(index: HnswIndex, id: str)
    requires index.Valid() && index.Unique() && Complete(index.nodes)
    modifies index
    ensures index.Valid() && index.Unique() && Complete(index.nodes) && |index.nodes| == |old(index.nodes)|
    ensures index.Live() == old(index.Live()) - {id}
  {
    ghost var nodes := index.nodes;
    var _ := index.Remove(id);
    forall i, j | 0 <= i < |nodes| && 0 <= j < |nodes| && i != j ensures j in Around(index.nodes, 0, i) {
      assert j in Around(nodes, 0, i);
    }
  }

  /** How many nodes a run pushes. */
  function Puts(ops: seq<Registry.VectorOp>): nat {
    if ops == [] then 0 else Puts(ops[..|ops| - 1]) + (if ops[|ops| - 1].Put? then 1 else 0)
  }

  lemma {:induction false} PutsPrefix(ops: seq<Registry.VectorOp>, j: nat)
    requires j <= |ops|
    ensures Puts(ops[..j]) <= Puts(ops)
  {
    if j < |ops| {
      PutsPrefix(ops[..|ops| - 1], j);
      assert ops[..|ops| - 1][..j] == ops[..j];
    } else {
      assert ops[..j] == ops;
    }
  }

  /** Both indexes hold the same vectors. */
  ghost predicate SameContents(vectors: seq<Entry>, live: map<str, Vector>) {
    DistinctIds(vectors) && forall e :: e in vectors <==> e.0 in live && live[e.0] == e.1
  }

  /** The same insertions and removals on both indexes, replacements removing first. */
  method RunBoth(index: HnswIndex, exact: BruteForceIndex, ops: seq<Registry.VectorOp>)
    requires index.Valid() && index.Unique() && Complete(index.nodes) && exact.Valid() && SameContents(exact.vectors, index.Live())
    requires Ample(index.config, |index.nodes| + Puts(ops)) && forall j :: 0 <= j < |ops| && ops[j].Put? ==> ops[j].level < index.config.maxLayers
    modifies index, exact
    ensures index.Valid() && index.Unique() && Complete(index.nodes) && exact.Valid() && SameContents(exact.vectors, index.Live())
    ensures |index.nodes| == |old(index.nodes)| + Puts(ops)
  {
    for j := 0 to |ops|
      invariant index.Valid() && index.Unique() && Complete(index.nodes) && exact.Valid() && SameContents(exact.vectors, index.Live())
      invariant |index.nodes| == |old(index.nodes)| + Puts(ops[..j])
    {
      assert ops[..j + 1][..j] == ops[..j];
      PutsPrefix(ops, j + 1);
      RemoveComplete(index, ops[j].id);
      match ops[j] {
        case Put(id, vector, level) =>
          InsertComplete(index, id, vector, level);
          exact.Insert(id, vector);
        case Drop(id) =>
          var _ := exact.Remove(id);
      }
    }
    assert ops[..|ops|] == ops;
  }

  lemma SameScores(vectors: seq<Entry>, f: Distance, g: Distance, query: Vector)
    requires forall a, b :: f(a, b) == g(a, b)
    ensures ScoredEntries(vectors, f, query) == ScoredEntries(vectors, g, query)
  {
  }

  lemma CompleteSearchMatches(index: HnswIndex, query: Vector, k: nat, ef: nat, start: nat, found: seq<(real, nat)>, hits: seq<Hit>, vectors: seq<Entry>)
    requires index.Valid() && index.Unique() && Complete(index.nodes) && SameContents(vectors, index.Live())
    requires ef >= |index.nodes| && index.Finds(query, k, ef, start, found, hits)
    ensures Distances(hits) == Distances(Sorting.Sort(ScoredEntries(vectors, index.Between(), query), NotAfter)[..Min(k, |vectors|)])
  {
    if index.entryPoint.Some? {
      CompleteReachesAll(index.nodes, start);
      ReachingSearchMatchesScan(index, query, k, ef, start, found, hits, vectors);
    } else {
      if vectors != [] { NothingLive(index, vectors[0]); }
    }
  }

  /** An index without an entry point holds nothing. */
  lemma NothingLive(index: HnswIndex, e: Entry)
    requires index.Valid() && index.entryPoint.None?
    ensures e.0 !in index.Live()
  {
  }

  /** A complete index with a wide beam answers with the distances of the scan. */
  method SearchBoth(index: HnswIndex, exact: BruteForceIndex, query: Vector, k: nat, ef: nat) returns (hits: seq<Hit>, nearest: seq<Hit>)
    requires index.Valid() && index.Unique() && Complete(index.nodes) && exact.Valid() && SameContents(exact.vectors, index.Live())
    requires index.metric == exact.metric && index.measure == exact.measure && ef >= |index.nodes|
    ensures Distances(hits) == Distances(nearest)
    ensures nearest == Sorting.Sort(ScoredEntries(exact.vectors, exact.Between(), query), NotAfter)[..Min(k, |exact.vectors|)]
  {
    hits := index.SearchEf(query, k, ef);
    ghost var start, found :| index.Finds(query, k, ef, start, found, hits);
    CompleteSearchMatches(index, query, k, ef, start, found, hits, exact.vectors);
    SameScores(exact.vectors, index.Between(), exact.Between(), query);
    nearest := exact.Search(query, k);
  }

  /**
   Any run of insertions and removals on two empty indexes: while no more nodes
   are pushed than `m + 1` and the construction beam is that wide, a search whose
   beam is as wide returns the distances of the exact index.
   */
  method RunIsExact(index: HnswIndex, exact: BruteForceIndex, ops: seq<Registry.VectorOp>, query: Vector, k: nat, ef: nat) returns (hits: seq<Hit>, nearest: seq<Hit>)
    requires index.Valid() && index.Unique() && index.nodes == [] && exact.Valid() && exact.vectors == []
    requires index.metric == exact.metric && index.measure == exact.measure
    requires Ample(index.config, Puts(ops)) && ef >= Puts(ops) && forall j :: 0 <= j < |ops| && ops[j].Put? ==> ops[j].level < index.config.maxLayers
    modifies index, exact
    ensures Distances(hits) == Distances(nearest)
    ensures nearest == Sorting.Sort(ScoredEntries(exact.vectors, exact.Between(), query), NotAfter)[..Min(k, |exact.vectors|)]
    ensures index.Valid() && SameContents(exact.vectors, index.Live())
  {
    RunBoth(index, exact, ops);
    hits, nearest := SearchBoth(index, exact, query, k, ef);
  }
}
