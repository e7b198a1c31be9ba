/** The layered graph of an HNSW index and its searches (crates/vector/src/hnsw.rs). */
module HnswGraph {
  import opened Bytes
  import Sorting

  /** A 32-bit float, as its bit pattern. */
  type f32 = x: int | 0 <= x < 0x1_0000_0000

  type Vector = seq<f32>

  datatype Metric = Cosine | Euclidean | DotProduct

  /** `neighbors[l]` lists node indices in layer `l`. */
  datatype Node = Node(id: str, vector: Vector, level: nat, neighbors: seq<seq<nat>>, deleted: bool)

  /** Distances of the nodes from a query. */
  type Dist = nat -> real

  // -------------------------------------------------------------------------
  // The structural invariant
  // -------------------------------------------------------------------------

  ghost predicate At(nodes: seq<Node>, x: nat, layer: nat) {
    x < |nodes| && nodes[x].level >= layer
  }

  ghost predicate Distinct(list: seq<nat>) {
    forall i, j :: 0 <= i < j < |list| ==> list[i] != list[j]
  }

  /** A neighbour list of node `i` in a layer: short, without repeats, other nodes of that layer. */
  ghost predicate ListOk(nodes: seq<Node>, m: nat, i: nat, layer: nat, list: seq<nat>) {
    && |list| <= 2 * m && Distinct(list)
    && forall k :: 0 <= k < |list| ==> list[k] != i && At(nodes, list[k], layer)
  }

  ghost predicate NodeOk(nodes: seq<Node>, m: nat, i: nat)
    requires i < |nodes|
  {
    && |nodes[i].neighbors| == nodes[i].level + 1
    && forall l :: 0 <= l < |nodes[i].neighbors| ==> ListOk(nodes, m, i, l, nodes[i].neighbors[l])
  }

  ghost predicate Linked(nodes: seq<Node>, m: nat) {
    forall i :: 0 <= i < |nodes| ==> NodeOk(nodes, m, i)
  }

  /** Neighbours of `x` in a layer. */
  ghost function Around(nodes: seq<Node>, layer: nat, x: nat): seq<nat> {
    if x < |nodes| && layer < |nodes[x].neighbors| then nodes[x].neighbors[layer] else []
  }

  ghost predicate IsWalk(nodes: seq<Node>, layer: nat, p: seq<nat>) {
    p != [] && forall i, j :: 0 <= i && j == i + 1 < |p| ==> p[j] in Around(nodes, layer, p[i])
  }

  ghost predicate Reachable(nodes: seq<Node>, layer: nat, x: nat, y: nat) {
    exists p :: IsWalk(nodes, layer, p) && p[0] == x && p[|p| - 1] == y
  }

  lemma ReachSelf(nodes: seq<Node>, layer: nat, x: nat)
    ensures Reachable(nodes, layer, x, x)
  {
    assert IsWalk(nodes, layer, [x]);
  }

  lemma ReachStep(nodes: seq<Node>, layer: nat, x: nat, y: nat, z: nat)
    requires Reachable(nodes, layer, x, y) && z in Around(nodes, layer, y)
    ensures Reachable(nodes, layer, x, z)
  {
    var p :| IsWalk(nodes, layer, p) && p[0] == x && p[|p| - 1] == y;
    assert IsWalk(nodes, layer, p + [z]);
  }

  lemma AroundOk(nodes: seq<Node>, m: nat, layer: nat, x: nat)
    requires Linked(nodes, m) && At(nodes, x, layer)
    ensures layer < |nodes[x].neighbors| && Around(nodes, layer, x) == nodes[x].neighbors[layer]
    ensures ListOk(nodes, m, x, layer, nodes[x].neighbors[layer])
  {
    assert NodeOk(nodes, m, x);
  }

  // -------------------------------------------------------------------------
  // Greedy descent within a layer
  // -------------------------------------------------------------------------

  ghost function Closer(n: nat, d: Dist, c: nat): set<nat> {
    set i | 0 <= i < n && d(i) < d(c)
  }

  lemma CloserShrinks(n: nat, d: Dist, a: nat, b: nat)
    requires d(b) < d(a) && b < n
    ensures Closer(n, d, b) < Closer(n, d, a)
  {
    assert b in Closer(n, d, a) && b !in Closer(n, d, b);
  }

  /** Where a greedy search of a layer may end: reached from the start, no farther, and no live neighbour closer. */
  ghost predicate GreedyEnd(nodes: seq<Node>, d: Dist, layer: nat, start: nat, end: nat) {
    && At(nodes, end, layer) && Reachable(nodes, layer, start, end) && d(end) <= d(start)
    && forall n :: n in Around(nodes, layer, end) && n < |nodes| && !nodes[n].deleted ==> d(end) <= d(n)
  }

  /** Stops at a node none of whose live neighbours in the layer is closer. */
  method GreedyClosest(nodes: seq<Node>, ghost m: nat, d: Dist, start: nat, layer: nat) returns (current: nat)
    requires Linked(nodes, m) && At(nodes, start, layer)
    ensures GreedyEnd(nodes, d, layer, start, current)
  {
    current := start;
    ReachSelf(nodes, layer, start);
    var changed := true;
    while changed
      invariant At(nodes, current, layer) && Reachable(nodes, layer, start, current) && d(current) <= d(start)
      invariant !changed ==> forall n :: n in Around(nodes, layer, current) && n < |nodes| && !nodes[n].deleted ==> d(current) <= d(n)
      decreases Closer(|nodes|, d, current), changed
    {
      AroundOk(nodes, m, layer, current);
      ghost var before := current;
      current, changed := ClosestAround(nodes, m, d, current, layer);
      if changed {
        CloserShrinks(|nodes|, d, before, current);
        ReachStep(nodes, layer, start, before, current);
      }
    }
  }

  /** One sweep over the neighbours of `centre`. */
  method ClosestAround(nodes: seq<Node>, ghost m: nat, d: Dist, centre: nat, layer: nat) returns (current: nat, changed: bool)
    requires Linked(nodes, m) && At(nodes, centre, layer)
    ensures At(nodes, current, layer)
    ensures !changed ==> current == centre
    ensures changed ==> current in Around(nodes, layer, centre) && d(current) < d(centre)
    ensures !changed ==> forall n :: n in Around(nodes, layer, centre) && n < |nodes| && !nodes[n].deleted ==> d(centre) <= d(n)
  {
    AroundOk(nodes, m, layer, centre);
    current, changed := centre, false;
    var list := nodes[centre].neighbors[layer];
    for k := 0 to |list|
      invariant At(nodes, current, layer)
      invariant !changed ==> current == centre
      invariant changed ==> current in list && d(current) < d(centre)
      invariant !changed ==> forall j :: 0 <= j < k && !nodes[list[j]].deleted ==> d(centre) <= d(list[j])
    {
      var neighbor := list[k];
      if !nodes[neighbor].deleted && d(neighbor) < d(current) {
        current, changed := neighbor, true;
      }
    }
  }

  // -------------------------------------------------------------------------
  // Beam search within a layer
  // -------------------------------------------------------------------------

  /** `v` lies no closer than any of a full set of results. */
  ghost predicate Worse(results: set<nat>, e: nat, d: Dist, v: nat) {
    |results| == e && forall r :: r in results ==> d(r) <= d(v)
  }

  ghost predicate Expanded(nodes: seq<Node>, layer: nat, visited: set<nat>, v: nat) {
    forall n :: n in Around(nodes, layer, v) ==> n in visited
  }

  /** The search state; `current` is being expanded, if any. */
  ghost predicate Beaming(nodes: seq<Node>, layer: nat, d: Dist, start: nat, e: nat, visited: set<nat>, candidates: set<nat>, results: set<nat>, current: set<nat>) {
    && start in visited && candidates <= visited && results <= visited && results != {} && |results| <= e
    && (forall v :: v in visited ==> VisitedOk(nodes, layer, d, start, e, results, v))
    && (forall v :: v in results && v !in candidates && v !in current ==> Expanded(nodes, layer, visited, v))
  }

  ghost predicate VisitedOk(nodes: seq<Node>, layer: nat, d: Dist, start: nat, e: nat, results: set<nat>, v: nat) {
    At(nodes, v, layer) && Reachable(nodes, layer, start, v) && (v in results || Worse(results, e, d, v))
  }

  /** `n` is kept, or no closer than the worst of a full list of results. */
  ghost predicate KeptOrWorse(found: seq<(real, nat)>, e: nat, d: Dist, n: nat) {
    (exists j :: 0 <= j < |found| && found[j].1 == n) || (|found| == e && found != [] && d(n) >= found[|found| - 1].0)
  }

  /** What a beam search returns. */
  ghost predicate Beam(nodes: seq<Node>, layer: nat, d: Dist, start: nat, e: nat, found: seq<(real, nat)>) {
    && 1 <= |found| <= e
    && (forall i :: 0 <= i < |found| ==> FoundOk(nodes, layer, d, start, e, found, found[i]))
    && (forall i, j :: 0 <= i < j < |found| ==> found[i].0 <= found[j].0 && found[i].1 != found[j].1)
    && KeptOrWorse(found, e, d, start)
  }

  /** A result is reachable, was expanded, and each of its neighbours is kept or no closer than the worst. */
  ghost predicate FoundOk(nodes: seq<Node>, layer: nat, d: Dist, start: nat, e: nat, found: seq<(real, nat)>, hit: (real, nat)) {
    && hit.0 == d(hit.1) && At(nodes, hit.1, layer) && Reachable(nodes, layer, start, hit.1)
    && forall n :: n in Around(nodes, layer, hit.1) ==> KeptOrWorse(found, e, d, n)
  }

  lemma {:induction false} ExtremeExists(s: set<nat>, d: Dist) returns (lo: nat, hi: nat)
    requires s != {}
    ensures lo in s && hi in s && forall x :: x in s ==> d(lo) <= d(x) <= d(hi)
    decreases |s|
  {
    var x :| x in s;
    if s == {x} {
      lo, hi := x, x;
    } else {
      lo, hi := ExtremeExists(s - {x}, d);
      assert s == (s - {x}) + {x};
      if d(x) < d(lo) { lo := x; }
      if d(x) > d(hi) { hi := x; }
    }
  }

  /** Top of a min-heap; ties in any order. */
  method Nearest(s: set<nat>, d: Dist) returns (x: nat)
    requires s != {}
    ensures x in s && forall y :: y in s ==> d(x) <= d(y)
  {
    ghost var lo, hi := ExtremeExists(s, d);
    x :| x in s && forall y :: y in s ==> d(x) <= d(y);
  }

  /** Top of a max-heap; ties in any order. */
  method Farthest(s: set<nat>, d: Dist) returns (x: nat)
    requires s != {}
    ensures x in s && forall y :: y in s ==> d(y) <= d(x)
  {
    ghost var lo, hi := ExtremeExists(s, d);
    x :| x in s && forall y :: y in s ==> d(y) <= d(x);
  }

  function Max(a: nat, b: nat): nat {
    if a >= b then a else b
  }

  /** Offers an unvisited neighbour to the results, evicting the worst when they overflow. */
  method Offer(n: nat, d: Dist, ef: nat, candidates: set<nat>, results: set<nat>) returns (candidates': set<nat>, results': set<nat>)
    requires results != {} && n !in results && n !in candidates && |results| <= Max(ef, 1)
    ensures results' != {} && |results'| <= Max(ef, 1) && results' <= results + {n} && candidates <= candidates' <= candidates + {n}
    ensures n in results' ==> n in candidates'
    ensures forall v :: v in results + {n} && v !in results' ==> Worse(results', Max(ef, 1), d, v)
    ensures forall v :: Worse(results, Max(ef, 1), d, v) ==> Worse(results', Max(ef, 1), d, v)
  {
    candidates', results' := candidates, results;
    var worst := Farthest(results, d);
    if |results| < ef || d(n) < d(worst) {
      candidates' := candidates + {n};
      results' := results + {n};
      if |results'| > ef {
        var evicted := Farthest(results', d);
        results' := results' - {evicted};
      }
    }
  }

  lemma OfferKeepsBeaming(nodes: seq<Node>, layer: nat, d: Dist, start: nat, e: nat, visited: set<nat>, candidates: set<nat>, results: set<nat>, current: set<nat>,
                          n: nat, candidates': set<nat>, results': set<nat>)
    requires Beaming(nodes, layer, d, start, e, visited, candidates, results, current) && n !in visited
    requires At(nodes, n, layer) && Reachable(nodes, layer, start, n)
    requires results' != {} && |results'| <= e && results' <= results + {n} && candidates <= candidates' <= candidates + {n}
    requires n in results' ==> n in candidates'
    requires forall v :: v in results + {n} && v !in results' ==> Worse(results', e, d, v)
    requires forall v :: Worse(results, e, d, v) ==> Worse(results', e, d, v)
    ensures Beaming(nodes, layer, d, start, e, visited + {n}, candidates', results', current)
  {
    forall v | v in visited + {n} ensures VisitedOk(nodes, layer, d, start, e, results', v) {
      if v != n { assert VisitedOk(nodes, layer, d, start, e, results, v); }
    }
    forall v | v in results' && v !in candidates' && v !in current ensures Expanded(nodes, layer, visited + {n}, v) {
      assert Expanded(nodes, layer, visited, v);
    }
  }

  method VisitNeighbor(ghost nodes: seq<Node>, d: Dist, ghost start: nat, ef: nat, ghost layer: nat, ghost c: nat, neighbor: nat,
                       visited: set<nat>, candidates: set<nat>, results: set<nat>)
    returns (visited': set<nat>, candidates': set<nat>, results': set<nat>)
    requires Beaming(nodes, layer, d, start, Max(ef, 1), visited, candidates, results, {c}) && c in visited
    requires neighbor in Around(nodes, layer, c) && At(nodes, neighbor, layer)
    ensures Beaming(nodes, layer, d, start, Max(ef, 1), visited', candidates', results', {c})
    ensures visited' == visited + {neighbor} && (visited' == visited ==> candidates' == candidates)
  {
    visited', candidates', results' := visited, candidates, results;
    if neighbor !in visited {
      assert VisitedOk(nodes, layer, d, start, Max(ef, 1), results, c);
      ReachStep(nodes, layer, start, c, neighbor);
      visited' := visited + {neighbor};
      candidates', results' := Offer(neighbor, d, ef, candidates, results);
      OfferKeepsBeaming(nodes, layer, d, start, Max(ef, 1), visited, candidates, results, {c}, neighbor, candidates', results');
    }
  }

  /** Visits the neighbours of the popped candidate. */
  method ExpandCandidate(nodes: seq<Node>, ghost m: nat, d: Dist, ghost start: nat, ef: nat, layer: nat, c: nat,
                         visited: set<nat>, candidates: set<nat>, results: set<nat>)
    returns (visited': set<nat>, candidates': set<nat>, results': set<nat>)
    requires Linked(nodes, m) && c in visited && Beaming(nodes, layer, d, start, Max(ef, 1), visited, candidates, results, {c})
    ensures Beaming(nodes, layer, d, start, Max(ef, 1), visited', candidates', results', {})
    ensures visited <= visited' && (visited' == visited ==> candidates' == candidates)
  {
    visited', candidates', results' := visited, candidates, results;
    assert VisitedOk(nodes, layer, d, start, Max(ef, 1), results, c);
    AroundOk(nodes, m, layer, c);
    var list := nodes[c].neighbors[layer];
    for k := 0 to |list|
      invariant Beaming(nodes, layer, d, start, Max(ef, 1), visited', candidates', results', {c})
      invariant visited <= visited' && (visited' == visited ==> candidates' == candidates)
      invariant forall j :: 0 <= j < k ==> list[j] in visited'
    {
      ghost var v := visited';
      visited', candidates', results' := VisitNeighbor(nodes, d, start, ef, layer, c, list[k], visited', candidates', results');
      assert v <= visited';
    }
    assert Expanded(nodes, layer, visited', c);
  }

  /** With every result expanded the sorted results are a beam. */
  lemma BeamDone(nodes: seq<Node>, layer: nat, d: Dist, start: nat, e: nat, visited: set<nat>, candidates: set<nat>, results: set<nat>, found: seq<(real, nat)>)
    requires Beaming(nodes, layer, d, start, e, visited, candidates, results, {})
    requires forall v :: v in results ==> Expanded(nodes, layer, visited, v)
    requires |found| == |results|
    requires forall i :: 0 <= i < |found| ==> found[i].1 in results && found[i].0 == d(found[i].1)
    requires forall v :: v in results ==> exists i :: 0 <= i < |found| && found[i].1 == v
    requires forall i, j :: 0 <= i < j < |found| ==> found[i].0 <= found[j].0 && found[i].1 != found[j].1
    ensures Beam(nodes, layer, d, start, e, found)
  {
    forall v | v in visited ensures KeptOrWorse(found, e, d, v) {
      assert VisitedOk(nodes, layer, d, start, e, results, v);
      if v !in results {
        assert found[|found| - 1].1 in results;
      }
    }
    forall i | 0 <= i < |found| ensures FoundOk(nodes, layer, d, start, e, found, found[i]) {
      assert VisitedOk(nodes, layer, d, start, e, results, found[i].1);
      assert Expanded(nodes, layer, visited, found[i].1);
    }
  }

  predicate NotFarther(x: (real, nat), y: (real, nat)) {
    x.0 <= y.0
  }

  /** The results with their distances, nearest first; ties in any order. */
  method SortResults(results: set<nat>, d: Dist) returns (found: seq<(real, nat)>)
    ensures |found| == |results|
    ensures forall i :: 0 <= i < |found| ==> found[i].1 in results && found[i].0 == d(found[i].1)
    ensures forall v :: v in results ==> exists i :: 0 <= i < |found| && found[i].1 == v
    ensures forall i, j :: 0 <= i < j < |found| ==> found[i].0 <= found[j].0 && found[i].1 != found[j].1
  {
    var listing: seq<(real, nat)>, todo := [], results;
    while todo != {}
      invariant todo <= results && |listing| + |todo| == |results| && Lists(listing, results - todo, d)
      decreases |todo|
    {
      var v :| v in todo;
      ListOne(listing, results - todo, d, v);
      assert results - todo + {v} == results - (todo - {v});
      todo := todo - {v};
      listing := listing + [(d(v), v)];
    }
    assert results - todo == results;
    found := SortListing(results, d, listing);
  }

  method SortListing(ghost results: set<nat>, ghost d: Dist, listing: seq<(real, nat)>) returns (found: seq<(real, nat)>)
    requires Lists(listing, results, d) && |listing| == |results|
    ensures |found| == |results|
    ensures forall i :: 0 <= i < |found| ==> found[i].1 in results && found[i].0 == d(found[i].1)
    ensures forall v :: v in results ==> exists i :: 0 <= i < |found| && found[i].1 == v
    ensures forall i, j :: 0 <= i < j < |found| ==> found[i].0 <= found[j].0 && found[i].1 != found[j].1
  {
    assert Sorting.TotalPreorder(NotFarther);
    Sorting.SortSorted(listing, NotFarther);
    found := Sorting.Sort(listing, NotFarther);
    SortedListing(results, d, found);
  }

  /** Each of the nodes once, with its distance. */
  ghost predicate Lists(listing: seq<(real, nat)>, nodes: set<nat>, d: Dist) {
    && (forall x :: x in multiset(listing) <==> x.1 in nodes && x.0 == d(x.1))
    && (forall x :: multiset(listing)[x] <= 1)
  }

  lemma ListOne(listing: seq<(real, nat)>, nodes: set<nat>, d: Dist, v: nat)
    requires Lists(listing, nodes, d) && v !in nodes
    ensures Lists(listing + [(d(v), v)], nodes + {v}, d)
  {
    assert (d(v), v) !in multiset(listing);
  }

  lemma SortedListing(results: set<nat>, d: Dist, found: seq<(real, nat)>)
    requires Sorting.SortedBy(found, NotFarther) && forall x :: multiset(found)[x] <= 1
    requires forall x :: x in multiset(found) <==> x.1 in results && x.0 == d(x.1)
    ensures forall i :: 0 <= i < |found| ==> found[i].1 in results && found[i].0 == d(found[i].1)
    ensures forall v :: v in results ==> exists i :: 0 <= i < |found| && found[i].1 == v
    ensures forall i, j :: 0 <= i < j < |found| ==> found[i].0 <= found[j].0 && found[i].1 != found[j].1
  {
    forall i | 0 <= i < |found| ensures found[i].1 in results && found[i].0 == d(found[i].1) {
      assert found[i] in multiset(found);
    }
    forall v | v in results ensures exists i :: 0 <= i < |found| && found[i].1 == v {
      assert (d(v), v) in multiset(found);
      var i :| 0 <= i < |found| && found[i] == (d(v), v);
    }
    forall i, j | 0 <= i < j < |found| ensures found[i].0 <= found[j].0 && found[i].1 != found[j].1 {
      assert NotFarther(found[i], found[j]);
      if found[i] == found[j] { Sorting.TwiceCounts(found, i, j); }
    }
  }

  /** Beam search of width `ef`; a width of zero searches like one of one. */
  method SearchLayer(nodes: seq<Node>, ghost m: nat, d: Dist, start: nat, ef: nat, layer: nat) returns (found: seq<(real, nat)>)
    requires Linked(nodes, m) && At(nodes, start, layer)
    ensures Beam(nodes, layer, d, start, Max(ef, 1), found)
  {
    ghost var e := Max(ef, 1);
    var candidates, results, visited := {start}, {start}, {start};
    ReachSelf(nodes, layer, start);
    var stop := false;
    ghost var all := Below(|nodes|);
    while candidates != {} && !stop
      invariant Beaming(nodes, layer, d, start, e, visited, candidates, results, {})
      invariant stop ==> forall v :: v in results ==> Expanded(nodes, layer, visited, v)
      decreases !stop, all - visited, candidates
    {
      var c := Nearest(candidates, d);
      var worst := Farthest(results, d);
      if d(c) > d(worst) && |results| >= ef {
        stop := true;
        forall v | v in results ensures Expanded(nodes, layer, visited, v) {
          assert v !in candidates;
        }
      } else {
        ghost var before := visited;
        PopKeepsBeaming(nodes, layer, d, start, e, visited, candidates, results, c);
        visited, candidates, results := ExpandCandidate(nodes, m, d, start, ef, layer, c, visited, candidates - {c}, results);
        VisitedShrinks(nodes, layer, d, start, e, all, before, visited, results);
      }
    }
    found := SortResults(results, d);
    BeamDone(nodes, layer, d, start, e, visited, candidates, results, found);
  }

  lemma PopKeepsBeaming(nodes: seq<Node>, layer: nat, d: Dist, start: nat, e: nat, visited: set<nat>, candidates: set<nat>, results: set<nat>, c: nat)
    requires Beaming(nodes, layer, d, start, e, visited, candidates, results, {}) && c in candidates
    ensures Beaming(nodes, layer, d, start, e, visited, candidates - {c}, results, {c})
  {
    forall v | v in results && v !in candidates - {c} && v !in {c} ensures Expanded(nodes, layer, visited, v) {}
  }

  lemma VisitedShrinks(nodes: seq<Node>, layer: nat, d: Dist, start: nat, e: nat, all: set<nat>, before: set<nat>, visited: set<nat>, results: set<nat>)
    requires before <= visited && (forall x: nat :: x in all <==> x < |nodes|)
    requires forall v :: v in visited ==> VisitedOk(nodes, layer, d, start, e, results, v)
    ensures visited != before ==> all - visited < all - before
  {
    if visited != before {
      var v :| v in visited && v !in before;
      assert VisitedOk(nodes, layer, d, start, e, results, v);
      assert v in all - before && v !in all - visited;
    }
  }

  lemma {:induction false} Below(n: nat) returns (s: set<nat>)
    ensures |s| == n && forall x: nat :: x in s <==> x < n
  {
    if n == 0 {
      s := {};
    } else {
      var rest := Below(n - 1);
      s := rest + {n - 1};
    }
  }

  // -------------------------------------------------------------------------
  // A wide beam is exhaustive
  // -------------------------------------------------------------------------

  /** With a beam at least as wide as the graph, the results are exactly the reachable nodes of the layer. */
  lemma WideBeamIsExhaustive(nodes: seq<Node>, m: nat, layer: nat, d: Dist, start: nat, e: nat, found: seq<(real, nat)>, x: nat)
    requires Linked(nodes, m) && At(nodes, start, layer) && Beam(nodes, layer, d, start, e, found) && e >= |nodes|
    ensures Reachable(nodes, layer, start, x) <==> exists j :: 0 <= j < |found| && found[j].1 == x
  {
    if Reachable(nodes, layer, start, x) {
      var p :| IsWalk(nodes, layer, p) && p[0] == start && p[|p| - 1] == x;
      WalkIsFound(nodes, m, layer, d, start, e, found, p);
    }
    if j :| 0 <= j < |found| && found[j].1 == x {
      assert FoundOk(nodes, layer, d, start, e, found, found[j]);
    }
  }

  lemma KeptWhenWide(nodes: seq<Node>, layer: nat, d: Dist, start: nat, e: nat, found: seq<(real, nat)>, n: nat)
    requires Beam(nodes, layer, d, start, e, found) && e >= |nodes| && n < |nodes| && KeptOrWorse(found, e, d, n)
    ensures exists j :: 0 <= j < |found| && found[j].1 == n
  {
    var ids := set j | 0 <= j < |found| :: found[j].1;
    FoundCount(found, |found|);
    var all := Below(|nodes|);
    forall v | v in ids ensures v in all {
      var j :| 0 <= j < |found| && found[j].1 == v;
      assert FoundOk(nodes, layer, d, start, e, found, found[j]);
    }
    assert ids <= all && all == ids + (all - ids);
    if |found| == e {
      assert |all - ids| == 0 && n in ids;
    }
  }

  lemma {:induction false} FoundCount(found: seq<(real, nat)>, k: nat)
    requires k <= |found| && forall i, j :: 0 <= i < j < |found| ==> found[i].1 != found[j].1
    ensures |set j | 0 <= j < k :: found[j].1| == k
  {
    if k > 0 {
      FoundCount(found, k - 1);
      assert (set j | 0 <= j < k :: found[j].1) == (set j | 0 <= j < k - 1 :: found[j].1) + {found[k - 1].1};
    }
  }

  lemma {:induction false} WalkIsFound(nodes: seq<Node>, m: nat, layer: nat, d: Dist, start: nat, e: nat, found: seq<(real, nat)>, p: seq<nat>)
    requires Linked(nodes, m) && At(nodes, start, layer) && Beam(nodes, layer, d, start, e, found) && e >= |nodes| && IsWalk(nodes, layer, p) && p[0] == start
    ensures exists j :: 0 <= j < |found| && found[j].1 == p[|p| - 1]
    decreases |p|
  {
    if |p| == 1 {
      KeptWhenWide(nodes, layer, d, start, e, found, start);
    } else {
      var init := p[..|p| - 1];
      assert IsWalk(nodes, layer, init);
      WalkIsFound(nodes, m, layer, d, start, e, found, init);
      var j :| 0 <= j < |found| && found[j].1 == init[|init| - 1];
      assert FoundOk(nodes, layer, d, start, e, found, found[j]);
      AroundOk(nodes, m, layer, found[j].1);
      assert p[|p| - 1] in Around(nodes, layer, p[|p| - 2]);
      KeptWhenWide(nodes, layer, d, start, e, found, p[|p| - 1]);
    }
  }
}
