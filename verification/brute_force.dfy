/** The exact index by linear scan (crates/vector/src/brute_force.rs), and how HNSW search relates to it. */
module BruteForce {
  import opened Bytes
  import opened HnswGraph
  import opened HnswLinks
  import opened HnswIndexes
  import Sorting

  type Entry = (str, Vector)
  type Hit = (str, real)

  /** The entries other than that of `id`. */
  function Retain(vectors: seq<Entry>, id: str): (r: seq<Entry>)
    ensures forall e :: e in r <==> e in vectors && e.0 != id
    ensures |r| <= |vectors| && (|r| < |vectors| <==> exists i :: 0 <= i < |vectors| && vectors[i].0 == id)
  {
    if vectors == [] then []
    else
      var init, last := vectors[..|vectors| - 1], vectors[|vectors| - 1];
      assert vectors == init + [last];
      var r := Retain(init, id) + (if last.0 != id then [last] else []);
      assert (exists i :: 0 <= i < |vectors| && vectors[i].0 == id) <==> last.0 == id || exists i :: 0 <= i < |init| && init[i].0 == id;
      r
  }

  ghost predicate DistinctIds(vectors: seq<Entry>) {
    forall i, j :: 0 <= i < j < |vectors| ==> vectors[i].0 != vectors[j].0
  }

  lemma {:induction false} RetainDistinct(vectors: seq<Entry>, id: str)
    requires DistinctIds(vectors)
    ensures DistinctIds(Retain(vectors, id))
  {
    if vectors != [] {
      var init, last := vectors[..|vectors| - 1], vectors[|vectors| - 1];
      RetainDistinct(init, id);
      forall i | 0 <= i < |Retain(init, id)| ensures Retain(init, id)[i].0 != last.0 {
        assert Retain(init, id)[i] in init;
      }
    }
  }

  /** Every entry with its distance from the query. */
  function ScoredEntries(vectors: seq<Entry>, distance: Distance, query: Vector): (s: seq<Hit>)
    ensures |s| == |vectors| && forall i :: 0 <= i < |s| ==> s[i] == (vectors[i].0, distance(query, vectors[i].1))
  {
    seq(|vectors|, i requires 0 <= i < |vectors| => (vectors[i].0, distance(query, vectors[i].1)))
  }

  predicate NotAfter(x: Hit, y: Hit) {
    x.1 <= y.1
  }

  class BruteForceIndex {
    const metric: Metric
    const measure: (Vector, Vector, Metric) -> real
    var vectors: seq<Entry>

    ghost predicate Valid()
      reads this
    {
      DistinctIds(vectors)
    }

    function Between(): Distance {
      (a, b) => measure(a, b, metric)
    }

    constructor (metric: Metric, measure: (Vector, Vector, Metric) -> real)
      ensures Valid() && vectors == [] && this.metric == metric && this.measure == measure
    {
      this.metric, this.measure, vectors := metric, measure, [];
    }

    /** Replaces any entry of the same id. */
    method Insert(id: str, vector: Vector)
      requires Valid()
      modifies this`vectors
      ensures Valid() && forall e :: e in vectors <==> e == (id, vector) || (e in old(vectors) && e.0 != id)
    {
      RetainDistinct(vectors, id);
      vectors := Retain(vectors, id);
      vectors := vectors + [(id, vector)];
    }

    method Remove(id: str) returns (removed: bool)
      requires Valid()
      modifies this`vectors
      ensures Valid() && forall e :: e in vectors <==> e in old(vectors) && e.0 != id
      ensures removed <==> exists i :: 0 <= i < |old(vectors)| && old(vectors)[i].0 == id
    {
      var before := |vectors|;
      RetainDistinct(vectors, id);
      vectors := Retain(vectors, id);
      removed := |vectors| < before;
    }

    /** The `k` nearest entries. */
    method Search(query: Vector, k: nat) returns (hits: seq<Hit>)
      ensures hits == Sorting.Sort(ScoredEntries(vectors, Between(), query), NotAfter)[..Min(k, |vectors|)]
    {
      var scored := ScoredEntries(vectors, Between(), query);
      scored := Sorting.Sort(scored, NotAfter);
      hits := scored[..Min(k, |scored|)];
    }
  }

  // -------------------------------------------------------------------------
  // A wide HNSW search returns the distances of the linear scan
  // -------------------------------------------------------------------------

  function Distances(hits: seq<Hit>): (r: seq<real>)
    ensures |r| == |hits|
    ensures forall i :: 0 <= i < |hits| ==> r[i] == hits[i].1
  {
    seq(|hits|, i requires 0 <= i < |hits| => hits[i].1)
  }

  ghost predicate Ascending(s: seq<real>) {
    forall i, j :: 0 <= i < j < |s| ==> s[i] <= s[j]
  }

  lemma LastIsGreatest(s: seq<real>, x: real)
    requires Ascending(s) && x in multiset(s)
    ensures x <= s[|s| - 1]
  {
    var i :| 0 <= i < |s| && s[i] == x;
  }

  lemma {:induction false} AscendingUnique(s: seq<real>, t: seq<real>)
    requires Ascending(s) && Ascending(t) && |s| == |t| && multiset(s) == multiset(t)
    ensures s == t
    decreases |s|
  {
    if s != [] {
      var n := |s| - 1;
      SameLast(s, t);
      DropLast(s);
      DropLast(t);
      AscendingUnique(s[..n], t[..n]);
      SamePrefixAndLast(s, t);
    }
  }

  lemma SameLast(s: seq<real>, t: seq<real>)
    requires Ascending(s) && Ascending(t) && s != [] && t != [] && multiset(s) == multiset(t)
    ensures s[|s| - 1] == t[|t| - 1]
  {
    assert s[|s| - 1] in multiset(s) && t[|t| - 1] in multiset(t);
    LastIsGreatest(t, s[|s| - 1]);
    LastIsGreatest(s, t[|t| - 1]);
  }

  lemma DropLast<T>(s: seq<T>)
    requires s != []
    ensures multiset(s[..|s| - 1]) == multiset(s) - multiset{s[|s| - 1]}
  {
    assert s == s[..|s| - 1] + [s[|s| - 1]];
  }

  lemma SamePrefixAndLast(s: seq<real>, t: seq<real>)
    requires |s| == |t| > 0 && s[..|s| - 1] == t[..|t| - 1] && s[|s| - 1] == t[|t| - 1]
    ensures s == t
  {
    forall i | 0 <= i < |s| ensures s[i] == t[i] {
      if i < |s| - 1 { assert s[..|s| - 1][i] == t[..|t| - 1][i]; }
    }
  }

  lemma {:induction false} DistancesMultiset(a: seq<Hit>, b: seq<Hit>)
    requires |a| == |b| && multiset(a) == multiset(b)
    ensures multiset(Distances(a)) == multiset(Distances(b))
    decreases |a|
  {
    if a != [] {
      var n := |a| - 1;
      assert a[n] in multiset(b);
      var j :| 0 <= j < |b| && b[j] == a[n];
      var rest := b[..j] + b[j + 1..];
      DropLast(a);
      Sorting.RemoveAt(b, j);
      DistancesMultiset(a[..n], rest);
      DistancesSplit(b, j);
      DistancesLast(a);
    }
  }

  lemma DistancesSplit(b: seq<Hit>, j: nat)
    requires j < |b|
    ensures multiset(Distances(b)) == multiset(Distances(b[..j] + b[j + 1..])) + multiset{b[j].1}
  {
    Sorting.RemoveAt(Distances(b), j);
    DistancesWithout(b, j);
  }

  lemma DistancesLast(a: seq<Hit>)
    requires a != []
    ensures multiset(Distances(a)) == multiset(Distances(a[..|a| - 1])) + multiset{a[|a| - 1].1}
  {
    assert Distances(a) == Distances(a[..|a| - 1]) + [a[|a| - 1].1];
  }

  lemma DistancesWithout(b: seq<Hit>, j: nat)
    requires j < |b|
    ensures Distances(b[..j] + b[j + 1..]) == Distances(b)[..j] + Distances(b)[j + 1..]
  {
    var c := b[..j] + b[j + 1..];
    forall i | 0 <= i < |c| ensures Distances(c)[i] == (Distances(b)[..j] + Distances(b)[j + 1..])[i] {
      if i >= j { assert c[i] == b[i + 1]; }
    }
  }

  lemma {:induction false} DistancesConcat(a: seq<Hit>, b: seq<Hit>)
    ensures Distances(a + b) == Distances(a) + Distances(b)
  {
    forall i | 0 <= i < |a + b| ensures Distances(a + b)[i] == (Distances(a) + Distances(b))[i] {}
  }

  /** Two lists of distinct hits with the same members are rearrangements of each other. */
  lemma SameHits(a: seq<Hit>, b: seq<Hit>)
    requires (forall i, j :: 0 <= i < j < |a| ==> a[i] != a[j]) && (forall i, j :: 0 <= i < j < |b| ==> b[i] != b[j])
    requires forall h :: h in a <==> h in b
    ensures multiset(a) == multiset(b)
  {
    forall h ensures multiset(a)[h] == multiset(b)[h] {
      Sorting.NoRepeatCounts(a, h);
      Sorting.NoRepeatCounts(b, h);
      assert h in multiset(a) <==> h in a;
      assert h in multiset(b) <==> h in b;
    }
  }

  lemma {:induction false} LiveHitsAre(nodes: seq<Node>, found: seq<(real, nat)>)
    requires forall i :: 0 <= i < |found| ==> found[i].1 < |nodes|
    ensures forall h :: h in LiveHits(nodes, found) <==> exists i :: 0 <= i < |found| && LiveHitAt(nodes, found[i], h)
  {
    if found != [] {
      var init, last := found[..|found| - 1], found[|found| - 1];
      LiveHitsAre(nodes, init);
      assert found == init + [last];
      forall h ensures h in LiveHits(nodes, found) <==> exists i :: 0 <= i < |found| && LiveHitAt(nodes, found[i], h) {
        assert h in LiveHits(nodes, found) <==> h in LiveHits(nodes, init) || LiveHitAt(nodes, last, h);
        if h in LiveHits(nodes, init) {
          var i :| 0 <= i < |init| && LiveHitAt(nodes, init[i], h);
          assert LiveHitAt(nodes, found[i], h);
        }
        if i :| 0 <= i < |found| && LiveHitAt(nodes, found[i], h) {
          if i < |init| { assert LiveHitAt(nodes, init[i], h); }
        }
      }
    }
  }

  ghost predicate LiveHitAt(nodes: seq<Node>, f: (real, nat), h: Hit) {
    f.1 < |nodes| && !nodes[f.1].deleted && h == (nodes[f.1].id, f.0)
  }

  lemma {:induction false} LiveHitsOrdered(nodes: seq<Node>, lookup: map<str, nat>, found: seq<(real, nat)>)
    requires LiveUnique(nodes, lookup) && forall i :: 0 <= i < |found| ==> found[i].1 < |nodes|
    requires forall i, j :: 0 <= i < j < |found| ==> found[i].0 <= found[j].0 && found[i].1 != found[j].1
    ensures var hits := LiveHits(nodes, found); Ascending(Distances(hits)) && forall i, j :: 0 <= i < j < |hits| ==> hits[i] != hits[j]
  {
    if found != [] {
      var init, last := found[..|found| - 1], found[|found| - 1];
      LiveHitsOrdered(nodes, lookup, init);
      LiveHitsAre(nodes, init);
      var hits := LiveHits(nodes, init);
      if !nodes[last.1].deleted {
        var h := (nodes[last.1].id, last.0);
        forall i | 0 <= i < |hits| ensures hits[i].1 <= last.0 && hits[i].0 != h.0 {
          assert hits[i] in hits;
          var j :| 0 <= j < |init| && LiveHitAt(nodes, init[j], hits[i]);
          assert init[j] == found[j];
        }
        DistancesConcat(hits, [h]);
      }
    }
  }

  /** `vectors` lists exactly the live nodes that layer 0 reaches from `start`. */
  ghost predicate ListsReachable(vectors: seq<Entry>, nodes: seq<Node>, start: nat) {
    && DistinctIds(vectors)
    && forall e :: e in vectors <==> exists i :: LiveReachable(nodes, start, i, e)
  }

  ghost predicate LiveReachable(nodes: seq<Node>, start: nat, i: nat, e: Entry) {
    i < |nodes| && Reachable(nodes, 0, start, i) && !nodes[i].deleted && e == (nodes[i].id, nodes[i].vector)
  }

  /** With a beam as wide as the graph, the live results are the scored entries of the scan. */
  lemma WideHitsAreScored(nodes: seq<Node>, m: nat, lookup: map<str, nat>, distance: Distance, query: Vector, start: nat, e: nat, found: seq<(real, nat)>,
                          vectors: seq<Entry>)
    requires Linked(nodes, m) && At(nodes, start, 0) && LiveUnique(nodes, lookup) && e >= |nodes|
    requires Beam(nodes, 0, QueryDist(nodes, distance, query), start, e, found) && ListsReachable(vectors, nodes, start)
    requires forall i :: 0 <= i < |found| ==> found[i].1 < |nodes|
    ensures multiset(LiveHits(nodes, found)) == multiset(ScoredEntries(vectors, distance, query))
    ensures Ascending(Distances(LiveHits(nodes, found)))
  {
    var hits, scored := LiveHits(nodes, found), ScoredEntries(vectors, distance, query);
    LiveHitsOrdered(nodes, lookup, found);
    forall h ensures h in hits <==> h in scored {
      if h in hits { HitIsScored(nodes, distance, query, start, e, found, vectors, h); }
      if h in scored { ScoredIsHit(nodes, m, distance, query, start, e, found, vectors, h); }
    }
    SameHits(hits, scored);
  }

  lemma HitIsScored(nodes: seq<Node>, distance: Distance, query: Vector, start: nat, e: nat, found: seq<(real, nat)>, vectors: seq<Entry>, h: Hit)
    requires Beam(nodes, 0, QueryDist(nodes, distance, query), start, e, found) && ListsReachable(vectors, nodes, start)
    requires (forall i :: 0 <= i < |found| ==> found[i].1 < |nodes|) && h in LiveHits(nodes, found)
    ensures h in ScoredEntries(vectors, distance, query)
  {
    LiveHitsAre(nodes, found);
    var i :| 0 <= i < |found| && LiveHitAt(nodes, found[i], h);
    assert FoundOk(nodes, 0, QueryDist(nodes, distance, query), start, e, found, found[i]);
    var entry := (nodes[found[i].1].id, nodes[found[i].1].vector);
    assert LiveReachable(nodes, start, found[i].1, entry);
    assert entry in vectors;
    var j :| 0 <= j < |vectors| && vectors[j] == entry;
    assert ScoredEntries(vectors, distance, query)[j] == h;
  }

  lemma ScoredIsHit(nodes: seq<Node>, m: nat, distance: Distance, query: Vector, start: nat, e: nat, found: seq<(real, nat)>, vectors: seq<Entry>, h: Hit)
    requires Linked(nodes, m) && At(nodes, start, 0) && e >= |nodes|
    requires Beam(nodes, 0, QueryDist(nodes, distance, query), start, e, found) && ListsReachable(vectors, nodes, start)
    requires (forall i :: 0 <= i < |found| ==> found[i].1 < |nodes|) && h in ScoredEntries(vectors, distance, query)
    ensures h in LiveHits(nodes, found)
  {
    var d := QueryDist(nodes, distance, query);
    var j :| 0 <= j < |vectors| && ScoredEntries(vectors, distance, query)[j] == h;
    assert vectors[j] in vectors;
    var i :| LiveReachable(nodes, start, i, vectors[j]);
    WideBeamIsExhaustive(nodes, m, 0, d, start, e, found, i);
    var k :| 0 <= k < |found| && found[k].1 == i;
    assert FoundOk(nodes, 0, d, start, e, found, found[k]);
    LiveHitsAre(nodes, found);
    assert LiveHitAt(nodes, found[k], h);
  }

  /**
   HNSW refines the scan: a search whose beam is at least as wide as the graph
   returns the same `k` smallest distances as a linear scan over the live nodes
   that layer 0 reaches from where the descent ended.
   */
  lemma WideSearchIsExact(nodes: seq<Node>, m: nat, lookup: map<str, nat>, distance: Distance, query: Vector, start: nat, e: nat, found: seq<(real, nat)>,
                          vectors: seq<Entry>, k: nat)
    requires Linked(nodes, m) && At(nodes, start, 0) && LiveUnique(nodes, lookup) && e >= |nodes|
    requires Beam(nodes, 0, QueryDist(nodes, distance, query), start, e, found) && ListsReachable(vectors, nodes, start)
    requires forall i :: 0 <= i < |found| ==> found[i].1 < |nodes|
    ensures |LiveHits(nodes, found)| == |vectors|
    ensures Distances(LiveHits(nodes, found)[..Min(k, |LiveHits(nodes, found)|)])
         == Distances(Sorting.Sort(ScoredEntries(vectors, distance, query), NotAfter)[..Min(k, |vectors|)])
  {
    var hits, scored := LiveHits(nodes, found), ScoredEntries(vectors, distance, query);
    WideHitsAreScored(nodes, m, lookup, distance, query, start, e, found, vectors);
    SameSize(hits, scored);
    SortedDistances(hits, scored, k);
  }

  /** The same, read off the result of a search: it has the distances of the exact index over those nodes. */
  lemma WideSearchMatchesScan(index: HnswIndex, query: Vector, k: nat, ef: nat, start: nat, found: seq<(real, nat)>, hits: seq<Hit>, vectors: seq<Entry>)
    requires index.Valid() && index.Unique() && index.entryPoint.Some? && ef >= |index.nodes|
    requires index.Finds(query, k, ef, start, found, hits) && ListsReachable(vectors, index.nodes, start)
    ensures Distances(hits) == Distances(Sorting.Sort(ScoredEntries(vectors, index.Between(), query), NotAfter)[..Min(k, |vectors|)])
  {
    WideSearchIsExact(index.nodes, index.config.m, index.nodeLookup, index.Between(), query, start, Max(Max(ef, k), 1), found, vectors, k);
  }

  lemma SameSize(a: seq<Hit>, b: seq<Hit>)
    requires multiset(a) == multiset(b)
    ensures |a| == |b|
  {
    assert |multiset(a)| == |a| && |multiset(b)| == |b|;
  }

  /** Nearest-first hits have the distances of any sorted rearrangement. */
  lemma SortedDistances(hits: seq<Hit>, scored: seq<Hit>, k: nat)
    requires |hits| == |scored| && multiset(hits) == multiset(scored) && Ascending(Distances(hits))
    ensures Distances(hits[..Min(k, |hits|)]) == Distances(Sorting.Sort(scored, NotAfter)[..Min(k, |hits|)])
  {
    var sorted, n := Sorting.Sort(scored, NotAfter), Min(k, |hits|);
    assert Sorting.TotalPreorder(NotAfter);
    Sorting.SortSorted(scored, NotAfter);
    forall i, j | 0 <= i < j < |sorted| ensures Distances(sorted)[i] <= Distances(sorted)[j] { assert NotAfter(sorted[i], sorted[j]); }
    DistancesMultiset(hits, sorted);
    AscendingUnique(Distances(hits), Distances(sorted));
    DistancesTake(hits, n);
    DistancesTake(sorted, n);
  }

  lemma DistancesTake(hits: seq<Hit>, n: nat)
    requires n <= |hits|
    ensures Distances(hits[..n]) == Distances(hits)[..n]
  {
  }

  /** Layer 0 reaches every live node. */
  ghost predicate ReachesAll(nodes: seq<Node>, start: nat) {
    forall i :: 0 <= i < |nodes| && !nodes[i].deleted ==> Reachable(nodes, 0, start, i)
  }

  lemma ContentsAreReachable(vectors: seq<Entry>, nodes: seq<Node>, lookup: map<str, nat>, start: nat)
    requires LookupOk(nodes, lookup) && LiveUnique(nodes, lookup) && DistinctIds(vectors) && ReachesAll(nodes, start)
    requires forall e :: e in vectors <==> e.0 in lookup && LiveOf(nodes, lookup)[e.0] == e.1
    ensures ListsReachable(vectors, nodes, start)
  {
    forall e ensures e in vectors <==> exists i :: LiveReachable(nodes, start, i, e) {
      if e in vectors { assert LiveReachable(nodes, start, lookup[e.0], e); }
    }
  }

  /**
   When layer 0 reaches every live node, a search with a wide beam has the
   distances of an exact index that holds the same contents.
   */
  lemma ReachingSearchMatchesScan(index: HnswIndex, query: Vector, k: nat, ef: nat, start: nat, found: seq<(real, nat)>, hits: seq<Hit>, vectors: seq<Entry>)
    requires index.Valid() && index.Unique() && index.entryPoint.Some? && ef >= |index.nodes|
    requires index.Finds(query, k, ef, start, found, hits) && ReachesAll(index.nodes, start)
    requires DistinctIds(vectors) && forall e :: e in vectors <==> e.0 in index.Live() && index.Live()[e.0] == e.1
    ensures Distances(hits) == Distances(Sorting.Sort(ScoredEntries(vectors, index.Between(), query), NotAfter)[..Min(k, |vectors|)])
  {
    ContentsAreReachable(vectors, index.nodes, index.nodeLookup, start);
    WideSearchMatchesScan(index, query, k, ef, start, found, hits, vectors);
  }
}
