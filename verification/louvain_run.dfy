/** The Louvain program: adjacency, community totals and local-move passes kept up to date in place. */
module LouvainRun {
  import opened Bytes
  import opened Wrappers
  import opened Grouping
  import opened Sweeps
  import opened Representatives
  import opened Louvain

  // -------------------------------------------------------------------------
  // Adjacency and degrees
  // -------------------------------------------------------------------------

  type Neighbour = (str, real)

  /** Neighbours of `x` in input order, once per edge. */
  ghost function AdjacencyOf(edges: seq<Edge>, x: str): seq<Neighbour> {
    if edges == [] then []
    else
      var (src, dst, w) := edges[|edges| - 1];
      AdjacencyOf(edges[..|edges| - 1], x)
        + (if src != dst && src == x then [(dst, w)] else [])
        + (if src != dst && dst == x then [(src, w)] else [])
  }

  /** The stored adjacency lists and degrees of the edges; isolated nodes have no entry. */
  ghost predicate Built(edges: seq<Edge>, adj: map<str, seq<Neighbour>>, degree: map<str, real>) {
    forall x :: BuiltAt(edges, adj, degree, x)
  }

  ghost predicate BuiltAt(edges: seq<Edge>, adj: map<str, seq<Neighbour>>, degree: map<str, real>, x: str) {
    && (x in adj <==> AdjacencyOf(edges, x) != [])
    && (x in adj <==> x in degree)
    && (x in adj ==> adj[x] == AdjacencyOf(edges, x) && degree[x] == Degree(edges, x))
  }

  function Append(adj: map<str, seq<Neighbour>>, x: str, n: Neighbour): map<str, seq<Neighbour>> {
    adj[x := (if x in adj then adj[x] else []) + [n]]
  }

  function Increase(degree: map<str, real>, x: str, w: real): map<str, real> {
    degree[x := (if x in degree then degree[x] else 0.0) + w]
  }

  lemma {:induction false} NoAdjacencyNoDegree(edges: seq<Edge>, x: str)
    requires AdjacencyOf(edges, x) == []
    ensures Degree(edges, x) == 0.0
  {
    if edges != [] { NoAdjacencyNoDegree(edges[..|edges| - 1], x); }
  }

  lemma {:induction false} AdjacencyMeans(edges: seq<Edge>, x: str, y: str)
    ensures Adjacent(edges, x, y) <==> exists j :: 0 <= j < |AdjacencyOf(edges, x)| && AdjacencyOf(edges, x)[j].0 == y
  {
    if edges != [] {
      var init, last := edges[..|edges| - 1], edges[|edges| - 1];
      var before, after := AdjacencyOf(init, x), AdjacencyOf(edges, x);
      AdjacencyMeans(init, x, y);
      assert edges == init + [last];
      assert forall j :: 0 <= j < |before| ==> after[j] == before[j];
      if Adjacent(edges, x, y) && !Adjacent(init, x, y) {
        assert after[|after| - 1].0 == y;
      }
      if j :| 0 <= j < |after| && after[j].0 == y {
        if j < |before| { assert before[j].0 == y; } else { assert last in edges; }
      }
    }
  }

  lemma BuildStep(edges: seq<Edge>, k: nat, adj: map<str, seq<Neighbour>>, degree: map<str, real>)
    requires k < |edges| && Built(edges[..k], adj, degree) && edges[k].0 != edges[k].1
    ensures var (src, dst, w) := edges[k];
      Built(edges[..k + 1], Append(Append(adj, src, (dst, w)), dst, (src, w)), Increase(Increase(degree, src, w), dst, w))
  {
    var (src, dst, w) := edges[k];
    var before, after := edges[..k], edges[..k + 1];
    assert after[..k] == before && after[k] == edges[k];
    forall x ensures BuiltAt(after, Append(Append(adj, src, (dst, w)), dst, (src, w)), Increase(Increase(degree, src, w), dst, w), x) {
      assert BuiltAt(before, adj, degree, x);
      BuildStepAt(before, after, adj, degree, x);
    }
  }

  lemma BuildStepAt(before: seq<Edge>, after: seq<Edge>, adj: map<str, seq<Neighbour>>, degree: map<str, real>, x: str)
    requires after != [] && before == after[..|after| - 1] && BuiltAt(before, adj, degree, x)
    requires after[|after| - 1].0 != after[|after| - 1].1
    ensures var (src, dst, w) := after[|after| - 1];
      BuiltAt(after, Append(Append(adj, src, (dst, w)), dst, (src, w)), Increase(Increase(degree, src, w), dst, w), x)
  {
    var (src, dst, w) := after[|after| - 1];
    if x !in adj { NoAdjacencyNoDegree(before, x); }
    assert Degree(after, x) == Degree(before, x) + (if src == x then w else 0.0) + (if dst == x then w else 0.0);
  }

  method BuildAdjacency(edges: seq<Edge>) returns (all: set<str>, adj: map<str, seq<Neighbour>>, degree: map<str, real>)
    ensures all == Nodes(edges) && Built(edges, adj, degree)
  {
    all, adj, degree := {}, map[], map[];
    for k := 0 to |edges|
      invariant all == Nodes(edges[..k]) && Built(edges[..k], adj, degree)
    {
      var (src, dst, w) := edges[k];
      NodesStep(edges, k);
      all := all + {src, dst};
      if src != dst {
        BuildStep(edges, k, adj, degree);
        adj := Append(Append(adj, src, (dst, w)), dst, (src, w));
        degree := Increase(Increase(degree, src, w), dst, w);
      } else {
        LoopStep(edges, k, adj, degree);
      }
    }
    assert edges[..|edges|] == edges;
  }

  lemma NodesStep(edges: seq<Edge>, k: nat)
    requires k < |edges|
    ensures Nodes(edges[..k + 1]) == Nodes(edges[..k]) + {edges[k].0, edges[k].1}
  {
    assert edges[..k + 1] == edges[..k] + [edges[k]];
    forall x ensures x in Nodes(edges[..k + 1]) <==> x in Nodes(edges[..k]) + {edges[k].0, edges[k].1} {
      if x in Nodes(edges[..k]) {
        var e :| e in edges[..k] && (e.0 == x || e.1 == x);
        assert e in edges[..k + 1];
      }
      assert edges[k] in edges[..k + 1];
    }
  }

  lemma LoopStep(edges: seq<Edge>, k: nat, adj: map<str, seq<Neighbour>>, degree: map<str, real>)
    requires k < |edges| && Built(edges[..k], adj, degree) && edges[k].0 == edges[k].1
    ensures Built(edges[..k + 1], adj, degree)
  {
    var before, after := edges[..k], edges[..k + 1];
    assert after[..k] == before && after[k] == edges[k];
    forall x ensures BuiltAt(after, adj, degree, x) { assert BuiltAt(before, adj, degree, x); }
  }

  /** Sum of the degrees, taken in any order. */
  method DegreeSum(ghost edges: seq<Edge>, ghost adj: map<str, seq<Neighbour>>, degree: map<str, real>) returns (total: real)
    requires Built(edges, adj, degree)
    ensures total == Volume(edges, degree.Keys)
  {
    total := 0.0;
    var todo := degree.Keys;
    VolumeEmpty(edges);
    ghost var done: set<str> := {};
    while todo != {}
      invariant todo <= degree.Keys && done == degree.Keys - todo && total == Volume(edges, done)
      decreases |todo|
    {
      var x :| x in todo;
      assert BuiltAt(edges, adj, degree, x);
      VolumeSplit(edges, done, x);
      total := total + degree[x];
      todo := todo - {x};
      done := done + {x};
    }
    assert done == degree.Keys;
  }

  /** `m`, half the degree sum, is the total weight of the edges that are not self-loops. */
  method HalfDegreeSum(ghost edges: seq<Edge>, ghost adj: map<str, seq<Neighbour>>, degree: map<str, real>) returns (m: real)
    requires Built(edges, adj, degree)
    ensures m == TotalWeight(edges)
  {
    var total := DegreeSum(edges, adj, degree);
    forall e | e in edges && e.0 != e.1 ensures e.0 in degree && e.1 in degree {
      AdjacencyMeans(edges, e.0, e.1);
      AdjacencyMeans(edges, e.1, e.0);
      assert Adjacent(edges, e.0, e.1) && Adjacent(edges, e.1, e.0);
      assert BuiltAt(edges, adj, degree, e.0) && BuiltAt(edges, adj, degree, e.1);
    }
    VolumeAll(edges, degree.Keys);
    m := total / 2.0;
  }

  // -------------------------------------------------------------------------
  // One node
  // -------------------------------------------------------------------------

  ghost function WeightTo(neighbours: seq<Neighbour>, a: Assignment, c: str): real
    requires forall j :: 0 <= j < |neighbours| ==> neighbours[j].0 in a
  {
    if neighbours == [] then 0.0
    else
      var (y, w) := neighbours[|neighbours| - 1];
      WeightTo(neighbours[..|neighbours| - 1], a, c) + (if a[y] == c then w else 0.0)
  }

  lemma {:induction false} AdjacencyInside(edges: seq<Edge>, a: Assignment, x: str)
    requires Covers(a, edges)
    ensures forall j :: 0 <= j < |AdjacencyOf(edges, x)| ==> AdjacencyOf(edges, x)[j].0 in a
  {
    if edges != [] {
      assert edges[|edges| - 1] in edges;
      AdjacencyInside(edges[..|edges| - 1], a, x);
    }
  }

  lemma WeightToAppend(n: seq<Neighbour>, y: Neighbour, a: Assignment, c: str)
    requires y.0 in a && forall j :: 0 <= j < |n| ==> n[j].0 in a
    ensures WeightTo(n + [y], a, c) == WeightTo(n, a, c) + (if a[y.0] == c then y.1 else 0.0)
  {
    assert (n + [y])[..|n|] == n;
  }

  lemma TowardStep(edges: seq<Edge>, a: Assignment, x: str, c: str)
    requires Covers(a, edges) && edges != []
    ensures var (src, dst, w) := edges[|edges| - 1];
      && src in a && dst in a && Covers(a, edges[..|edges| - 1])
      && Toward(edges, a, x, c) == Toward(edges[..|edges| - 1], a, x, c)
        + (if src != dst && src == x && a[dst] == c then w else if src != dst && dst == x && a[src] == c then w else 0.0)
  {
    assert edges[|edges| - 1] in edges;
  }

  /** What the last edge adds to the weight of the listed neighbours. */
  lemma WeightToStep(edges: seq<Edge>, init: seq<Edge>, a: Assignment, x: str, c: str)
    requires Covers(a, edges) && edges != [] && init == edges[..|edges| - 1] && forall j :: 0 <= j < |AdjacencyOf(edges, x)| ==> AdjacencyOf(edges, x)[j].0 in a
    requires forall j :: 0 <= j < |AdjacencyOf(init, x)| ==> AdjacencyOf(init, x)[j].0 in a
    ensures var (src, dst, w) := edges[|edges| - 1];
      && src in a && dst in a
      && WeightTo(AdjacencyOf(edges, x), a, c) == WeightTo(AdjacencyOf(init, x), a, c)
        + (if src != dst && src == x && a[dst] == c then w else if src != dst && dst == x && a[src] == c then w else 0.0)
  {
    assert edges[|edges| - 1] in edges;
    var (src, dst, w) := edges[|edges| - 1];
    var before := AdjacencyOf(init, x);
    if src != dst && src == x {
      WeightToAppend(before, (dst, w), a, c);
      assert AdjacencyOf(edges, x) == before + [(dst, w)];
    } else if src != dst && dst == x {
      WeightToAppend(before, (src, w), a, c);
      assert AdjacencyOf(edges, x) == before + [(src, w)];
    } else {
      assert AdjacencyOf(edges, x) == before;
    }
  }

  lemma {:induction false} WeightToIsToward(edges: seq<Edge>, a: Assignment, x: str, c: str)
    requires Covers(a, edges) && forall j :: 0 <= j < |AdjacencyOf(edges, x)| ==> AdjacencyOf(edges, x)[j].0 in a
    ensures WeightTo(AdjacencyOf(edges, x), a, c) == Toward(edges, a, x, c)
  {
    if edges != [] {
      TowardStep(edges, a, x, c);
      AdjacencyInside(edges[..|edges| - 1], a, x);
      WeightToIsToward(edges[..|edges| - 1], a, x, c);
      WeightToStep(edges, edges[..|edges| - 1], a, x, c);
    }
  }

  /** Weight toward each community of a neighbour. */
  ghost predicate Affine(kin: map<str, real>, neighbours: seq<Neighbour>, a: Assignment) {
    && (forall j :: 0 <= j < |neighbours| ==> neighbours[j].0 in a && a[neighbours[j].0] in kin)
    && (forall c :: c in kin ==> kin[c] == WeightTo(neighbours, a, c) && exists j :: 0 <= j < |neighbours| && a[neighbours[j].0] == c)
    && (forall c :: c !in kin ==> WeightTo(neighbours, a, c) == 0.0)
  }

  method Affinities(neighbours: seq<Neighbour>, a: Assignment) returns (kin: map<str, real>)
    requires forall j :: 0 <= j < |neighbours| ==> neighbours[j].0 in a
    ensures Affine(kin, neighbours, a)
  {
    kin := map[];
    for i := 0 to |neighbours|
      invariant Affine(kin, neighbours[..i], a)
    {
      var (y, w) := neighbours[i];
      AffineStep(neighbours, i, a, kin);
      kin := Increase(kin, a[y], w);
    }
    assert neighbours[..|neighbours|] == neighbours;
  }

  lemma AffineStep(neighbours: seq<Neighbour>, i: nat, a: Assignment, kin: map<str, real>)
    requires i < |neighbours| && neighbours[i].0 in a && Affine(kin, neighbours[..i], a)
    ensures Affine(Increase(kin, a[neighbours[i].0], neighbours[i].1), neighbours[..i + 1], a)
  {
    var (y, w) := neighbours[i];
    var before, after, kin' := neighbours[..i], neighbours[..i + 1], Increase(kin, a[y], w);
    assert after[..i] == before && after[i] == neighbours[i];
    forall c | c in kin' ensures kin'[c] == WeightTo(after, a, c) && exists j :: 0 <= j < |after| && a[after[j].0] == c {
      if c != a[y] {
        var j :| 0 <= j < |before| && a[before[j].0] == c;
        assert a[after[j].0] == c;
      }
    }
    forall j | 0 <= j < |after| ensures after[j].0 in a && a[after[j].0] in kin' {
      if j < i { assert after[j] == before[j]; }
    }
  }

  /** `best` is the candidate of greatest positive net gain, or none has one. */
  ghost predicate Chosen(kin: map<str, real>, sigma: map<str, real>, gain: Gain, k: real, current: str, baseline: real, best: Option<str>)
    requires kin.Keys <= sigma.Keys
  {
    match best
    case None => forall c :: c in kin && c != current ==> gain(kin[c], sigma[c], k) - baseline <= 0.0
    case Some(b) =>
      && b in kin && b != current && gain(kin[b], sigma[b], k) - baseline > 0.0
      && forall c :: c in kin && c != current ==> gain(kin[c], sigma[c], k) - baseline <= gain(kin[b], sigma[b], k) - baseline
  }

  /** The best candidate; candidates come in any order. */
  method ChooseBest(kin: map<str, real>, sigma: map<str, real>, gain: Gain, k: real, current: str, baseline: real) returns (best: Option<str>)
    requires kin.Keys <= sigma.Keys
    ensures Chosen(kin, sigma, gain, k, current, baseline, best)
  {
    best := None;
    var bestGain := 0.0;
    var todo := kin.Keys;
    while todo != {}
      invariant todo <= kin.Keys
      invariant forall c :: c in kin && c !in todo && c != current ==> gain(kin[c], sigma[c], k) - baseline <= bestGain
      invariant best.None? ==> bestGain == 0.0
      invariant best.Some? ==> best.value in kin && best.value != current
      invariant best.Some? ==> bestGain == gain(kin[best.value], sigma[best.value], k) - baseline > 0.0
      decreases |todo|
    {
      var c :| c in todo;
      todo := todo - {c};
      if c != current {
        var net := gain(kin[c], sigma[c], k) - baseline;
        if net > bestGain {
          bestGain, best := net, Some(c);
        }
      }
    }
  }

  /** The stored totals are the degree sums of the current communities. */
  ghost predicate Tracks(edges: seq<Edge>, nodes: seq<str>, a: Assignment, sigma: map<str, real>) {
    && Named(a, nodes) && Covers(a, edges) && sigma.Keys == a.Keys
    && forall c :: c in sigma ==> sigma[c] == Sigma(edges, a, c)
  }

  lemma TracksMove(edges: seq<Edge>, nodes: seq<str>, a: Assignment, sigma: map<str, real>, x: str, c: str)
    requires Tracks(edges, nodes, a, sigma) && x in a && c in a && c != a[x]
    ensures var k := Degree(edges, x);
      Tracks(edges, nodes, a[x := c], Increase(Increase(sigma, a[x], -k), c, k))
  {
    var k := Degree(edges, x);
    var b, sigma' := a[x := c], Increase(Increase(sigma, a[x], -k), c, k);
    assert HomeNamed(a, nodes, x);
    forall z ensures HomeNamed(b, nodes, z) { assert HomeNamed(a, nodes, z); }
    forall d | d in sigma' ensures sigma'[d] == Sigma(edges, b, d) { SigmaMoves(edges, a, x, c, d); }
  }

  /** The candidates of a node are the other communities its affinities name. */
  lemma CandidatesAre(edges: seq<Edge>, a: Assignment, x: str, kin: map<str, real>, neighbours: seq<Neighbour>)
    requires Covers(a, edges) && x in a && neighbours == AdjacencyOf(edges, x) && Affine(kin, neighbours, a)
    ensures forall c :: Candidate(edges, a, x, c) <==> c in kin && c != a[x]
    ensures forall c :: c in kin ==> kin[c] == Toward(edges, a, x, c)
    ensures forall c :: c !in kin ==> Toward(edges, a, x, c) == 0.0
  {
    forall c ensures Toward(edges, a, x, c) == WeightTo(neighbours, a, c) { WeightToIsToward(edges, a, x, c); }
    forall c ensures Candidate(edges, a, x, c) <==> c in kin && c != a[x] {
      if Candidate(edges, a, x, c) {
        var y :| y in a && Adjacent(edges, x, y) && a[y] == c;
        AdjacencyMeans(edges, x, y);
        var j :| 0 <= j < |neighbours| && neighbours[j].0 == y;
      }
      if c in kin {
        var j :| 0 <= j < |neighbours| && a[neighbours[j].0] == c;
        AdjacencyMeans(edges, x, neighbours[j].0);
      }
    }
  }

  lemma CandidateNamed(edges: seq<Edge>, nodes: seq<str>, a: Assignment, x: str, c: str)
    requires Named(a, nodes) && x in a && Candidate(edges, a, x, c)
    ensures c in a
  {
    var y :| y in a && a[y] == c;
    assert HomeNamed(a, nodes, y);
  }

  lemma NetIsGain(edges: seq<Edge>, nodes: seq<str>, a: Assignment, sigma: map<str, real>, gain: Gain, x: str, c: str, kin: real, kinCurrent: real, k: real)
    requires Tracks(edges, nodes, a, sigma) && x in a && c in sigma && k == Degree(edges, x)
    requires kin == Toward(edges, a, x, c) && kinCurrent == Toward(edges, a, x, a[x])
    ensures a[x] in sigma && Net(edges, a, gain, x, c) == gain(kin, sigma[c], k) - gain(kinCurrent, sigma[a[x]] - k, k)
  {
    assert HomeNamed(a, nodes, x);
  }

  lemma NetsAreGains(edges: seq<Edge>, nodes: seq<str>, a: Assignment, sigma: map<str, real>, gain: Gain, x: str, kin: map<str, real>, baseline: real, k: real)
    requires Tracks(edges, nodes, a, sigma) && x in a && kin.Keys <= sigma.Keys && k == Degree(edges, x) && a[x] in sigma
    requires baseline == gain(Toward(edges, a, x, a[x]), sigma[a[x]] - k, k)
    requires forall c :: c in kin ==> kin[c] == Toward(edges, a, x, c)
    ensures forall c :: c in kin ==> Net(edges, a, gain, x, c) == gain(kin[c], sigma[c], k) - baseline
  {
    forall c | c in kin ensures Net(edges, a, gain, x, c) == gain(kin[c], sigma[c], k) - baseline {
      NetIsGain(edges, nodes, a, sigma, gain, x, c, kin[c], Toward(edges, a, x, a[x]), k);
    }
  }

  /** `best` is the community `x` gains most by moving to, or no move of `x` gains. */
  ghost predicate BestFor(edges: seq<Edge>, a: Assignment, gain: Gain, x: str, best: Option<str>)
    requires Covers(a, edges) && x in a
  {
    match best
    case None => forall c :: Candidate(edges, a, x, c) ==> Net(edges, a, gain, x, c) <= 0.0
    case Some(b) =>
      && Candidate(edges, a, x, b) && Net(edges, a, gain, x, b) > 0.0
      && forall c :: Candidate(edges, a, x, c) ==> Net(edges, a, gain, x, c) <= Net(edges, a, gain, x, b)
  }

  /** The node's best move under the current totals, if one gains. */
  method BestMove(ghost edges: seq<Edge>, ghost nodes: seq<str>, neighbours: seq<Neighbour>, gain: Gain, x: str, k: real,
                  a: Assignment, sigma: map<str, real>)
    returns (best: Option<str>)
    requires Tracks(edges, nodes, a, sigma) && x in a && neighbours == AdjacencyOf(edges, x) && k == Degree(edges, x)
    ensures BestFor(edges, a, gain, x, best)
  {
    AdjacencyInside(edges, a, x);
    HomesTracked(edges, nodes, a, sigma);
    var kin, baseline;
    best, kin, baseline := WeighMoves(neighbours, gain, x, k, a, sigma);
    BestIsMove(edges, nodes, a, sigma, gain, x, kin, neighbours, baseline, k, best);
  }

  lemma HomesTracked(edges: seq<Edge>, nodes: seq<str>, a: Assignment, sigma: map<str, real>)
    requires Tracks(edges, nodes, a, sigma)
    ensures forall y :: y in a ==> a[y] in sigma
  {
    forall y | y in a ensures a[y] in sigma { assert HomeNamed(a, nodes, y); }
  }

  /** Weighs every community of a neighbour against staying. */
  method WeighMoves(neighbours: seq<Neighbour>, gain: Gain, x: str, k: real, a: Assignment, sigma: map<str, real>)
    returns (best: Option<str>, kin: map<str, real>, baseline: real)
    requires x in a && (forall j :: 0 <= j < |neighbours| ==> neighbours[j].0 in a) && forall y :: y in a ==> a[y] in sigma
    ensures Affine(kin, neighbours, a) && kin.Keys <= sigma.Keys
    ensures baseline == gain(if a[x] in kin then kin[a[x]] else 0.0, sigma[a[x]] - k, k)
    ensures Chosen(kin, sigma, gain, k, a[x], baseline, best)
  {
    var current := a[x];
    kin := Affinities(neighbours, a);
    var kinCurrent := if current in kin then kin[current] else 0.0;
    baseline := gain(kinCurrent, (if current in sigma then sigma[current] else 0.0) - k, k);
    best := ChooseBest(kin, sigma, gain, k, current, baseline);
  }

  /** The chosen community, read back as a statement about the graph. */
  lemma BestIsMove(edges: seq<Edge>, nodes: seq<str>, a: Assignment, sigma: map<str, real>, gain: Gain, x: str, kin: map<str, real>,
                   neighbours: seq<Neighbour>, baseline: real, k: real, best: Option<str>)
    requires Tracks(edges, nodes, a, sigma) && x in a && neighbours == AdjacencyOf(edges, x) && k == Degree(edges, x)
    requires Affine(kin, neighbours, a) && kin.Keys <= sigma.Keys && a[x] in sigma
    requires baseline == gain(if a[x] in kin then kin[a[x]] else 0.0, sigma[a[x]] - k, k)
    requires Chosen(kin, sigma, gain, k, a[x], baseline, best)
    ensures BestFor(edges, a, gain, x, best)
  {
    CandidatesAre(edges, a, x, kin, neighbours);
    NetsAreGains(edges, nodes, a, sigma, gain, x, kin, baseline, k);
  }

  /** Visits one node: moves it to its best community when that gains, and leaves everything alone otherwise. */
  method VisitNode(ghost edges: seq<Edge>, ghost nodes: seq<str>, adj: map<str, seq<Neighbour>>, degree: map<str, real>, gain: Gain,
                   x: str, a: Assignment, sigma: map<str, real>)
    returns (b: Assignment, sigma': map<str, real>, moved: bool, ghost target: str)
    requires Built(edges, adj, degree) && Tracks(edges, nodes, a, sigma) && x in a
    ensures Tracks(edges, nodes, b, sigma')
    ensures if moved then IsMove(edges, gain, a, b, x, target) else b == a && sigma' == sigma && Settled(edges, gain, a, x)
  {
    b, sigma', moved, target := a, sigma, false, [];
    var k := if x in degree then degree[x] else 0.0;
    assert BuiltAt(edges, adj, degree, x);
    if x !in degree { NoAdjacencyNoDegree(edges, x); }
    if k == 0.0 {
      return;
    }
    var best := BestMove(edges, nodes, adj[x], gain, x, k, a, sigma);
    if best.Some? {
      var current := a[x];
      target := best.value;
      CandidateNamed(edges, nodes, a, x, target);
      TracksMove(edges, nodes, a, sigma, x, target);
      sigma' := Increase(Increase(sigma, current, -k), best.value, k);
      b := a[x := best.value];
      moved := true;
    }
  }

  /** What a visit of `x` does: an accepted move, or nothing when none gains. */
  ghost predicate Visited(edges: seq<Edge>, gain: Gain, a: Assignment, x: str, b: Assignment) {
    (Settled(edges, gain, a, x) && b == a) || exists c :: IsMove(edges, gain, a, b, x, c)
  }

  ghost function VisitOf(edges: seq<Edge>, gain: Gain): Visit {
    (a, x, b) => Visited(edges, gain, a, x, b)
  }

  lemma VisitMeans(edges: seq<Edge>, gain: Gain, a: Assignment, x: str, b: Assignment, moved: bool, c: str)
    requires if moved then IsMove(edges, gain, a, b, x, c) else b == a && Settled(edges, gain, a, x)
    ensures Visited(edges, gain, a, x, b) && (moved <==> b != a)
  {
    if moved { assert b[x] == c && a[x] != c; }
  }

  /** A visit that changes nothing found the node settled. */
  lemma QuietVisit(edges: seq<Edge>, gain: Gain, a: Assignment, x: str)
    requires Visited(edges, gain, a, x, a)
    ensures Settled(edges, gain, a, x)
  {
    forall c | x in a ensures !IsMove(edges, gain, a, a, x, c) { assert a[x := c][x] == c; }
  }

  lemma QuietSettled(edges: seq<Edge>, nodes: seq<str>, gain: Gain, steps: seq<Assignment>)
    requires Started(VisitOf(edges, gain), nodes, steps) && |steps| == |nodes| + 1 && Quiet(steps)
    ensures AllSettled(edges, nodes, gain, steps[0]) && steps[|nodes|] == steps[0]
  {
    QuietStays(steps, |nodes|);
    forall x | x in nodes ensures Settled(edges, gain, steps[0], x) {
      var i :| 0 <= i < |nodes| && nodes[i] == x;
      assert VisitAt(VisitOf(edges, gain), nodes, steps, i);
      QuietStays(steps, i);
      QuietStays(steps, i + 1);
      QuietVisit(edges, gain, steps[0], x);
    }
  }

  // -------------------------------------------------------------------------
  // Passes
  // -------------------------------------------------------------------------

  /** What holds between visits. */
  ghost predicate Progress(edges: seq<Edge>, nodes: seq<str>, gain: Gain, a: Assignment, sigma: map<str, real>, trace: seq<Assignment>) {
    Tracks(edges, nodes, a, sigma) && IsTrace(edges, gain, trace) && trace[|trace| - 1] == a
  }

  method Pass(ghost edges: seq<Edge>, nodes: seq<str>, adj: map<str, seq<Neighbour>>, degree: map<str, real>, gain: Gain,
              a: Assignment, sigma: map<str, real>, ghost trace: seq<Assignment>)
    returns (b: Assignment, sigma': map<str, real>, anyMoved: bool, ghost trace': seq<Assignment>, ghost steps: seq<Assignment>)
    requires Built(edges, adj, degree) && Progress(edges, nodes, gain, a, sigma, trace)
    ensures Progress(edges, nodes, gain, b, sigma', trace') && trace'[0] == trace[0]
    ensures IsPass(VisitOf(edges, gain), nodes, steps, a, b)
    ensures anyMoved <==> !Quiet(steps)
  {
    b, sigma', anyMoved, trace', steps := a, sigma, false, trace, [a];
    for i := 0 to |nodes|
      invariant Progress(edges, nodes, gain, b, sigma', trace') && trace'[0] == trace[0]
      invariant Started(VisitOf(edges, gain), nodes, steps) && |steps| == i + 1 && steps[0] == a && steps[i] == b
      invariant anyMoved <==> !Quiet(steps)
    {
      var moved;
      ghost var before, target := b, [];
      b, sigma', moved, target := VisitNode(edges, nodes, adj, degree, gain, nodes[i], b, sigma');
      VisitMeans(edges, gain, before, nodes[i], b, moved, target);
      VisitNext(VisitOf(edges, gain), nodes, steps, b);
      steps := steps + [b];
      if moved {
        anyMoved := true;
        TraceExtended(edges, gain, trace', b, nodes[i], target);
        trace' := trace' + [b];
      }
    }
  }

  ghost predicate AllSettled(edges: seq<Edge>, nodes: seq<str>, gain: Gain, a: Assignment) {
    forall x :: x in nodes ==> Settled(edges, gain, a, x)
  }

  /**
   How a run with gain function `gain` ends: `final` is left by the passes over
   the nodes in name order, which stop at the first quiet one or when the limit is
   reached; the nodes moved one at a time along `trace`, from the singletons.
   */
  ghost predicate Ends(edges: seq<Edge>, nodes: seq<str>, gain: Gain, limit: nat, passes: seq<seq<Assignment>>, trace: seq<Assignment>, final: Assignment) {
    var start := Singletons(Nodes(edges));
    && Passes(VisitOf(edges, gain), nodes, start, passes, limit) && final == After(start, passes)
    && IsTrace(edges, gain, trace) && trace[0] == start && final == trace[|trace| - 1]
    && (Settles(passes) ==> AllSettled(edges, nodes, gain, final))
  }

  /** A moved node joins the community of a neighbour. */
  lemma MoveJoins(edges: seq<Edge>, gain: Gain, a: Assignment, b: Assignment, x: str, c: str) returns (y: str)
    requires IsMove(edges, gain, a, b, x, c)
    ensures JoinsBy(LinksOf(edges), a, x, y, b)
  {
    y :| y in a && Adjacent(edges, x, y) && a[y] == c;
    var e :| e in edges && ((e.0 == x && e.1 == y) || (e.0 == y && e.1 == x));
    assert (e.0, e.1) in LinksOf(edges);
  }

  lemma VisitsFollow(edges: seq<Edge>, gain: Gain)
    ensures Follows(VisitOf(edges, gain), LinksOf(edges))
  {
    forall a: Assignment, x: str, b: Assignment | Visited(edges, gain, a, x, b) ensures Joins(LinksOf(edges), a, x, b) {
      if c :| IsMove(edges, gain, a, b, x, c) { var y := MoveJoins(edges, gain, a, b, x, c); }
    }
  }

  /** Community names never leave the component of the nodes that carry them. */
  lemma {:induction false} NamesStayLocal(edges: seq<Edge>, gain: Gain, trace: seq<Assignment>, i: nat)
    requires IsTrace(edges, gain, trace) && i < |trace| && forall x :: x in trace[0] ==> trace[0][x] == x
    ensures Local(LinksOf(edges), trace[i])
  {
    if i == 0 {
      StartLocal(LinksOf(edges), trace[0]);
    } else {
      NamesStayLocal(edges, gain, trace, i - 1);
      assert MovesAt(edges, gain, trace, i - 1);
      var x, c :| IsMove(edges, gain, trace[i - 1], trace[i], x, c);
      var y := MoveJoins(edges, gain, trace[i - 1], trace[i], x, c);
      JoinStaysLocal(LinksOf(edges), trace[i - 1], x, y, trace[i]);
    }
  }

  /** With positive total weight a run ends no worse than the singletons, and no assignment occurred twice. */
  lemma EndsWell(edges: seq<Edge>, nodes: seq<str>, resolution: real, m: real, limit: nat, passes: seq<seq<Assignment>>, trace: seq<Assignment>, final: Assignment)
    requires NoDuplicates(nodes) && (forall x :: x in nodes <==> x in Nodes(edges)) && m > 0.0
    requires Ends(edges, nodes, GainOf(resolution, m), limit, passes, trace, final)
    ensures var o := ObjectiveOf(resolution, m);
      NeverTwice(trace) && Covers(final, edges) && Quality(edges, nodes, o, Singletons(Nodes(edges))) <= Quality(edges, nodes, o, final)
  {
    SingletonsNamed(edges, nodes);
    ModularityCoupled(resolution, m);
    RunImproves(edges, nodes, ObjectiveOf(resolution, m), trace);
    TraceNamed(edges, nodes, GainOf(resolution, m), trace, |trace| - 1);
  }

  /** With negative total weight it ends worse than the singletons, unless nothing moved. */
  lemma EndsWorse(edges: seq<Edge>, nodes: seq<str>, resolution: real, m: real, limit: nat, passes: seq<seq<Assignment>>, trace: seq<Assignment>, final: Assignment)
    requires NoDuplicates(nodes) && (forall x :: x in nodes <==> x in Nodes(edges)) && m < 0.0
    requires Ends(edges, nodes, GainOf(resolution, m), limit, passes, trace, final)
    ensures var o, start := ObjectiveOf(resolution, m), Singletons(Nodes(edges));
      Covers(final, edges) && Covers(start, edges) && (final != start ==> Quality(edges, nodes, o, final) < Quality(edges, nodes, o, start))
  {
    SingletonsNamed(edges, nodes);
    ModularityCoupled(resolution, m);
    RunWorsens(edges, nodes, ObjectiveOf(resolution, m), trace);
    TraceNamed(edges, nodes, GainOf(resolution, m), trace, |trace| - 1);
  }

  /** Communities of a weighted edge list: the groups of a run's final assignment, of the singletons when the total weight is zero. */
  ghost predicate Detected(edges: seq<Edge>, limit: nat, resolution: real, nodes: seq<str>, passes: seq<seq<Assignment>>, trace: seq<Assignment>, final: Assignment) {
    var m := TotalWeight(edges);
    && Increasing(nodes) && NoDuplicates(nodes) && (forall x :: x in nodes <==> x in Nodes(edges))
    && if m == 0.0 then final == Singletons(Nodes(edges)) else Ends(edges, nodes, GainOf(resolution, m), limit, passes, trace, final)
  }

  method Detect(edges: seq<Edge>, maxIterations: nat, resolution: real) returns (groups: map<str, seq<str>>)
    ensures exists nodes, passes, trace, final :: Detected(edges, maxIterations, resolution, nodes, passes, trace, final) && Groups(groups, final)
  {
    var all, adj, degree := BuildAdjacency(edges);
    var m := HalfDegreeSum(edges, adj, degree);
    var sorted := SortedNames(all);
    if m == 0.0 {
      var alone: Assignment := map x | x in all :: x;
      groups := GroupsFromAssignment(alone);
      assert alone == Singletons(Nodes(edges));
      assert Detected(edges, maxIterations, resolution, sorted, [], [], alone);
    } else {
      var a;
      ghost var trace, passes;
      a, trace, passes := LocalMoves(edges, sorted, adj, degree, GainOf(resolution, m), maxIterations);
      groups := GroupsFromAssignment(a);
      assert Detected(edges, maxIterations, resolution, sorted, passes, trace, a);
    }
  }

  lemma SingletonsNamed(edges: seq<Edge>, nodes: seq<str>)
    requires forall x :: x in nodes <==> x in Nodes(edges)
    ensures Named(Singletons(Nodes(edges)), nodes) && Covers(Singletons(Nodes(edges)), edges)
  {
    SingletonsCover(edges);
    forall x ensures HomeNamed(Singletons(Nodes(edges)), nodes, x) {}
  }

  lemma SingletonsCover(edges: seq<Edge>)
    ensures Covers(Singletons(Nodes(edges)), edges)
  {
  }

  lemma SingletonSigma(edges: seq<Edge>, s: set<str>, c: str)
    requires c in s
    ensures Sigma(edges, Singletons(s), c) == Degree(edges, c)
  {
    assert Members(Singletons(s), c) == {c};
  }

  lemma StartTracked(edges: seq<Edge>, nodes: seq<str>, adj: map<str, seq<Neighbour>>, degree: map<str, real>, a: Assignment, sigma: map<str, real>)
    requires Built(edges, adj, degree) && (forall x :: x in nodes <==> x in Nodes(edges)) && a == Singletons(Nodes(edges))
    requires sigma == map x | x in nodes :: if x in degree then degree[x] else 0.0
    ensures Tracks(edges, nodes, a, sigma)
  {
    SingletonsCover(edges);
    forall x ensures HomeNamed(a, nodes, x) {}
    forall c | c in sigma ensures sigma[c] == Sigma(edges, a, c) {
      SingletonSigma(edges, Nodes(edges), c);
      assert BuiltAt(edges, adj, degree, c);
      if c !in degree { NoAdjacencyNoDegree(edges, c); }
    }
  }

  /** Every node in its own community, whose total is the node's degree. */
  method Start(ghost edges: seq<Edge>, nodes: seq<str>, ghost adj: map<str, seq<Neighbour>>, degree: map<str, real>)
    returns (a: Assignment, sigma: map<str, real>)
    requires Built(edges, adj, degree) && forall x :: x in nodes <==> x in Nodes(edges)
    ensures a == Singletons(Nodes(edges)) && Tracks(edges, nodes, a, sigma)
  {
    a := map x | x in nodes :: x;
    sigma := map x | x in nodes :: if x in degree then degree[x] else 0.0;
    assert a == Singletons(Nodes(edges));
    StartTracked(edges, nodes, adj, degree, a, sigma);
  }

  /** Passes until none moves a node or they run out; the option `min_improvement` plays no part in stopping. */
  method LocalMoves(ghost edges: seq<Edge>, nodes: seq<str>, adj: map<str, seq<Neighbour>>, degree: map<str, real>, gain: Gain, maxIterations: nat)
    returns (a: Assignment, ghost trace: seq<Assignment>, ghost passes: seq<seq<Assignment>>)
    requires Built(edges, adj, degree) && NoDuplicates(nodes) && forall x :: x in nodes <==> x in Nodes(edges)
    ensures Ends(edges, nodes, gain, maxIterations, passes, trace, a)
  {
    var sigma;
    a, sigma := Start(edges, nodes, adj, degree);
    ghost var start := a;
    trace, passes := [a], [];
    for i := 0 to maxIterations
      invariant Progress(edges, nodes, gain, a, sigma, trace) && trace[0] == start
      invariant |passes| == i && Loud(VisitOf(edges, gain), nodes, start, passes, a)
    {
      var anyMoved;
      ghost var steps, before;
      before := a;
      a, sigma, anyMoved, trace, steps := Pass(edges, nodes, adj, degree, gain, a, sigma, trace);
      PassNext(VisitOf(edges, gain), nodes, start, passes, before, steps, a, maxIterations);
      passes := passes + [steps];
      if !anyMoved {
        QuietSettled(edges, nodes, gain, steps);
        return;
      }
    }
    LimitReached(VisitOf(edges, gain), nodes, start, passes, a, maxIterations);
  }
}
