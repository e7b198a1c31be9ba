/** Connected components by union-find with path halving and union by rank (crates/graph/src/components.rs). */
module Components {
  import opened Bytes
  import opened GraphPaths
  import opened Grouping
  import opened Interning

  type u8 = b: int | 0 <= b < 256

  // -------------------------------------------------------------------------
  // The forest
  // -------------------------------------------------------------------------

  /** Parent pointers climb in rank to the root each node is said to have. */
  ghost predicate Forest(parent: seq<nat>, rank: seq<u8>, roots: seq<nat>) {
    && |parent| == |rank| == |roots|
    && forall i :: 0 <= i < |parent| ==> Rooted(parent, rank, roots, i)
  }

  ghost predicate Rooted(parent: seq<nat>, rank: seq<u8>, roots: seq<nat>, i: nat)
    requires |parent| == |rank| == |roots| && i < |parent|
  {
    && parent[i] < |parent| && roots[i] < |roots|
    && roots[parent[i]] == roots[i] && parent[roots[i]] == roots[i]
    && if parent[i] == i then roots[i] == i else rank[i] < rank[parent[i]]
  }

  ghost function Class(roots: seq<nat>, r: nat): set<nat> {
    set i | 0 <= i < |roots| && roots[i] == r
  }

  function Pow2(k: nat): (p: nat)
    ensures p >= 1
  {
    if k == 0 then 1 else 2 * Pow2(k - 1)
  }

  /** A root of rank `k` stands for at least `2^k` nodes. */
  ghost predicate Heavy(rank: seq<u8>, roots: seq<nat>) {
    |rank| == |roots| && forall r :: 0 <= r < |roots| && roots[r] == r ==> Pow2(rank[r]) <= |Class(roots, r)|
  }

  /** Representative of `x`, with path halving; no root changes. */
  method Find(parent: array<nat>, start: nat, ghost rank: seq<u8>, ghost roots: seq<nat>) returns (x: nat)
    requires start < parent.Length && Forest(parent[..], rank, roots)
    modifies parent
    ensures Forest(parent[..], rank, roots) && x == roots[start] && x < parent.Length
  {
    x := start;
    assert Rooted(parent[..], rank, roots, x);
    while parent[x] != x
      invariant x < parent.Length && Forest(parent[..], rank, roots) && roots[x] == roots[start]
      decreases 256 - (rank[x] as int)
    {
      ghost var before := parent[..];
      assert Rooted(before, rank, roots, x) && Rooted(before, rank, roots, parent[x]);
      HalvingKeepsForest(before, rank, roots, x);
      parent[x] := parent[parent[x]];
      assert parent[..] == before[x := before[before[x]]];
      x := parent[x];
      assert Rooted(parent[..], rank, roots, x);
    }
    assert Rooted(parent[..], rank, roots, x);
  }

  lemma HalvingKeepsForest(parent: seq<nat>, rank: seq<u8>, roots: seq<nat>, x: nat)
    requires Forest(parent, rank, roots) && x < |parent| && parent[x] != x
    ensures parent[x] < |parent| && Forest(parent[x := parent[parent[x]]], rank, roots)
  {
    assert Rooted(parent, rank, roots, x) && Rooted(parent, rank, roots, parent[x]);
    var shorter := parent[x := parent[parent[x]]];
    forall i | 0 <= i < |parent| ensures Rooted(shorter, rank, roots, i) {
      assert Rooted(parent, rank, roots, i) && Rooted(parent, rank, roots, roots[i]);
      if i == x { assert Rooted(parent, rank, roots, parent[parent[x]]); }
    }
  }

  // -------------------------------------------------------------------------
  // Union
  // -------------------------------------------------------------------------

  /** The roots once the class of `loser` has joined that of `winner`. */
  ghost function Merged(roots: seq<nat>, loser: nat, winner: nat): (r: seq<nat>)
    ensures |r| == |roots|
    ensures forall i :: 0 <= i < |roots| ==> r[i] == if roots[i] == loser then winner else roots[i]
  {
    seq(|roots|, i requires 0 <= i < |roots| => if roots[i] == loser then winner else roots[i])
  }

  lemma LinkKeepsForest(parent: seq<nat>, rank: seq<u8>, rank': seq<u8>, roots: seq<nat>, loser: nat, winner: nat)
    requires Forest(parent, rank, roots) && loser < |parent| && winner < |parent| && loser != winner
    requires roots[loser] == loser && roots[winner] == winner && |rank'| == |rank|
    requires rank' == rank || rank' == rank[winner := rank'[winner]]
    requires rank'[winner] >= rank[winner] && rank[loser] < rank'[winner]
    ensures Forest(parent[loser := winner], rank', Merged(roots, loser, winner))
  {
    var parent', roots' := parent[loser := winner], Merged(roots, loser, winner);
    forall i | 0 <= i < |parent| ensures Rooted(parent', rank', roots', i) {
      assert Rooted(parent, rank, roots, i) && Rooted(parent, rank, roots, winner) && Rooted(parent, rank, roots, loser);
      assert Rooted(parent, rank, roots, roots[i]);
    }
  }

  lemma ClassesDisjoint(roots: seq<nat>, a: nat, b: nat)
    requires a != b
    ensures |Class(roots, a)| + |Class(roots, b)| <= |roots|
  {
    Below(|roots|);
    assert Class(roots, a) + Class(roots, b) <= Indices(|roots|) && Class(roots, a) !! Class(roots, b);
    SubsetSize(Class(roots, a) + Class(roots, b), Indices(|roots|));
  }

  ghost function Indices(n: nat): set<nat> {
    if n == 0 then {} else Indices(n - 1) + {n - 1}
  }

  lemma {:induction false} Below(n: nat)
    ensures |Indices(n)| == n && forall i :: i in Indices(n) <==> 0 <= i < n
  {
    if n > 0 { Below(n - 1); }
  }

  lemma SubsetSize<T>(a: set<T>, b: set<T>)
    requires a <= b
    ensures |a| <= |b|
  {
    assert b == a + (b - a);
  }

  lemma ClassMerged(roots: seq<nat>, loser: nat, winner: nat, r: nat)
    requires loser != winner
    ensures r == winner ==> |Class(Merged(roots, loser, winner), r)| == |Class(roots, winner)| + |Class(roots, loser)|
    ensures r != winner && r != loser ==> Class(Merged(roots, loser, winner), r) == Class(roots, r)
  {
    if r == winner {
      assert Class(Merged(roots, loser, winner), r) == Class(roots, winner) + Class(roots, loser);
      assert Class(roots, winner) !! Class(roots, loser);
    }
  }

  lemma LinkKeepsHeavy(rank: seq<u8>, rank': seq<u8>, roots: seq<nat>, loser: nat, winner: nat)
    requires Heavy(rank, roots) && loser < |roots| && winner < |roots| && loser != winner
    requires roots[loser] == loser && roots[winner] == winner
    requires rank' == rank || (rank[loser] == rank[winner] < 255 && rank' == rank[winner := rank[winner] + 1])
    ensures Heavy(rank', Merged(roots, loser, winner))
  {
    var roots' := Merged(roots, loser, winner);
    forall r | 0 <= r < |roots'| && roots'[r] == r ensures Pow2(rank'[r]) <= |Class(roots', r)| {
      ClassMerged(roots, loser, winner, r);
    }
  }

  lemma {:induction false} Pow2Above(k: nat, b: nat)
    requires Pow2(k) <= Pow2(b)
    ensures k <= b
  {
    if k > 0 {
      if b == 0 {
      } else {
        Pow2Above(k - 1, b - 1);
      }
    }
  }

  /** The rank of a root that ties with another stays far below the limit of its byte. */
  lemma RankFits(rank: seq<u8>, roots: seq<nat>, a: nat, b: nat)
    requires Heavy(rank, roots) && a < |roots| && b < |roots| && a != b && roots[a] == a && roots[b] == b && rank[a] == rank[b]
    requires |roots| <= Pow2(64)
    ensures rank[a] < 64
  {
    ClassesDisjoint(roots, a, b);
    var k: nat := rank[a];
    assert Pow2(k + 1) <= Pow2(64);
    Pow2Above(k + 1, 64);
  }

  /** Union by rank: afterwards `a` and `b` have one root, and no other classes change. */
  method Union(parent: array<nat>, rank: array<u8>, a: nat, b: nat, ghost roots: seq<nat>) returns (ghost roots': seq<nat>)
    requires a < parent.Length && b < parent.Length && parent.Length <= Pow2(64)
    requires Forest(parent[..], rank[..], roots) && Heavy(rank[..], roots)
    modifies parent, rank
    ensures Forest(parent[..], rank[..], roots') && Heavy(rank[..], roots')
    ensures roots' == Merged(roots, roots[a], roots[b]) || roots' == Merged(roots, roots[b], roots[a])
  {
    var ra := Find(parent, a, rank[..], roots);
    var rb := Find(parent, b, rank[..], roots);
    ghost var p, r := parent[..], rank[..];
    assert Rooted(p, r, roots, a) && Rooted(p, r, roots, b) && Rooted(p, r, roots, ra) && Rooted(p, r, roots, rb);
    roots' := roots;
    if ra == rb {
      assert Merged(roots, ra, rb) == roots;
      return;
    }
    if rank[ra] < rank[rb] {
      LinkKeepsForest(p, r, r, roots, ra, rb);
      LinkKeepsHeavy(r, r, roots, ra, rb);
      parent[ra] := rb;
      roots' := Merged(roots, ra, rb);
      assert parent[..] == p[ra := rb];
    } else if rank[ra] > rank[rb] {
      LinkKeepsForest(p, r, r, roots, rb, ra);
      LinkKeepsHeavy(r, r, roots, rb, ra);
      parent[rb] := ra;
      roots' := Merged(roots, rb, ra);
      assert parent[..] == p[rb := ra];
    } else {
      RankFits(r, roots, ra, rb);
      LinkKeepsForest(p, r, r[ra := r[ra] + 1], roots, rb, ra);
      LinkKeepsHeavy(r, r[ra := r[ra] + 1], roots, rb, ra);
      parent[rb] := ra;
      rank[ra] := rank[ra] + 1;
      roots' := Merged(roots, rb, ra);
      assert parent[..] == p[rb := ra] && rank[..] == r[ra := r[ra] + 1];
    }
  }

  // -------------------------------------------------------------------------
  // Components
  // -------------------------------------------------------------------------

  type Edge = (str, str)

  ghost function LinksOf(edges: seq<Edge>): Links {
    set e | e in edges
  }

  /** Every node is connected to its root, and the ends of the first `k` edges share theirs. */
  ghost predicate Sound(edges: seq<Edge>, labels: seq<str>, index: map<str, nat>, roots: seq<nat>, k: nat)
    requires k <= |edges|
  {
    && |roots| == |labels| && (forall i :: 0 <= i < |labels| ==> SoundAt(edges, labels, roots, i))
    && (forall e :: e in edges ==> e.0 in index && e.1 in index && index[e.0] < |roots| && index[e.1] < |roots|)
    && (forall j :: 0 <= j < k ==> roots[index[edges[j].0]] == roots[index[edges[j].1]])
  }

  ghost predicate SoundAt(edges: seq<Edge>, labels: seq<str>, roots: seq<nat>, i: nat)
    requires |roots| == |labels| && i < |labels|
  {
    roots[i] < |labels| && roots[roots[i]] == roots[i] && Connected(LinksOf(edges), labels[i], labels[roots[i]])
  }

  lemma MergeKeepsSound(edges: seq<Edge>, labels: seq<str>, index: map<str, nat>, roots: seq<nat>, k: nat, loser: nat, winner: nat)
    requires k < |edges| && Sound(edges, labels, index, roots, k) && Interned(index, labels)
    requires var a, b := roots[index[edges[k].0]], roots[index[edges[k].1]]; (loser == a && winner == b) || (loser == b && winner == a)
    ensures Sound(edges, labels, index, Merged(roots, loser, winner), k + 1)
  {
    var links, roots', a, b := LinksOf(edges), Merged(roots, loser, winner), index[edges[k].0], index[edges[k].1];
    assert edges[k] in edges && SoundAt(edges, labels, roots, a) && SoundAt(edges, labels, roots, b);
    RootsConnected(edges, labels, roots, a, b);
    forall i | 0 <= i < |labels| ensures SoundAt(edges, labels, roots', i) {
      assert SoundAt(edges, labels, roots, i);
      if roots[i] == loser { ConnectedTransitive(links, labels[i], labels[loser], labels[winner]); }
    }
  }

  lemma RootsConnected(edges: seq<Edge>, labels: seq<str>, roots: seq<nat>, a: nat, b: nat)
    requires a < |labels| == |roots| && b < |labels| && SoundAt(edges, labels, roots, a) && SoundAt(edges, labels, roots, b)
    requires (labels[a], labels[b]) in LinksOf(edges)
    ensures Connected(LinksOf(edges), labels[roots[a]], labels[roots[b]]) && Connected(LinksOf(edges), labels[roots[b]], labels[roots[a]])
  {
    var links, x, y := LinksOf(edges), labels[roots[a]], labels[roots[b]];
    ConnectedLink(links, labels[a], labels[b]);
    ConnectedTransitive(links, labels[a], labels[b], y);
    ConnectedSymmetric(links, labels[a], x);
    ConnectedTransitive(links, x, labels[a], y);
    ConnectedSymmetric(links, x, y);
  }

  /** Two nodes have one root exactly when they are connected. */
  lemma RootsAreComponents(edges: seq<Edge>, labels: seq<str>, index: map<str, nat>, roots: seq<nat>, i: nat, j: nat)
    requires Sound(edges, labels, index, roots, |edges|) && Interned(index, labels) && i < |labels| && j < |labels|
    ensures roots[i] == roots[j] <==> Connected(LinksOf(edges), labels[i], labels[j])
  {
    var links := LinksOf(edges);
    assert SoundAt(edges, labels, roots, i) && SoundAt(edges, labels, roots, j);
    if roots[i] == roots[j] {
      ConnectedSymmetric(links, labels[j], labels[roots[j]]);
      ConnectedTransitive(links, labels[i], labels[roots[i]], labels[j]);
    }
    if Connected(links, labels[i], labels[j]) {
      var p :| PathFromTo(Undirected(links), p, labels[i], labels[j]);
      var f := (x: str) => if x in index && index[x] < |roots| then roots[index[x]] else 0;
      forall l | l in links ensures f(l.0) == f(l.1) {
        var m :| 0 <= m < |edges| && edges[m] == l;
      }
      ConnectedAlong(links, p, f);
    }
  }

  ghost predicate Endpoint(edges: seq<Edge>, x: str) {
    exists k :: 0 <= k < |edges| && (edges[k].0 == x || edges[k].1 == x)
  }

  /** Indices of the endpoints, in order of first sight. */
  method Intern(edges: seq<Edge>) returns (index: map<str, nat>, labels: seq<str>)
    ensures Interned(index, labels) && |labels| <= 2 * |edges|
    ensures forall x :: x in labels <==> Endpoint(edges, x)
  {
    index, labels := map[], [];
    for k := 0 to |edges|
      invariant Interned(index, labels) && |labels| <= 2 * k
      invariant forall x :: x in labels <==> exists j :: 0 <= j < k && (edges[j].0 == x || edges[j].1 == x)
    {
      index, labels := NodeIndex(edges[k].0, index, labels);
      index, labels := NodeIndex(edges[k].1, index, labels);
    }
  }

  /** The label of each node's root. */
  ghost function RootLabels(labels: seq<str>, index: map<str, nat>, roots: seq<nat>): map<str, str>
    requires Interned(index, labels) && |roots| == |labels| && forall i :: 0 <= i < |roots| ==> roots[i] < |labels|
  {
    map x | x in index :: labels[roots[index[x]]]
  }

  /** Unites the ends of every edge. */
  method UniteAll(edges: seq<Edge>, index: map<str, nat>, labels: seq<str>) returns (parent: array<nat>, ghost rank: seq<u8>, ghost roots: seq<nat>)
    requires Interned(index, labels) && |labels| <= Pow2(64) && forall e :: e in edges ==> e.0 in labels && e.1 in labels
    ensures fresh(parent) && Forest(parent[..], rank, roots) && Sound(edges, labels, index, roots, |edges|)
  {
    var n := |labels|;
    parent := new nat[n](i => i);
    var ranks := new u8[n](_ => 0);
    roots := parent[..];
    StartSound(edges, labels, index, roots);
    StartHeavy(ranks[..], roots);
    for k := 0 to |edges|
      invariant Forest(parent[..], ranks[..], roots) && Heavy(ranks[..], roots) && Sound(edges, labels, index, roots, k)
    {
      var (src, dst) := edges[k];
      assert edges[k] in edges;
      ghost var before := roots;
      roots := Union(parent, ranks, index[src], index[dst], roots);
      MergeSound(edges, labels, index, before, roots, k);
    }
    rank := ranks[..];
  }

  lemma MergeSound(edges: seq<Edge>, labels: seq<str>, index: map<str, nat>, roots: seq<nat>, roots': seq<nat>, k: nat)
    requires k < |edges| && Sound(edges, labels, index, roots, k) && Interned(index, labels)
    requires edges[k] in edges
    requires var a, b := roots[index[edges[k].0]], roots[index[edges[k].1]]; roots' == Merged(roots, a, b) || roots' == Merged(roots, b, a)
    ensures Sound(edges, labels, index, roots', k + 1)
  {
    var a, b := roots[index[edges[k].0]], roots[index[edges[k].1]];
    if roots' == Merged(roots, a, b) {
      MergeKeepsSound(edges, labels, index, roots, k, a, b);
    } else {
      MergeKeepsSound(edges, labels, index, roots, k, b, a);
    }
  }

  lemma StartSound(edges: seq<Edge>, labels: seq<str>, index: map<str, nat>, roots: seq<nat>)
    requires Interned(index, labels) && |roots| == |labels| && forall i :: 0 <= i < |roots| ==> roots[i] == i
    requires forall e :: e in edges ==> e.0 in labels && e.1 in labels
    ensures Sound(edges, labels, index, roots, 0)
  {
    forall i | 0 <= i < |labels| ensures SoundAt(edges, labels, roots, i) { ConnectedReflexive(LinksOf(edges), labels[i]); }
  }

  lemma StartHeavy(rank: seq<u8>, roots: seq<nat>)
    requires |rank| == |roots| && forall i :: 0 <= i < |roots| ==> roots[i] == i && rank[i] == 0
    ensures Heavy(rank, roots)
  {
    forall r | 0 <= r < |roots| ensures Pow2(rank[r]) <= |Class(roots, r)| {
      assert Class(roots, r) == {r};
    }
  }

  /** Collects every node under the label of its root. */
  method Collect(index: map<str, nat>, labels: seq<str>, parent: array<nat>, ghost rank: seq<u8>, ghost roots: seq<nat>)
    returns (raw: map<str, seq<str>>, ghost a: map<str, str>)
    requires Interned(index, labels) && parent.Length == |labels| && Forest(parent[..], rank, roots)
    modifies parent
    ensures a.Keys == index.Keys && Collected(raw, a, a.Keys)
    ensures forall i :: 0 <= i < |labels| ==> labels[i] in a && roots[i] < |labels| && a[labels[i]] == labels[roots[i]]
  {
    forall i | 0 <= i < |roots| ensures roots[i] < |labels| { assert Rooted(parent[..], rank, roots, i); }
    a := RootLabels(labels, index, roots);
    raw := map[];
    assert Seen(index, 0) == {};
    for i := 0 to |labels|
      invariant Forest(parent[..], rank, roots) && Collected(raw, a, Seen(index, i))
    {
      var root := Find(parent, i, rank, roots);
      var c, x := labels[root], labels[i];
      SeenNext(index, labels, i);
      CollectOne(raw, a, Seen(index, i), x);
      raw := raw[c := (if c in raw then raw[c] else []) + [x]];
    }
    assert Seen(index, |labels|) == a.Keys;
  }

  /** The nodes of the first `i` indices. */
  ghost function Seen(index: map<str, nat>, i: nat): set<str> {
    set x | x in index && index[x] < i
  }

  lemma SeenNext(index: map<str, nat>, labels: seq<str>, i: nat)
    requires Interned(index, labels) && i < |labels|
    ensures Seen(index, i + 1) == Seen(index, i) + {labels[i]} && labels[i] in index && labels[i] !in Seen(index, i)
  {
  }

  ghost predicate Grouped(groups: map<str, seq<str>>, x: str) {
    exists c :: c in groups && x in groups[c]
  }

  /**
   The endpoints are grouped, in order, two in one group exactly when they are
   connected, and each group's name is one of its members.
   */
  ghost predicate AreComponents(edges: seq<Edge>, groups: map<str, seq<str>>) {
    && (forall x :: Grouped(groups, x) <==> Endpoint(edges, x))
    && (forall c :: c in groups ==> Increasing(groups[c]) && c in groups[c])
    && (forall c, x, d, y :: c in groups && x in groups[c] && d in groups && y in groups[d] ==> (c == d <==> Connected(LinksOf(edges), x, y)))
  }

  method ConnectedComponents(edges: seq<Edge>) returns (groups: map<str, seq<str>>)
    requires |edges| <= Pow2(63)
    ensures AreComponents(edges, groups)
  {
    var index, labels := Intern(edges);
    if |labels| == 0 {
      NoEdges(edges, labels);
      return map[];
    }
    forall e | e in edges ensures e.0 in labels && e.1 in labels {
      var k :| 0 <= k < |edges| && edges[k] == e;
      assert Endpoint(edges, e.0) && Endpoint(edges, e.1);
    }
    var parent, rank, roots := UniteAll(edges, index, labels);
    var raw, a := Collect(index, labels, parent, rank, roots);
    groups := SortGroups(raw);
    CollectedAll(raw, groups, a);
    GroupsAreComponents(edges, labels, index, roots, groups, a);
  }

  lemma NoEdges(edges: seq<Edge>, labels: seq<str>)
    requires labels == [] && forall x :: x in labels <==> Endpoint(edges, x)
    ensures AreComponents(edges, map[])
  {
    forall x ensures !Grouped(map[], x) && !Endpoint(edges, x) {}
  }

  lemma GroupsAreComponents(edges: seq<Edge>, labels: seq<str>, index: map<str, nat>, roots: seq<nat>, groups: map<str, seq<str>>, a: map<str, str>)
    requires Sound(edges, labels, index, roots, |edges|) && Interned(index, labels) && Groups(groups, a) && a.Keys == index.Keys
    requires forall i :: 0 <= i < |labels| ==> labels[i] in a && roots[i] < |labels| && a[labels[i]] == labels[roots[i]]
    requires forall x :: x in labels <==> Endpoint(edges, x)
    ensures AreComponents(edges, groups)
  {
    forall x ensures Grouped(groups, x) <==> Endpoint(edges, x) {
      if x in labels { GroupsPartition(groups, a, x); }
    }
    forall c | c in groups ensures c in groups[c] {
      var x :| x in a && a[x] == c;
      var i := index[x];
      assert SoundAt(edges, labels, roots, i);
    }
    forall c, x, d, y | c in groups && x in groups[c] && d in groups && y in groups[d] ensures c == d <==> Connected(LinksOf(edges), x, y) {
      RootsAreComponents(edges, labels, index, roots, index[x], index[y]);
      assert labels[index[x]] == x && labels[index[y]] == y;
    }
  }
}
