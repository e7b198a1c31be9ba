/** Louvain on stars whose rays weigh the same (crates/graph/src/community.rs). */
module Stars {
  import opened Bytes
  import opened Sweeps
  import opened GraphPaths
  import opened Representatives
  import opened Loyalty
  import opened Louvain
  import opened LouvainRun

  /** `y` is the only neighbour of `x`. */
  ghost predicate Ray(links: Links, x: str, y: str) {
    Neighbours(links, x, y) && forall z :: Neighbours(links, x, z) ==> z == y
  }

  /** Every edge has an end with no other neighbour. */
  ghost predicate Centred(links: Links) {
    forall x, y :: Neighbours(links, x, y) ==> Ray(links, x, y) || Ray(links, y, x)
  }

  /** The rays of one centre have the same weight, and none is negative. */
  ghost predicate Even(edges: seq<Edge>) {
    && (forall e :: e in edges ==> e.2 >= 0.0)
    && forall x, u, w :: Ray(LinksOf(edges), u, x) && Ray(LinksOf(edges), w, x) ==> Degree(edges, u) == Degree(edges, w)
  }

  // -------------------------------------------------------------------------
  // Weights
  // -------------------------------------------------------------------------

  lemma {:induction false} VolumeNonNegative(edges: seq<Edge>, s: set<str>)
    requires forall e :: e in edges ==> e.2 >= 0.0
    ensures Volume(edges, s) >= 0.0
  {
    if edges != [] {
      assert edges[|edges| - 1] in edges;
      VolumeNonNegative(edges[..|edges| - 1], s);
    }
  }

  lemma {:induction false} DegreeAtMostTotal(edges: seq<Edge>, x: str)
    requires forall e :: e in edges ==> e.2 >= 0.0
    ensures 0.0 <= Degree(edges, x) <= TotalWeight(edges)
  {
    if edges != [] {
      assert edges[|edges| - 1] in edges;
      DegreeAtMostTotal(edges[..|edges| - 1], x);
    }
  }

  /** Nodes of `s` reach nothing but `x`. */
  ghost predicate OnlyReach(edges: seq<Edge>, s: set<str>, x: str) {
    x !in s && forall e :: e in edges && e.0 != e.1 ==> (e.0 in s ==> e.1 == x) && (e.1 in s ==> e.0 == x)
  }

  /** What leads from a centre into a community of rays is the degree sum of the rays. */
  lemma {:induction false} TowardRays(edges: seq<Edge>, a: Assignment, x: str, c: str, s: set<str>)
    requires Covers(a, edges) && OnlyReach(edges, s, x) && forall z :: z in a && z != x ==> (z in s <==> a[z] == c)
    ensures Toward(edges, a, x, c) == Volume(edges, s)
  {
    if edges != [] {
      assert edges[|edges| - 1] in edges;
      TowardRays(edges[..|edges| - 1], a, x, c, s);
    }
  }

  lemma RaysOnlyReach(edges: seq<Edge>, s: set<str>, x: str)
    requires x !in s && forall u :: u in s ==> Ray(LinksOf(edges), u, x)
    ensures OnlyReach(edges, s, x)
  {
    forall e | e in edges && e.0 != e.1 ensures (e.0 in s ==> e.1 == x) && (e.1 in s ==> e.0 == x) {
      assert (e.0, e.1) in LinksOf(edges);
      assert Neighbours(LinksOf(edges), e.0, e.1) && Neighbours(LinksOf(edges), e.1, e.0);
    }
  }

  /** With at most twice the usual resolution a community's own weight speaks for it. */
  lemma MoreIsBetter(g: real, m: real, k: real, less: real, more: real)
    requires m > 0.0 && 0.0 <= k <= m && g <= 2.0 && less <= more
    ensures GainOf(g, m)(less, less, k) <= GainOf(g, m)(more, more, k)
  {
    var d := more - less;
    ProductOrder(d, k, m);
    ProductOrder(d * k, g, 2.0);
    assert g * d * k == d * k * g;
    QuotientAtMost(g * d * k, d, m);
    assert g * more * k == g * less * k + g * d * k;
    QuotientMoves(2.0 * m, g * less * k, g * d * k);
  }

  /** A node of degree `k` gains more from a community the more it weighs, when all of its weight leads to the node. */
  ghost predicate Prefers(gain: Gain, k: real) {
    forall less, more {:trigger PrefersMore(gain, k, less, more)} :: PrefersMore(gain, k, less, more)
  }

  ghost predicate PrefersMore(gain: Gain, k: real, less: real, more: real) {
    less <= more ==> gain(less, less, k) <= gain(more, more, k)
  }

  lemma UsualPrefers(g: real, m: real, k: real)
    requires m > 0.0 && 0.0 <= k <= m && g <= 2.0
    ensures Prefers(GainOf(g, m), k)
  {
    forall less, more ensures PrefersMore(GainOf(g, m), k, less, more) {
      if less <= more { MoreIsBetter(g, m, k, less, more); }
    }
  }

  lemma ProductOrder(d: real, p: real, q: real)
    requires d >= 0.0 && p <= q
    ensures d * p <= d * q
  {
    assert d * (q - p) >= 0.0;
  }

  lemma QuotientAtMost(n: real, d: real, m: real)
    requires m > 0.0 && n <= 2.0 * d * m
    ensures n / (2.0 * m) <= d
  {
    var q := n / (2.0 * m);
    assert q * (2.0 * m) == n;
    if q > d { ProductGrows(d, q, 2.0 * m); }
  }

  lemma ProductGrows(p: real, q: real, d: real)
    requires d > 0.0 && p < q
    ensures p * d < q * d
  {
    assert (q - p) * d > 0.0;
  }

  // -------------------------------------------------------------------------
  // Communities around a centre
  // -------------------------------------------------------------------------

  /** What no link touches is connected to nothing else. */
  lemma Isolated(links: Links, y: str, u: str)
    requires Connected(links, y, u) && forall l :: l in links && l.0 != l.1 ==> l.0 != y && l.1 != y
    ensures u == y
  {
    var p :| PathFromTo(Undirected(links), p, y, u);
    ConnectedAlong(links, p, v => v == y);
  }

  lemma LinkJoins(links: Links, l: (str, str))
    requires l in links && l.0 != l.1
    ensures Neighbours(links, l.0, l.1) && Neighbours(links, l.1, l.0)
  {
  }

  /** A ray outside the centre's community is alone in its own. */
  lemma RayAlone(links: Links, a: Assignment, x: str, y: str)
    requires Tight(links, a) && x in a && y in a && Ray(links, y, x) && a[y] != a[x]
    ensures Members(a, a[y]) == {y}
  {
    forall u | u in a && a[u] == a[y] ensures u == y {
      MembersConnected(links, a, y, u);
      forall l | l in Inside(links, a, a[y]) && l.0 != l.1 ensures l.0 != y && l.1 != y {
        LinkJoins(links, l);
      }
      Isolated(Inside(links, a, a[y]), y, u);
    }
  }

  /** Around a centre with two neighbours there are only rays. */
  lemma CentreReaches(links: Links, x: str, y: str, h: str, u: str)
    requires Centred(links) && Neighbours(links, x, y) && Neighbours(links, x, h) && y != h && Connected(links, x, u)
    ensures u == x || Ray(links, u, x)
  {
    var near: str -> bool := v => v == x || Neighbours(links, x, v);
    forall l | l in links ensures near(l.0) == near(l.1) {
      if l.0 != l.1 {
        assert Neighbours(links, l.0, l.1) && Neighbours(links, l.1, l.0);
        if Neighbours(links, x, l.0) { NotARay(links, x, y, h, l.0); }
        if Neighbours(links, x, l.1) { NotARay(links, x, y, h, l.1); }
      }
    }
    var p :| PathFromTo(Undirected(links), p, x, u);
    ConnectedAlong(links, p, near);
    if u != x { NotARay(links, x, y, h, u); }
  }

  lemma NotARay(links: Links, x: str, y: str, h: str, u: str)
    requires Centred(links) && Neighbours(links, x, y) && Neighbours(links, x, h) && y != h && Neighbours(links, x, u)
    ensures Ray(links, u, x)
  {
  }

  /** The rays in the centre's own community. */
  ghost function OwnRays(a: Assignment, x: str): set<str>
    requires x in a
  {
    Members(a, a[x]) - {x}
  }

  lemma OwnAreRays(links: Links, a: Assignment, x: str, y: str, h: str)
    requires Centred(links) && Tight(links, a) && x in a && Neighbours(links, x, y) && Neighbours(links, x, h) && y != h
    ensures forall u :: u in OwnRays(a, x) ==> Ray(links, u, x)
  {
    forall u | u in OwnRays(a, x) ensures Ray(links, u, x) {
      MembersConnected(links, a, x, u);
      ConnectedMore(Inside(links, a, a[x]), links, x, u);
      CentreReaches(links, x, y, h, u);
    }
  }

  /** A node at home gains nothing by joining the community of another neighbour. */
  lemma NoGain(edges: seq<Edge>, a: Assignment, gain: Gain, x: str, y: str, h: str)
    requires Centred(LinksOf(edges)) && Even(edges) && Tight(LinksOf(edges), a) && Covers(a, edges) && Prefers(gain, Degree(edges, x))
    requires x in a && y in a && Neighbours(LinksOf(edges), x, y) && a[y] != a[x] && HomeBy(LinksOf(edges), a, x, h)
    ensures Net(edges, a, gain, x, a[y]) <= 0.0
  {
    NotARay(LinksOf(edges), x, y, h, y);
    NotARay(LinksOf(edges), x, y, h, h);
    RayAlone(LinksOf(edges), a, x, y);
    OwnAreRays(LinksOf(edges), a, x, y, h);
    SameDegree(edges, x, y, h);
    RaysWeigh(edges, a, gain, x, y, h);
  }

  lemma SameDegree(edges: seq<Edge>, x: str, y: str, h: str)
    requires Even(edges) && Ray(LinksOf(edges), y, x) && Ray(LinksOf(edges), h, x)
    ensures Degree(edges, y) == Degree(edges, h)
  {
  }

  lemma RaysWeigh(edges: seq<Edge>, a: Assignment, gain: Gain, x: str, y: str, h: str)
    requires Covers(a, edges) && (forall e :: e in edges ==> e.2 >= 0.0) && Prefers(gain, Degree(edges, x))
    requires x in a && y in a && x != y && Members(a, a[y]) == {y} && Ray(LinksOf(edges), y, x)
    requires h in OwnRays(a, x) && (forall u :: u in OwnRays(a, x) ==> Ray(LinksOf(edges), u, x)) && Degree(edges, y) == Degree(edges, h)
    ensures Net(edges, a, gain, x, a[y]) <= 0.0
  {
    OtherWeighs(edges, a, x, y);
    OwnWeighs(edges, a, x, h);
    assert PrefersMore(gain, Degree(edges, x), Degree(edges, y), Volume(edges, OwnRays(a, x)));
  }

  /** Another ray's community weighs what the ray does, all of it towards the centre. */
  lemma OtherWeighs(edges: seq<Edge>, a: Assignment, x: str, y: str)
    requires Covers(a, edges) && y in a && x != y && Ray(LinksOf(edges), y, x) && Members(a, a[y]) == {y}
    ensures Toward(edges, a, x, a[y]) == Degree(edges, y) && Sigma(edges, a, a[y]) == Degree(edges, y)
  {
    RaysOnlyReach(edges, {y}, x);
    forall z | z in a && z != x ensures z in {y} <==> a[z] == a[y] { assert z in Members(a, a[y]) <==> a[z] == a[y]; }
    TowardRays(edges, a, x, a[y], {y});
  }

  /** The centre's own community without the centre: its rays, all of their weight towards the centre. */
  lemma OwnWeighs(edges: seq<Edge>, a: Assignment, x: str, h: str)
    requires Covers(a, edges) && (forall e :: e in edges ==> e.2 >= 0.0) && x in a && h in OwnRays(a, x)
    requires forall u :: u in OwnRays(a, x) ==> Ray(LinksOf(edges), u, x)
    ensures var v := Volume(edges, OwnRays(a, x));
      Toward(edges, a, x, a[x]) == v && Sigma(edges, a, a[x]) == v + Degree(edges, x) && v >= Degree(edges, h)
  {
    var own := OwnRays(a, x);
    RaysOnlyReach(edges, own, x);
    TowardRays(edges, a, x, a[x], own);
    assert Members(a, a[x]) == own + {x};
    VolumeSplit(edges, own, x);
    assert own == own - {h} + {h};
    VolumeSplit(edges, own - {h}, h);
    VolumeNonNegative(edges, own - {h});
  }

  lemma StarsAreLoyal(edges: seq<Edge>, g: real)
    requires Centred(LinksOf(edges)) && Even(edges) && g <= 2.0 && TotalWeight(edges) != 0.0
    ensures Loyal(VisitOf(edges, GainOf(g, TotalWeight(edges))), LinksOf(edges))
  {
    var links, m := LinksOf(edges), TotalWeight(edges);
    DegreeAtMostTotal(edges, []);
    forall a: Assignment, x: str, b: Assignment | Visited(edges, GainOf(g, m), a, x, b) && Tight(links, a) && x in a && AtHome(links, a, x) ensures b == a {
      if c :| IsMove(edges, GainOf(g, m), a, b, x, c) {
        var y := MoveJoins(edges, GainOf(g, m), a, b, x, c);
        var h :| HomeBy(links, a, x, h);
        assert a[y] == c by { assert b[x] == c; }
        DegreeAtMostTotal(edges, x);
        UsualPrefers(g, m, Degree(edges, x));
        NoGain(edges, a, GainOf(g, m), x, y, h);
      }
    }
  }
}
