/** Louvain local moving (crates/graph/src/community.rs), over exact reals. */
module Louvain {
  import opened Bytes
  import opened Grouping
  import opened Sweeps
  import opened GraphPaths

  type Edge = (str, str, real)

  /** The gain of a community for a node, from its edge weight into it, its total degree and the node's degree. */
  type Gain = (real, real, real) -> real

  /** The program's gain, for resolution `g` and half the total degree `m`. */
  function GainOf(g: real, m: real): Gain
    requires m != 0.0
  {
    (kin, sigma, k) => kin - g * sigma * k / (2.0 * m)
  }

  // -------------------------------------------------------------------------
  // Quantities of the weighted undirected graph; self-loops do not count
  // -------------------------------------------------------------------------

  ghost function Nodes(edges: seq<Edge>): set<str> {
    (set e | e in edges :: e.0) + (set e | e in edges :: e.1)
  }

  ghost function LinksOf(edges: seq<Edge>): Links {
    set e | e in edges :: (e.0, e.1)
  }

  ghost predicate Covers(a: Assignment, edges: seq<Edge>) {
    forall e :: e in edges ==> e.0 in a && e.1 in a
  }

  /** Edge weight counted once per endpoint in `s`: the degree sum of `s`. */
  ghost function Volume(edges: seq<Edge>, s: set<str>): real {
    if edges == [] then 0.0
    else
      var (src, dst, w) := edges[|edges| - 1];
      Volume(edges[..|edges| - 1], s)
        + (if src != dst && src in s then w else 0.0) + (if src != dst && dst in s then w else 0.0)
  }

  ghost function Degree(edges: seq<Edge>, x: str): real {
    Volume(edges, {x})
  }

  ghost function TotalWeight(edges: seq<Edge>): real {
    if edges == [] then 0.0
    else TotalWeight(edges[..|edges| - 1]) + (if edges[|edges| - 1].0 != edges[|edges| - 1].1 then edges[|edges| - 1].2 else 0.0)
  }

  /** Each node alone. */
  ghost function Singletons(s: set<str>): Assignment {
    map x | x in s :: x
  }

  ghost function Members(a: Assignment, c: str): set<str> {
    set x | x in a && a[x] == c
  }

  /** Degree sum of a community. */
  ghost function Sigma(edges: seq<Edge>, a: Assignment, c: str): real {
    Volume(edges, Members(a, c))
  }

  /** Weight of the edges inside communities. */
  ghost function Inner(edges: seq<Edge>, a: Assignment): real
    requires Covers(a, edges)
  {
    if edges == [] then 0.0
    else
      var (src, dst, w) := edges[|edges| - 1];
      assert edges[|edges| - 1] in edges;
      assert Covers(a, edges[..|edges| - 1]);
      Inner(edges[..|edges| - 1], a) + (if src != dst && a[src] == a[dst] then w else 0.0)
  }

  /** Edge weight between `x` and the members of community `c`. */
  ghost function Toward(edges: seq<Edge>, a: Assignment, x: str, c: str): real
    requires Covers(a, edges)
  {
    if edges == [] then 0.0
    else
      var (src, dst, w) := edges[|edges| - 1];
      assert edges[|edges| - 1] in edges;
      assert Covers(a, edges[..|edges| - 1]);
      Toward(edges[..|edges| - 1], a, x, c)
        + (if src != dst && src == x && a[dst] == c then w else 0.0)
        + (if src != dst && dst == x && a[src] == c then w else 0.0)
  }

  /** Sum of `f` of the community totals, over the possible communities. */
  ghost function SumOver(cs: seq<str>, sigma: map<str, real>, f: real -> real): real
    requires forall c :: c in cs ==> c in sigma
  {
    if cs == [] then 0.0
    else
      assert cs[|cs| - 1] in cs;
      SumOver(cs[..|cs| - 1], sigma, f) + f(sigma[cs[|cs| - 1]])
  }

  ghost function Sigmas(edges: seq<Edge>, nodes: seq<str>, a: Assignment): map<str, real> {
    map c | c in nodes :: Sigma(edges, a, c)
  }

  /** What a run optimises: a score of the inner weight and the summed squares of the totals, and the gain it goes by. */
  datatype Objective = Objective(score: (real, real) -> real, square: real -> real, gain: Gain, m: real)

  function Square(x: real): real {
    x * x
  }

  function Score(inner: real, squares: real, g: real, m: real): real
    requires m != 0.0
  {
    (inner - g * squares / (4.0 * m)) / m
  }

  /** Modularity at resolution `g`: the inner weight less the expected one, over the total weight `m`. */
  function ObjectiveOf(g: real, m: real): Objective
    requires m != 0.0
  {
    Objective((inner, squares) => Score(inner, squares, g, m), x => Square(x), GainOf(g, m), m)
  }

  ghost function Quality(edges: seq<Edge>, nodes: seq<str>, o: Objective, a: Assignment): real
    requires Covers(a, edges)
  {
    o.score(Inner(edges, a), SumOver(nodes, Sigmas(edges, nodes, a), o.square))
  }

  // -------------------------------------------------------------------------
  // Moving one node
  // -------------------------------------------------------------------------

  lemma {:induction false} VolumeSplit(edges: seq<Edge>, s: set<str>, x: str)
    requires x !in s
    ensures Volume(edges, s + {x}) == Volume(edges, s) + Degree(edges, x)
  {
    if edges != [] { VolumeSplit(edges[..|edges| - 1], s, x); }
  }

  lemma {:induction false} VolumeAll(edges: seq<Edge>, s: set<str>)
    requires forall e :: e in edges && e.0 != e.1 ==> e.0 in s && e.1 in s
    ensures Volume(edges, s) == 2.0 * TotalWeight(edges)
  {
    if edges != [] {
      assert edges[|edges| - 1] in edges;
      VolumeAll(edges[..|edges| - 1], s);
    }
  }

  lemma {:induction false} VolumeEmpty(edges: seq<Edge>)
    ensures Volume(edges, {}) == 0.0
  {
    if edges != [] { VolumeEmpty(edges[..|edges| - 1]); }
  }

  /** What a move does to the community totals. */
  lemma SigmaMoves(edges: seq<Edge>, a: Assignment, x: str, c: str, d: str)
    requires x in a && a[x] != c
    ensures Sigma(edges, a[x := c], d)
         == Sigma(edges, a, d) + (if d == c then Degree(edges, x) else 0.0) - (if d == a[x] then Degree(edges, x) else 0.0)
  {
    var before, after := Members(a, d), Members(a[x := c], d);
    if d == c {
      assert after == before + {x};
      VolumeSplit(edges, before, x);
    } else if d == a[x] {
      assert before == after + {x};
      VolumeSplit(edges, after, x);
    } else {
      assert before == after;
    }
  }

  /** What a move does to the inner weight. */
  lemma {:induction false} InnerMoves(edges: seq<Edge>, a: Assignment, x: str, c: str)
    requires Covers(a, edges) && x in a && a[x] != c
    ensures Inner(edges, a[x := c]) == Inner(edges, a) - Toward(edges, a, x, a[x]) + Toward(edges, a, x, c)
  {
    if edges != [] {
      assert edges[|edges| - 1] in edges;
      InnerMoves(edges[..|edges| - 1], a, x, c);
    }
  }

  lemma {:induction false} SumUpdate(cs: seq<str>, sigma: map<str, real>, f: real -> real, c: str, v: real)
    requires NoDuplicates(cs) && forall d :: d in cs ==> d in sigma
    ensures SumOver(cs, sigma[c := v], f) == SumOver(cs, sigma, f) + (if c in cs then f(v) - f(sigma[c]) else 0.0)
  {
    if cs != [] {
      var init, last := cs[..|cs| - 1], cs[|cs| - 1];
      assert last in cs && cs == init + [last];
      SumUpdate(init, sigma, f, c, v);
      if last == c { assert c !in init; }
    }
  }

  /** Net gain of moving `x` to community `c` over leaving it where it is. */
  ghost function Net(edges: seq<Edge>, a: Assignment, gain: Gain, x: str, c: str): real
    requires Covers(a, edges) && x in a
  {
    var k := Degree(edges, x);
    gain(Toward(edges, a, x, c), Sigma(edges, a, c), k) - gain(Toward(edges, a, x, a[x]), Sigma(edges, a, a[x]) - k, k)
  }

  ghost predicate Adjacent(edges: seq<Edge>, x: str, y: str) {
    exists e :: e in edges && x != y && ((e.0 == x && e.1 == y) || (e.0 == y && e.1 == x))
  }

  /** `c` is another community than that of `x`, with a neighbour of `x` in it. */
  ghost predicate Candidate(edges: seq<Edge>, a: Assignment, x: str, c: str)
    requires x in a
  {
    c != a[x] && exists y :: y in a && Adjacent(edges, x, y) && a[y] == c
  }

  /** `b` is `a` after moving `x` to a candidate of greatest net gain, which is positive. */
  ghost predicate IsMove(edges: seq<Edge>, gain: Gain, a: Assignment, b: Assignment, x: str, c: str) {
    && Covers(a, edges) && x in a && Degree(edges, x) != 0.0 && Candidate(edges, a, x, c) && b == a[x := c]
    && Net(edges, a, gain, x, c) > 0.0
    && forall d :: Candidate(edges, a, x, d) ==> Net(edges, a, gain, x, d) <= Net(edges, a, gain, x, c)
  }

  /** No move of `x` has a positive net gain, or its degree keeps it from moving. */
  ghost predicate Settled(edges: seq<Edge>, gain: Gain, a: Assignment, x: str) {
    && Covers(a, edges) && x in a
    && (Degree(edges, x) == 0.0 || forall d :: Candidate(edges, a, x, d) ==> Net(edges, a, gain, x, d) <= 0.0)
  }

  lemma SquaresMove(p: real, q: real, k: real)
    ensures Square(p - k) - Square(p) + (Square(q + k) - Square(q)) == 2.0 * (k * (q - (p - k)))
  {
  }

  lemma QuotientMoves(n: real, x: real, y: real)
    requires n != 0.0
    ensures (x + y) / n == x / n + y / n
  {
  }

  lemma HalfQuotient(g: real, t: real, m: real)
    requires m != 0.0
    ensures g * (2.0 * t) / (4.0 * m) == g * t / (2.0 * m)
  {
    var q := g * t / (2.0 * m);
    assert q * (2.0 * m) == g * t;
    assert q * (4.0 * m) == g * (2.0 * t);
  }

  /** A change of `d` in the inner weight and of `2 t` in the squares changes the score by `(d - g t / 2m) / m`. */
  lemma ScoreMoves(inner: real, squares: real, d: real, t: real, g: real, m: real)
    requires m != 0.0
    ensures Score(inner + d, squares + 2.0 * t, g, m) == Score(inner, squares, g, m) + (d - g * t / (2.0 * m)) / m
  {
    assert g * (squares + 2.0 * t) == g * squares + g * (2.0 * t);
    QuotientMoves(4.0 * m, g * squares, g * (2.0 * t));
    HalfQuotient(g, t, m);
    QuotientMoves(m, inner - g * squares / (4.0 * m), d - g * t / (2.0 * m));
  }

  lemma NetIs(g: real, m: real, kinA: real, kinB: real, p: real, q: real, k: real)
    requires m != 0.0
    ensures GainOf(g, m)(kinB, q, k) - GainOf(g, m)(kinA, p - k, k) == kinB - kinA - g * (k * (q - (p - k))) / (2.0 * m)
  {
    assert g * q * k - g * (p - k) * k == g * (k * (q - (p - k)));
    QuotientMoves(2.0 * m, g * (p - k) * k, g * (k * (q - (p - k))));
  }

  lemma ScoreChange(inner: real, squares: real, shift: real, kinA: real, kinB: real, p: real, q: real, k: real, g: real, m: real)
    requires m != 0.0 && shift == 2.0 * (k * (q - (p - k)))
    ensures Score(inner - kinA + kinB, squares + shift, g, m)
         == Score(inner, squares, g, m) + (GainOf(g, m)(kinB, q, k) - GainOf(g, m)(kinA, p - k, k)) / m
  {
    NetIs(g, m, kinA, kinB, p, q, k);
    ScoreNet(inner - kinA + kinB, inner, squares + shift, squares, kinB - kinA, k * (q - (p - k)),
      GainOf(g, m)(kinB, q, k) - GainOf(g, m)(kinA, p - k, k), g, m);
  }

  lemma ScoreNet(inner': real, inner: real, squares': real, squares: real, d: real, t: real, net: real, g: real, m: real)
    requires m != 0.0 && inner' == inner + d && squares' == squares + 2.0 * t && net == d - g * t / (2.0 * m)
    ensures Score(inner', squares', g, m) == Score(inner, squares, g, m) + net / m
  {
    ScoreMoves(inner, squares, d, t, g, m);
  }

  /**
   The score and the gain agree on a move that takes a node of degree `k` from a
   community of total `p` to one of total `q`: the score changes by the net gain over `m`.
   */
  ghost predicate CoupledAt(o: Objective, inner: real, squares: real, kinA: real, kinB: real, p: real, q: real, k: real) {
    o.m != 0.0 && o.score(inner - kinA + kinB, squares + ((o.square(p - k) - o.square(p)) + (o.square(q + k) - o.square(q))))
      == o.score(inner, squares) + (o.gain(kinB, q, k) - o.gain(kinA, p - k, k)) / o.m
  }

  ghost predicate Coupled(o: Objective) {
    o.m != 0.0 && forall inner, squares, kinA, kinB, p, q, k {:trigger CoupledAt(o, inner, squares, kinA, kinB, p, q, k)} ::
      CoupledAt(o, inner, squares, kinA, kinB, p, q, k)
  }

  /** The program's gain fits modularity: this is the identity behind the algorithm. */
  lemma ModularityCoupled(g: real, m: real)
    requires m != 0.0
    ensures Coupled(ObjectiveOf(g, m))
  {
    forall inner, squares, kinA, kinB, p, q, k ensures CoupledAt(ObjectiveOf(g, m), inner, squares, kinA, kinB, p, q, k) {
      SquaresMove(p, q, k);
      ScoreChange(inner, squares, (Square(p - k) - Square(p)) + (Square(q + k) - Square(q)), kinA, kinB, p, q, k, g, m);
    }
  }

  /** An accepted move changes the quality by exactly its net gain over `m`. */
  lemma MoveChangesQuality(edges: seq<Edge>, nodes: seq<str>, o: Objective, a: Assignment, b: Assignment, x: str, c: str)
    requires Coupled(o) && NoDuplicates(nodes) && IsMove(edges, o.gain, a, b, x, c)
    requires a[x] in nodes && c in nodes
    ensures Covers(b, edges)
    ensures Quality(edges, nodes, o, b) == Quality(edges, nodes, o, a) + Net(edges, a, o.gain, x, c) / o.m
  {
    RelocationChangesQuality(edges, nodes, o, a, x, c);
  }

  lemma RelocationChangesQuality(edges: seq<Edge>, nodes: seq<str>, o: Objective, a: Assignment, x: str, c: str)
    requires Coupled(o) && NoDuplicates(nodes) && Covers(a, edges) && x in a && a[x] != c && a[x] in nodes && c in nodes
    ensures Quality(edges, nodes, o, a[x := c]) == Quality(edges, nodes, o, a) + Net(edges, a, o.gain, x, c) / o.m
  {
    var b, k, home, sigma := a[x := c], Degree(edges, x), a[x], Sigmas(edges, nodes, a);
    InnerMoves(edges, a, x, c);
    SigmasMove(edges, nodes, a, x, c);
    SumMoves(nodes, sigma, o.square, home, c, sigma[home] - k, sigma[c] + k);
    QualityStep(o, Inner(edges, a), SumOver(nodes, sigma, o.square), Inner(edges, b), SumOver(nodes, Sigmas(edges, nodes, b), o.square),
      Toward(edges, a, x, home), Toward(edges, a, x, c), sigma[home], sigma[c], k);
  }

  lemma QualityStep(o: Objective, inner: real, squares: real, inner': real, squares': real, kinA: real, kinB: real, p: real, q: real, k: real)
    requires Coupled(o) && inner' == inner - kinA + kinB
    requires squares' == squares + (o.square(p - k) - o.square(p)) + (o.square(q + k) - o.square(q))
    ensures o.score(inner', squares') == o.score(inner, squares) + (o.gain(kinB, q, k) - o.gain(kinA, p - k, k)) / o.m
  {
    assert CoupledAt(o, inner, squares, kinA, kinB, p, q, k);
  }

  lemma SigmasMove(edges: seq<Edge>, nodes: seq<str>, a: Assignment, x: str, c: str)
    requires x in a && a[x] != c && a[x] in nodes && c in nodes
    ensures var k, s := Degree(edges, x), Sigmas(edges, nodes, a);
      Sigmas(edges, nodes, a[x := c]) == s[a[x] := s[a[x]] - k][c := s[c] + k]
  {
    forall d | d in nodes ensures
        var k, s := Degree(edges, x), Sigmas(edges, nodes, a);
        Sigma(edges, a[x := c], d) == s[a[x] := s[a[x]] - k][c := s[c] + k][d]
    {
      SigmaMoves(edges, a, x, c, d);
    }
  }

  lemma SumMoves(cs: seq<str>, sigma: map<str, real>, f: real -> real, home: str, c: str, u: real, v: real)
    requires NoDuplicates(cs) && home in cs && c in cs && home != c && forall d :: d in cs ==> d in sigma
    ensures SumOver(cs, sigma[home := u][c := v], f) == SumOver(cs, sigma, f) + (f(u) - f(sigma[home])) + (f(v) - f(sigma[c]))
  {
    SumUpdate(cs, sigma, f, home, u);
    SumUpdate(cs, sigma[home := u], f, c, v);
  }

  // -------------------------------------------------------------------------
  // Runs
  // -------------------------------------------------------------------------

  ghost predicate MovesAt(edges: seq<Edge>, gain: Gain, trace: seq<Assignment>, i: nat)
    requires i + 1 < |trace|
  {
    var a, b := trace[i], trace[i + 1];
    exists x, c :: IsMove(edges, gain, a, b, x, c)
  }

  /** Every assignment of the trace but the first is an accepted move away from the previous one. */
  ghost predicate IsTrace(edges: seq<Edge>, gain: Gain, trace: seq<Assignment>) {
    trace != [] && forall i :: 0 <= i < |trace| - 1 ==> MovesAt(edges, gain, trace, i)
  }

  lemma TraceExtended(edges: seq<Edge>, gain: Gain, trace: seq<Assignment>, b: Assignment, x: str, c: str)
    requires IsTrace(edges, gain, trace) && IsMove(edges, gain, trace[|trace| - 1], b, x, c)
    ensures IsTrace(edges, gain, trace + [b])
  {
    var longer := trace + [b];
    forall i | 0 <= i < |longer| - 1 ensures MovesAt(edges, gain, longer, i) {
      if i < |trace| - 1 {
        assert MovesAt(edges, gain, trace, i) && longer[i] == trace[i] && longer[i + 1] == trace[i + 1];
      } else {
        assert longer[i] == trace[|trace| - 1] && longer[i + 1] == b;
      }
    }
  }

  /** Assignments to communities named after nodes. */
  ghost predicate Named(a: Assignment, nodes: seq<str>) {
    a.Keys == (set x | x in nodes) && forall x :: HomeNamed(a, nodes, x)
  }

  ghost predicate HomeNamed(a: Assignment, nodes: seq<str>, x: str) {
    x in a ==> a[x] in nodes
  }

  lemma MoveStaysNamed(edges: seq<Edge>, nodes: seq<str>, gain: Gain, a: Assignment, b: Assignment, x: str, c: str)
    requires Named(a, nodes) && IsMove(edges, gain, a, b, x, c)
    ensures Named(b, nodes) && Covers(b, edges)
  {
    var y :| y in a && a[y] == c;
    forall z ensures HomeNamed(b, nodes, z) { assert HomeNamed(a, nodes, z) && HomeNamed(a, nodes, y); }
  }

  lemma QuotientSign(x: real, m: real)
    requires x > 0.0 && m != 0.0
    ensures x / m > 0.0 <==> m > 0.0
  {
    assert x / m * m == x;
  }

  lemma {:induction false} TraceNamed(edges: seq<Edge>, nodes: seq<str>, gain: Gain, trace: seq<Assignment>, i: nat)
    requires IsTrace(edges, gain, trace) && i < |trace| && Named(trace[0], nodes) && Covers(trace[0], edges)
    ensures Named(trace[i], nodes) && Covers(trace[i], edges)
  {
    if i > 0 {
      TraceNamed(edges, nodes, gain, trace, i - 1);
      assert MovesAt(edges, gain, trace, i - 1);
      var x, c :| IsMove(edges, gain, trace[i - 1], trace[i], x, c);
      MoveStaysNamed(edges, nodes, gain, trace[i - 1], trace[i], x, c);
    }
  }

  lemma StepRises(edges: seq<Edge>, nodes: seq<str>, o: Objective, a: Assignment, b: Assignment)
    requires Coupled(o) && o.m > 0.0 && NoDuplicates(nodes) && Named(a, nodes) && exists x, c :: IsMove(edges, o.gain, a, b, x, c)
    ensures Covers(a, edges) && Covers(b, edges)
    ensures Quality(edges, nodes, o, a) < Quality(edges, nodes, o, b)
  {
    var x, c :| IsMove(edges, o.gain, a, b, x, c);
    MoveStaysNamed(edges, nodes, o.gain, a, b, x, c);
    assert HomeNamed(a, nodes, x) && HomeNamed(b, nodes, x);
    MoveImprovesIff(edges, nodes, o, a, b, x, c);
  }

  /** Quality as a value of assignments. */
  ghost function QualityOf(edges: seq<Edge>, nodes: seq<str>, o: Objective): Assignment -> real {
    a => if Covers(a, edges) then Quality(edges, nodes, o, a) else 0.0
  }

  ghost predicate NeverTwice(trace: seq<Assignment>) {
    forall i, j :: 0 <= i < j < |trace| ==> trace[i] != trace[j]
  }

  ghost predicate UpAt(q: Assignment -> real, trace: seq<Assignment>, i: nat)
    requires i + 1 < |trace|
  {
    q(trace[i]) < q(trace[i + 1])
  }

  ghost predicate Rising(q: Assignment -> real, trace: seq<Assignment>) {
    forall i :: 0 <= i < |trace| - 1 ==> UpAt(q, trace, i)
  }

  lemma {:induction false} RisesThroughout(q: Assignment -> real, trace: seq<Assignment>, i: nat, j: nat)
    requires Rising(q, trace) && i < j < |trace|
    ensures q(trace[i]) < q(trace[j]) && trace[i] != trace[j]
    decreases j
  {
    assert UpAt(q, trace, j - 1);
    if i < j - 1 { RisesThroughout(q, trace, i, j - 1); }
  }

  /** With positive total weight the quality rises at every step of a run; so no assignment comes back. */
  lemma QualityRises(edges: seq<Edge>, nodes: seq<str>, o: Objective, trace: seq<Assignment>)
    requires Coupled(o) && o.m > 0.0 && NoDuplicates(nodes) && IsTrace(edges, o.gain, trace)
    requires Named(trace[0], nodes) && Covers(trace[0], edges)
    ensures Rising(QualityOf(edges, nodes, o), trace)
  {
    forall i | 0 <= i < |trace| - 1 ensures UpAt(QualityOf(edges, nodes, o), trace, i) {
      TraceNamed(edges, nodes, o.gain, trace, i);
      assert MovesAt(edges, o.gain, trace, i);
      StepRises(edges, nodes, o, trace[i], trace[i + 1]);
    }
  }

  /** The last assignment of a run is at least as good as the first. */
  ghost predicate NotWorse(edges: seq<Edge>, nodes: seq<str>, o: Objective, trace: seq<Assignment>) {
    trace != [] && QualityOf(edges, nodes, o)(trace[0]) <= QualityOf(edges, nodes, o)(trace[|trace| - 1])
  }

  /** A run with positive total weight ends no worse than it started, and no assignment occurs twice. */
  lemma RunImproves(edges: seq<Edge>, nodes: seq<str>, o: Objective, trace: seq<Assignment>)
    requires Coupled(o) && o.m > 0.0 && NoDuplicates(nodes) && IsTrace(edges, o.gain, trace)
    requires Named(trace[0], nodes) && Covers(trace[0], edges)
    ensures NotWorse(edges, nodes, o, trace) && NeverTwice(trace)
  {
    QualityRises(edges, nodes, o, trace);
    RisingImproves(QualityOf(edges, nodes, o), trace);
  }

  lemma StepFalls(edges: seq<Edge>, nodes: seq<str>, o: Objective, a: Assignment, b: Assignment)
    requires Coupled(o) && o.m < 0.0 && NoDuplicates(nodes) && Named(a, nodes) && exists x, c :: IsMove(edges, o.gain, a, b, x, c)
    ensures Covers(a, edges) && Covers(b, edges)
    ensures Quality(edges, nodes, o, b) < Quality(edges, nodes, o, a)
  {
    var x, c :| IsMove(edges, o.gain, a, b, x, c);
    MoveStaysNamed(edges, nodes, o.gain, a, b, x, c);
    assert HomeNamed(a, nodes, x) && HomeNamed(b, nodes, x);
    MoveChangesQuality(edges, nodes, o, a, b, x, c);
    NegativeQuotient(Net(edges, a, o.gain, x, c), o.m);
  }

  lemma NegativeQuotient(x: real, m: real)
    requires x > 0.0 && m < 0.0
    ensures x / m < 0.0
  {
    assert x / m * m == x;
  }

  /** With negative total weight the quality falls at every step. */
  lemma QualityFalls(edges: seq<Edge>, nodes: seq<str>, o: Objective, trace: seq<Assignment>)
    requires Coupled(o) && o.m < 0.0 && NoDuplicates(nodes) && IsTrace(edges, o.gain, trace)
    requires Named(trace[0], nodes) && Covers(trace[0], edges)
    ensures Rising(Negated(QualityOf(edges, nodes, o)), trace)
  {
    forall i | 0 <= i < |trace| - 1 ensures UpAt(Negated(QualityOf(edges, nodes, o)), trace, i) {
      TraceNamed(edges, nodes, o.gain, trace, i);
      assert MovesAt(edges, o.gain, trace, i);
      StepFalls(edges, nodes, o, trace[i], trace[i + 1]);
    }
  }

  ghost function Negated(q: Assignment -> real): Assignment -> real {
    a => 0.0 - q(a)
  }

  lemma FallingWorsens(q: Assignment -> real, trace: seq<Assignment>)
    requires Rising(Negated(q), trace) && trace != []
    ensures NeverTwice(trace) && (|trace| > 1 ==> q(trace[|trace| - 1]) < q(trace[0]))
  {
    RisingImproves(Negated(q), trace);
    if |trace| > 1 { RisesThroughout(Negated(q), trace, 0, |trace| - 1); }
  }

  /** With negative total weight a run that moves anything ends worse than it started; still no assignment occurs twice. */
  lemma RunWorsens(edges: seq<Edge>, nodes: seq<str>, o: Objective, trace: seq<Assignment>)
    requires Coupled(o) && o.m < 0.0 && NoDuplicates(nodes) && IsTrace(edges, o.gain, trace)
    requires Named(trace[0], nodes) && Covers(trace[0], edges)
    ensures NeverTwice(trace)
    ensures |trace| > 1 ==> QualityOf(edges, nodes, o)(trace[|trace| - 1]) < QualityOf(edges, nodes, o)(trace[0])
  {
    QualityFalls(edges, nodes, o, trace);
    FallingWorsens(QualityOf(edges, nodes, o), trace);
  }

  lemma RisingImproves(q: Assignment -> real, trace: seq<Assignment>)
    requires Rising(q, trace) && trace != []
    ensures q(trace[0]) <= q(trace[|trace| - 1]) && NeverTwice(trace)
  {
    if |trace| > 1 { RisesThroughout(q, trace, 0, |trace| - 1); }
    forall i, j | 0 <= i < j < |trace| ensures trace[i] != trace[j] { RisesThroughout(q, trace, i, j); }
  }

  /** The program only excludes `m == 0`: with negative total weight every accepted move lowers modularity. */
  lemma MoveImprovesIff(edges: seq<Edge>, nodes: seq<str>, o: Objective, a: Assignment, b: Assignment, x: str, c: str)
    requires Coupled(o) && NoDuplicates(nodes) && IsMove(edges, o.gain, a, b, x, c)
    requires a[x] in nodes && c in nodes
    ensures Covers(b, edges)
    ensures Quality(edges, nodes, o, b) > Quality(edges, nodes, o, a) <==> o.m > 0.0
  {
    MoveChangesQuality(edges, nodes, o, a, b, x, c);
    QuotientSign(Net(edges, a, o.gain, x, c), o.m);
  }
}
