/** Label propagation (crates/graph/src/community.rs); edge weights are ignored. */
module LabelPropagation {
  import opened Bytes
  import opened Grouping
  import opened Sweeps
  import opened Representatives
  import opened Louvain

  // -------------------------------------------------------------------------
  // Labels around a node
  // -------------------------------------------------------------------------

  /** Neighbours of `x` in input order, once per edge; self-loops do not count. */
  ghost function NeighboursOf(edges: seq<Edge>, x: str): seq<str> {
    if edges == [] then []
    else
      var (src, dst, _) := edges[|edges| - 1];
      NeighboursOf(edges[..|edges| - 1], x)
        + (if src != dst && src == x then [dst] else [])
        + (if src != dst && dst == x then [src] else [])
  }

  /** How many of the listed nodes carry label `l`. */
  ghost function Count(nodes: seq<str>, a: Assignment, l: str): nat
    requires forall j :: 0 <= j < |nodes| ==> nodes[j] in a
  {
    if nodes == [] then 0
    else Count(nodes[..|nodes| - 1], a, l) + (if a[nodes[|nodes| - 1]] == l then 1 else 0)
  }

  /** How many edges join `x` to a node with label `l`. */
  ghost function Votes(edges: seq<Edge>, a: Assignment, x: str, l: str): nat
    requires Covers(a, edges)
  {
    if edges == [] then 0
    else
      var (src, dst, _) := edges[|edges| - 1];
      assert edges[|edges| - 1] in edges;
      assert Covers(a, edges[..|edges| - 1]);
      Votes(edges[..|edges| - 1], a, x, l)
        + (if src != dst && src == x && a[dst] == l then 1 else 0)
        + (if src != dst && dst == x && a[src] == l then 1 else 0)
  }

  /** Edges, other than self-loops, whose ends carry the same label. */
  ghost function Monochrome(edges: seq<Edge>, a: Assignment): (n: nat)
    requires Covers(a, edges)
    ensures n <= ProperEdges(edges)
  {
    if edges == [] then 0
    else
      var (src, dst, _) := edges[|edges| - 1];
      assert edges[|edges| - 1] in edges;
      assert Covers(a, edges[..|edges| - 1]);
      Monochrome(edges[..|edges| - 1], a) + (if src != dst && a[src] == a[dst] then 1 else 0)
  }

  ghost function ProperEdges(edges: seq<Edge>): (n: nat)
    ensures n <= |edges|
  {
    if edges == [] then 0
    else ProperEdges(edges[..|edges| - 1]) + (if edges[|edges| - 1].0 != edges[|edges| - 1].1 then 1 else 0)
  }

  /** `l` has the most votes around `x`, and is the smallest such label. */
  ghost predicate Wins(edges: seq<Edge>, a: Assignment, x: str, l: str)
    requires Covers(a, edges)
  {
    && Votes(edges, a, x, l) > 0
    && forall k {:trigger Votes(edges, a, x, k)} ::
        Votes(edges, a, x, k) < Votes(edges, a, x, l) || (Votes(edges, a, x, k) == Votes(edges, a, x, l) && Le(l, k))
  }

  /** `b` is `a` with the label of `x` replaced by the winning one, which has more votes. */
  ghost predicate IsRelabel(edges: seq<Edge>, a: Assignment, b: Assignment, x: str, l: str) {
    && Covers(a, edges) && x in a && b == a[x := l]
    && Wins(edges, a, x, l) && Votes(edges, a, x, a[x]) < Votes(edges, a, x, l)
  }

  /** No label has more votes around `x` than its own. */
  ghost predicate Stable(edges: seq<Edge>, a: Assignment, x: str) {
    Covers(a, edges) && x in a && forall l :: Votes(edges, a, x, l) <= Votes(edges, a, x, a[x])
  }

  lemma {:induction false} MonochromeMoves(edges: seq<Edge>, a: Assignment, x: str, l: str)
    requires Covers(a, edges) && x in a && a[x] != l
    ensures Monochrome(edges, a[x := l]) == Monochrome(edges, a) - Votes(edges, a, x, a[x]) + Votes(edges, a, x, l)
  {
    if edges != [] {
      assert edges[|edges| - 1] in edges;
      MonochromeMoves(edges[..|edges| - 1], a, x, l);
    }
  }

  /** Every relabelling makes more edges monochrome. */
  lemma RelabelGains(edges: seq<Edge>, a: Assignment, b: Assignment, x: str, l: str)
    requires IsRelabel(edges, a, b, x, l)
    ensures Covers(b, edges) && Monochrome(edges, b) > Monochrome(edges, a)
  {
    MonochromeMoves(edges, a, x, l);
  }

  // -------------------------------------------------------------------------
  // Runs
  // -------------------------------------------------------------------------

  ghost predicate RelabelsAt(edges: seq<Edge>, trace: seq<Assignment>, i: nat)
    requires i + 1 < |trace|
  {
    var a, b := trace[i], trace[i + 1];
    exists x, l :: IsRelabel(edges, a, b, x, l)
  }

  ghost predicate IsHistory(edges: seq<Edge>, trace: seq<Assignment>) {
    trace != [] && Covers(trace[0], edges) && forall i :: 0 <= i < |trace| - 1 ==> RelabelsAt(edges, trace, i)
  }

  lemma HistoryExtended(edges: seq<Edge>, trace: seq<Assignment>, b: Assignment, x: str, l: str)
    requires IsHistory(edges, trace) && IsRelabel(edges, trace[|trace| - 1], b, x, l)
    ensures IsHistory(edges, trace + [b])
  {
    var longer := trace + [b];
    forall i | 0 <= i < |longer| - 1 ensures RelabelsAt(edges, longer, i) {
      if i < |trace| - 1 {
        assert RelabelsAt(edges, trace, i) && longer[i] == trace[i] && longer[i + 1] == trace[i + 1];
      } else {
        assert longer[i] == trace[|trace| - 1] && longer[i + 1] == b;
      }
    }
  }

  /** After `i` relabellings at least `i` edges are monochrome; so no run relabels more often than there are edges. */
  lemma {:induction false} RelabellingsBounded(edges: seq<Edge>, trace: seq<Assignment>, i: nat)
    requires IsHistory(edges, trace) && i < |trace|
    ensures Covers(trace[i], edges) && i <= Monochrome(edges, trace[i]) <= ProperEdges(edges)
  {
    if i > 0 {
      RelabellingsBounded(edges, trace, i - 1);
      assert RelabelsAt(edges, trace, i - 1);
      var x, l :| IsRelabel(edges, trace[i - 1], trace[i], x, l);
      RelabelGains(edges, trace[i - 1], trace[i], x, l);
    }
  }

  lemma {:induction false} VotesCome(edges: seq<Edge>, a: Assignment, x: str, l: str) returns (y: str)
    requires Covers(a, edges) && Votes(edges, a, x, l) > 0
    ensures y in a && y != x && a[y] == l && ((x, y) in LinksOf(edges) || (y, x) in LinksOf(edges))
  {
    var init, last := edges[..|edges| - 1], edges[|edges| - 1];
    assert last in edges && (last.0, last.1) in LinksOf(edges);
    if last.0 != last.1 && last.0 == x && a[last.1] == l {
      y := last.1;
    } else if last.0 != last.1 && last.1 == x && a[last.0] == l {
      y := last.0;
    } else {
      y := VotesCome(init, a, x, l);
      if (x, y) in LinksOf(init) {
        var e :| e in init && (e.0, e.1) == (x, y);
        assert e in edges;
      } else {
        var e :| e in init && (e.0, e.1) == (y, x);
        assert e in edges;
      }
    }
  }

  /** A relabelled node takes the label of a neighbour. */
  lemma RelabelJoins(edges: seq<Edge>, a: Assignment, b: Assignment, x: str, l: str) returns (y: str)
    requires IsRelabel(edges, a, b, x, l)
    ensures JoinsBy(LinksOf(edges), a, x, y, b)
  {
    y := VotesCome(edges, a, x, l);
  }

  lemma VisitsFollow(edges: seq<Edge>)
    ensures Follows(VisitOf(edges), LinksOf(edges))
  {
    forall a: Assignment, x: str, b: Assignment | Visited(edges, a, x, b) ensures Joins(LinksOf(edges), a, x, b) {
      if l :| IsRelabel(edges, a, b, x, l) { var y := RelabelJoins(edges, a, b, x, l); }
    }
  }

  /** Labels never leave the component they started in. */
  lemma {:induction false} LabelsStayLocal(edges: seq<Edge>, trace: seq<Assignment>, i: nat)
    requires IsHistory(edges, trace) && i < |trace| && forall x :: x in trace[0] ==> trace[0][x] == x
    ensures Local(LinksOf(edges), trace[i])
  {
    if i == 0 {
      StartLocal(LinksOf(edges), trace[0]);
    } else {
      LabelsStayLocal(edges, trace, i - 1);
      assert RelabelsAt(edges, trace, i - 1);
      var x, l :| IsRelabel(edges, trace[i - 1], trace[i], x, l);
      RelabelStaysLocal(edges, trace[i - 1], trace[i], x, l);
    }
  }

  lemma RelabelStaysLocal(edges: seq<Edge>, a: Assignment, b: Assignment, x: str, l: str)
    requires IsRelabel(edges, a, b, x, l) && Local(LinksOf(edges), a)
    ensures Local(LinksOf(edges), b)
  {
    var y := RelabelJoins(edges, a, b, x, l);
    JoinStaysLocal(LinksOf(edges), a, x, y, b);
  }

  // -------------------------------------------------------------------------
  // The program
  // -------------------------------------------------------------------------

  ghost predicate Listed(edges: seq<Edge>, adj: map<str, seq<str>>) {
    forall x {:trigger ListedAt(edges, adj, x)} :: ListedAt(edges, adj, x)
  }

  ghost predicate ListedAt(edges: seq<Edge>, adj: map<str, seq<str>>, x: str) {
    (x in adj ==> adj[x] == NeighboursOf(edges, x)) && (x !in adj ==> NeighboursOf(edges, x) == [])
  }

  function Append(adj: map<str, seq<str>>, x: str, y: str): map<str, seq<str>> {
    adj[x := (if x in adj then adj[x] else []) + [y]]
  }

  method BuildNeighbours(edges: seq<Edge>) returns (all: set<str>, adj: map<str, seq<str>>)
    ensures all == Nodes(edges) && Listed(edges, adj)
  {
    all, adj := {}, map[];
    for k := 0 to |edges|
      invariant all == Nodes(edges[..k]) && Listed(edges[..k], adj)
    {
      var (src, dst, _) := edges[k];
      NodesGrow(edges, k);
      all := all + {src, dst};
      ghost var before := adj;
      if src != dst {
        adj := Append(Append(adj, src, dst), dst, src);
      }
      ListedStep(edges[..k], edges[..k + 1], before, adj);
    }
    assert edges[..|edges|] == edges;
  }

  lemma NodesGrow(edges: seq<Edge>, k: nat)
    requires k < |edges|
    ensures Nodes(edges[..k + 1]) == Nodes(edges[..k]) + {edges[k].0, edges[k].1}
  {
    assert edges[..k + 1] == edges[..k] + [edges[k]];
    assert edges[k] in edges[..k + 1];
    forall x | x in Nodes(edges[..k]) ensures x in Nodes(edges[..k + 1]) {
      var e :| e in edges[..k] && (e.0 == x || e.1 == x);
      assert e in edges[..k + 1];
    }
  }

  lemma ListedStep(before: seq<Edge>, after: seq<Edge>, adj: map<str, seq<str>>, adj': map<str, seq<str>>)
    requires after != [] && before == after[..|after| - 1] && Listed(before, adj)
    requires var (src, dst, _) := after[|after| - 1];
      adj' == if src != dst then Append(Append(adj, src, dst), dst, src) else adj
    ensures Listed(after, adj')
  {
    forall x ensures ListedAt(after, adj', x) { assert ListedAt(before, adj, x); }
  }

  lemma {:induction false} NeighboursInside(edges: seq<Edge>, a: Assignment, x: str)
    requires Covers(a, edges)
    ensures forall j :: 0 <= j < |NeighboursOf(edges, x)| ==> NeighboursOf(edges, x)[j] in a
  {
    if edges != [] {
      assert edges[|edges| - 1] in edges;
      NeighboursInside(edges[..|edges| - 1], a, x);
    }
  }

  lemma CountAppend(n: seq<str>, y: str, a: Assignment, l: str)
    requires y in a && forall j :: 0 <= j < |n| ==> n[j] in a
    ensures Count(n + [y], a, l) == Count(n, a, l) + (if a[y] == l then 1 else 0)
  {
    assert (n + [y])[..|n|] == n;
  }

  lemma {:induction false} CountIsVotes(edges: seq<Edge>, a: Assignment, x: str, l: str)
    requires Covers(a, edges) && forall j :: 0 <= j < |NeighboursOf(edges, x)| ==> NeighboursOf(edges, x)[j] in a
    ensures Count(NeighboursOf(edges, x), a, l) == Votes(edges, a, x, l)
  {
    if edges != [] {
      var init := edges[..|edges| - 1];
      var (src, dst, _) := edges[|edges| - 1];
      assert edges[|edges| - 1] in edges;
      NeighboursInside(init, a, x);
      CountIsVotes(init, a, x, l);
      var before := NeighboursOf(init, x);
      if src != dst && src == x {
        CountAppend(before, dst, a, l);
        assert NeighboursOf(edges, x) == before + [dst];
      } else if src != dst && dst == x {
        CountAppend(before, src, a, l);
        assert NeighboursOf(edges, x) == before + [src];
      } else {
        assert NeighboursOf(edges, x) == before;
      }
    }
  }

  /** Label frequencies among the listed nodes. */
  ghost predicate Frequencies(freq: map<str, nat>, nodes: seq<str>, a: Assignment) {
    && (forall j :: 0 <= j < |nodes| ==> nodes[j] in a)
    && forall l {:trigger Count(nodes, a, l)} :: (l in freq ==> freq[l] == Count(nodes, a, l) > 0) && (l !in freq ==> Count(nodes, a, l) == 0)
  }

  method CountLabels(nodes: seq<str>, a: Assignment) returns (freq: map<str, nat>)
    requires forall j :: 0 <= j < |nodes| ==> nodes[j] in a
    ensures Frequencies(freq, nodes, a)
  {
    freq := map[];
    for i := 0 to |nodes|
      invariant Frequencies(freq, nodes[..i], a)
    {
      var l := a[nodes[i]];
      FrequenciesStep(freq, nodes, i, a);
      freq := freq[l := (if l in freq then freq[l] else 0) + 1];
    }
    assert nodes[..|nodes|] == nodes;
  }

  lemma FrequenciesStep(freq: map<str, nat>, nodes: seq<str>, i: nat, a: Assignment)
    requires i < |nodes| && nodes[i] in a && Frequencies(freq, nodes[..i], a)
    ensures var l := a[nodes[i]]; Frequencies(freq[l := (if l in freq then freq[l] else 0) + 1], nodes[..i + 1], a)
  {
    var l := a[nodes[i]];
    var before, after := nodes[..i], nodes[..i + 1];
    assert after == before + [nodes[i]];
    forall k ensures Count(after, a, k) == Count(before, a, k) + (if l == k then 1 else 0) { CountAppend(before, nodes[i], a, k); }
  }

  method MaxCount(freq: map<str, nat>) returns (most: nat)
    ensures forall l :: l in freq ==> freq[l] <= most
    ensures freq == map[] ==> most == 0
    ensures freq != map[] ==> exists l :: l in freq && freq[l] == most
  {
    most := 0;
    var todo := freq.Keys;
    ghost var top: str := [];
    while todo != {}
      invariant todo <= freq.Keys
      invariant forall l :: l in freq && l !in todo ==> freq[l] <= most
      invariant if todo == freq.Keys then most == 0 else top in freq && freq[top] == most
      decreases |todo|
    {
      var l :| l in todo;
      if todo == freq.Keys || freq[l] > most {
        most, top := freq[l], l;
      }
      todo := todo - {l};
    }
  }

  /** The smallest label that reaches the maximum. */
  method SmallestWinner(freq: map<str, nat>, most: nat) returns (winner: str)
    requires exists l :: l in freq && freq[l] == most
    ensures winner in freq && freq[winner] == most
    ensures forall l :: l in freq && freq[l] == most ==> Le(winner, l)
  {
    var tied := set l | l in freq && freq[l] == most;
    var some :| some in freq && freq[some] == most;
    assert some in tied;
    ghost var least := LeastExists(tied);
    winner :| winner in tied && forall l :: l in tied ==> Le(winner, l);
  }

  /** Visits one node: adopts the winning label when it has more votes than the current one. */
  method VisitNode(ghost edges: seq<Edge>, adj: map<str, seq<str>>, x: str, a: Assignment) returns (b: Assignment, changed: bool)
    requires Listed(edges, adj) && Covers(a, edges) && x in a
    ensures Visited(edges, a, x, b) && (changed <==> b != a)
    ensures !changed ==> Stable(edges, a, x)
    ensures changed ==> exists l :: IsRelabel(edges, a, b, x, l)
  {
    b, changed := a, false;
    assert ListedAt(edges, adj, x);
    NeighboursInside(edges, a, x);
    ghost var n := NeighboursOf(edges, x);
    forall l ensures Count(n, a, l) == Votes(edges, a, x, l) { CountIsVotes(edges, a, x, l); }
    if x !in adj || adj[x] == [] {
      return;
    }
    var freq := CountLabels(adj[x], a);
    var most := MaxCount(freq);
    var current := a[x];
    var currentCount := if current in freq then freq[current] else 0;
    assert currentCount == Votes(edges, a, x, current);
    if currentCount < most {
      var winner := SmallestWinner(freq, most);
      b, changed := a[x := winner], true;
      WinnerWins(edges, a, x, freq, winner, n);
      assert IsRelabel(edges, a, b, x, winner);
      RelabelChanges(edges, a, b, x, winner);
    } else {
      forall l ensures Votes(edges, a, x, l) <= currentCount {
        assert Count(n, a, l) == Votes(edges, a, x, l);
      }
    }
  }

  lemma WinnerWins(edges: seq<Edge>, a: Assignment, x: str, freq: map<str, nat>, winner: str, n: seq<str>)
    requires Covers(a, edges) && Frequencies(freq, n, a) && winner in freq
    requires forall l :: Count(n, a, l) == Votes(edges, a, x, l)
    requires forall l :: l in freq ==> freq[l] <= freq[winner]
    requires forall l :: l in freq && freq[l] == freq[winner] ==> Le(winner, l)
    ensures Wins(edges, a, x, winner) && Votes(edges, a, x, winner) == freq[winner]
  {
    assert Count(n, a, winner) == Votes(edges, a, x, winner);
    forall k ensures Votes(edges, a, x, k) < Votes(edges, a, x, winner) || (Votes(edges, a, x, k) == Votes(edges, a, x, winner) && Le(winner, k)) {
      assert Count(n, a, k) == Votes(edges, a, x, k);
    }
  }

  ghost predicate AllStable(edges: seq<Edge>, nodes: seq<str>, a: Assignment) {
    forall x :: x in nodes ==> Stable(edges, a, x)
  }

  ghost predicate Progress(edges: seq<Edge>, nodes: seq<str>, a: Assignment, trace: seq<Assignment>) {
    && IsHistory(edges, trace) && a == trace[|trace| - 1] && Covers(a, edges) && (forall x :: x in nodes ==> x in a)
  }

  /** What a visit of `x` does: adopt the winning label, or keep the current one when none has more votes. */
  ghost predicate Visited(edges: seq<Edge>, a: Assignment, x: str, b: Assignment) {
    (Stable(edges, a, x) && b == a) || exists l :: IsRelabel(edges, a, b, x, l)
  }

  ghost function VisitOf(edges: seq<Edge>): Visit {
    (a, x, b) => Visited(edges, a, x, b)
  }

  lemma RelabelChanges(edges: seq<Edge>, a: Assignment, b: Assignment, x: str, l: str)
    requires IsRelabel(edges, a, b, x, l)
    ensures b != a && Visited(edges, a, x, b)
  {
    assert b[x] == l && a[x] != l;
  }

  method Round(ghost edges: seq<Edge>, nodes: seq<str>, adj: map<str, seq<str>>, a: Assignment, ghost trace: seq<Assignment>)
    returns (b: Assignment, anyChanged: bool, ghost trace': seq<Assignment>, ghost steps: seq<Assignment>)
    requires Listed(edges, adj) && Progress(edges, nodes, a, trace)
    ensures Progress(edges, nodes, b, trace') && trace'[0] == trace[0]
    ensures IsPass(VisitOf(edges), nodes, steps, a, b)
    ensures anyChanged <==> !Quiet(steps)
    ensures !anyChanged ==> b == a && AllStable(edges, nodes, b)
  {
    b, anyChanged, trace', steps := a, false, trace, [a];
    for i := 0 to |nodes|
      invariant Progress(edges, nodes, b, trace') && trace'[0] == trace[0]
      invariant Started(VisitOf(edges), nodes, steps) && |steps| == i + 1 && steps[0] == a && steps[i] == b
      invariant anyChanged <==> !Quiet(steps)
      invariant !anyChanged ==> b == a && forall j :: 0 <= j < i ==> Stable(edges, b, nodes[j])
    {
      var changed;
      ghost var before := b;
      b, changed := VisitNode(edges, adj, nodes[i], b);
      VisitNext(VisitOf(edges), nodes, steps, b);
      steps := steps + [b];
      if changed {
        anyChanged := true;
        ghost var l :| IsRelabel(edges, before, b, nodes[i], l);
        HistoryExtended(edges, trace', b, nodes[i], l);
        trace' := trace' + [b];
      }
    }
  }

  /**
   How a run ends: `final` is left by the passes over the nodes in name order,
   which stop at the first quiet one or when the limit is reached; the labels
   changed one at a time along `trace`, from every node carrying its own.
   */
  ghost predicate Ends(edges: seq<Edge>, nodes: seq<str>, limit: nat, passes: seq<seq<Assignment>>, trace: seq<Assignment>, final: Assignment) {
    var start := Singletons(Nodes(edges));
    && Increasing(nodes) && (forall x :: x in nodes <==> x in Nodes(edges))
    && Passes(VisitOf(edges), nodes, start, passes, limit) && final == After(start, passes)
    && IsHistory(edges, trace) && trace[0] == start && final == trace[|trace| - 1]
    && (Settles(passes) ==> AllStable(edges, nodes, final))
  }

  /**
   What the end of a run promises: no more label changes than edges, every label
   a node of its carrier's component, and, with more rounds allowed than there
   are edges, no node that sees a label more often than its own.
   */
  lemma EndsWell(edges: seq<Edge>, nodes: seq<str>, limit: nat, passes: seq<seq<Assignment>>, trace: seq<Assignment>, final: Assignment)
    requires Ends(edges, nodes, limit, passes, trace, final)
    ensures |trace| - 1 <= ProperEdges(edges) && Local(LinksOf(edges), final)
    ensures limit > ProperEdges(edges) ==> AllStable(edges, nodes, final)
  {
    RelabellingsBounded(edges, trace, |trace| - 1);
    LabelsStayLocal(edges, trace, |trace| - 1);
    if limit > ProperEdges(edges) && !Settles(passes) {
      LoudPassesGain(edges, nodes, Singletons(Nodes(edges)), passes, |passes|);
    }
  }

  /** Each pass that changes a label makes another edge monochrome. */
  lemma {:induction false} LoudPassesGain(edges: seq<Edge>, nodes: seq<str>, start: Assignment, passes: seq<seq<Assignment>>, k: nat)
    requires Running(VisitOf(edges), nodes, start, passes) && (passes != [] ==> !Settles(passes)) && k <= |passes| && Covers(start, edges)
    ensures Covers(After(start, passes[..k]), edges) && k <= Monochrome(edges, After(start, passes[..k]))
  {
    if k > 0 {
      LoudPassesGain(edges, nodes, start, passes, k - 1);
      assert PassAt(VisitOf(edges), nodes, start, passes, k - 1);
      assert !Quiet(passes[k - 1]);
      VisitsGain(edges, nodes, passes[k - 1], |nodes|);
      assert After(start, passes[..k]) == passes[k - 1][|nodes|];
      assert passes[k - 1][..|nodes| + 1] == passes[k - 1];
    }
  }

  lemma {:induction false} VisitsGain(edges: seq<Edge>, nodes: seq<str>, steps: seq<Assignment>, i: nat)
    requires Started(VisitOf(edges), nodes, steps) && i < |steps| && Covers(steps[0], edges)
    ensures Covers(steps[i], edges)
    ensures Monochrome(edges, steps[0]) + (if Quiet(steps[..i + 1]) then 0 else 1) <= Monochrome(edges, steps[i])
  {
    if i > 0 {
      VisitsGain(edges, nodes, steps, i - 1);
      assert VisitAt(VisitOf(edges), nodes, steps, i - 1);
      var a, b, before, after := steps[i - 1], steps[i], steps[..i], steps[..i + 1];
      if b != a {
        var l :| IsRelabel(edges, a, b, nodes[i - 1], l);
        RelabelGains(edges, a, b, nodes[i - 1], l);
      } else if Quiet(before) {
        forall j: nat | j + 1 < |after| ensures after[j] == after[j + 1] {
          if j + 1 < |before| { assert before[j] == before[j + 1]; }
        }
      }
    }
  }

  /** Communities by label propagation: the groups of a run's final labels. */
  method Detect(edges: seq<Edge>, maxIterations: nat) returns (groups: map<str, seq<str>>)
    ensures exists nodes, passes, trace, final :: Ends(edges, nodes, maxIterations, passes, trace, final) && Groups(groups, final)
  {
    var all, adj := BuildNeighbours(edges);
    var sorted := SortedNames(all);
    var a;
    ghost var trace, passes;
    a, trace, passes := RunRounds(edges, sorted, adj, maxIterations);
    groups := GroupsFromAssignment(a);
    assert Ends(edges, sorted, maxIterations, passes, trace, a);
  }

  /** Rounds until none changes a label or they run out. */
  method RunRounds(ghost edges: seq<Edge>, nodes: seq<str>, adj: map<str, seq<str>>, maxIterations: nat)
    returns (a: Assignment, ghost trace: seq<Assignment>, ghost passes: seq<seq<Assignment>>)
    requires Listed(edges, adj) && Increasing(nodes) && forall x :: x in nodes <==> x in Nodes(edges)
    ensures Ends(edges, nodes, maxIterations, passes, trace, a)
  {
    a := Start(edges, nodes);
    ghost var start := a;
    trace, passes := [a], [];
    for i := 0 to maxIterations
      invariant Progress(edges, nodes, a, trace) && trace[0] == start
      invariant |passes| == i && Loud(VisitOf(edges), nodes, start, passes, a)
    {
      var anyChanged;
      ghost var steps, before;
      before := a;
      a, anyChanged, trace, steps := Round(edges, nodes, adj, a, trace);
      PassNext(VisitOf(edges), nodes, start, passes, before, steps, a, maxIterations);
      passes := passes + [steps];
      if !anyChanged {
        return;
      }
    }
    LimitReached(VisitOf(edges), nodes, start, passes, a, maxIterations);
  }

  method Start(ghost edges: seq<Edge>, nodes: seq<str>) returns (a: Assignment)
    requires forall x :: x in nodes <==> x in Nodes(edges)
    ensures a == Singletons(Nodes(edges)) && Covers(a, edges)
  {
    a := map x | x in nodes :: x;
  }
}
