/** Single-hop scans, multi-hop walks and the key-only frontier (crates/graph/src/traverse.rs). */
module Traversal {
  import opened Bytes
  import opened Wrappers
  import opened Records
  import opened Keys
  import opened StorageModel
  import opened Edges

  datatype HopSpec = HopSpec(dir: byte, edgeType: Option<str>) {
    predicate Valid() {
      IsDir(dir) && (edgeType.Some? ==> Segment(edgeType.value))
    }
  }

  /** `e` leaves `v` along the hop. */
  predicate Follows(hop: HopSpec, v: str, e: EdgeId) {
    Near(hop.dir, e) == v && (hop.edgeType.Some? ==> e.edgeType == hop.edgeType.value)
  }

  function HopPrefix(t: Table, hop: HopSpec, v: str): Key {
    if hop.edgeType.Some? then VertexTypedPrefix(t, hop.dir, v, hop.edgeType.value) else VertexPrefix(t, hop.dir, v)
  }

  ghost predicate Distinct<T(!new)>(s: seq<T>) {
    forall i, j :: 0 <= i < j < |s| ==> s[i] != s[j]
  }

  /** The edges of a hop from `v`, each once. */
  ghost predicate ListsHop(edges: map<EdgeId, Fields>, hop: HopSpec, v: str, es: seq<EdgeId>) {
    Distinct(es) && forall e :: e in es <==> e in edges && Follows(hop, v, e)
  }

  lemma HopPrefixSelects(t: Table, hop: HopSpec, v: str, dir: byte, e: EdgeId)
    requires t.Valid() && hop.Valid() && IsDir(dir) && ValidEdge(e) && Segment(v)
    ensures HopPrefix(t, hop, v) <= DirKey(t, dir, e) <==> dir == hop.dir && Follows(hop, v, e)
    ensures TablePrefix(t, GRAPH_EDGE) <= HopPrefix(t, hop, v) && Bounded(HopPrefix(t, hop, v))
  {
    if hop.edgeType.Some? {
      TypedPrefixSelects(t, hop.dir, v, hop.edgeType.value, dir, e);
    } else {
      VertexPrefixSelects(t, hop.dir, v, dir, e);
    }
    assert HopPrefix(t, hop, v)[|Sep(t.ns)| - 1] == SEPARATOR;
  }

  ghost predicate KeysAreEdges(t: Table, dir: byte, entries: seq<(Key, Blob)>, es: seq<EdgeId>) {
    |es| == |entries| && forall i :: 0 <= i < |entries| ==> ValidEdge(es[i]) && entries[i].0 == DirKey(t, dir, es[i])
  }

  lemma EdgeAtKey(kv: Kv, t: Table, edges: map<EdgeId, Fields>, hop: HopSpec, v: str, k: Key) returns (e: EdgeId)
    requires t.Valid() && hop.Valid() && Segment(v) && Represents(kv, t, edges)
    requires k in kv && HopPrefix(t, hop, v) <= k
    ensures e in edges && ValidEdge(e) && Follows(hop, v, e) && k == DirKey(t, hop.dir, e)
  {
    HopPrefixSelects(t, hop, v, OUTGOING, EdgeId([], [], []));
    assert TablePrefix(t, GRAPH_EDGE) <= HopPrefix(t, hop, v) <= k;
    assert Owned(t, edges, k);
    e :| e in edges && KeyOf(t, e, k);
    assert ValidEdge(e);
    DirKeys(t, e);
    HopPrefixSelects(t, hop, v, OUTGOING, e);
    HopPrefixSelects(t, hop, v, INCOMING, e);
  }

  ghost predicate IsHopKey(t: Table, edges: map<EdgeId, Fields>, hop: HopSpec, v: str, e: EdgeId, k: Key) {
    e in edges && ValidEdge(e) && Follows(hop, v, e) && k == DirKey(t, hop.dir, e)
  }

  /** A prefix scan at a vertex lists exactly the edges of that hop. */
  lemma ScanIsHop(kv: Kv, t: Table, edges: map<EdgeId, Fields>, hop: HopSpec, v: str, entries: seq<(Key, Blob)>) returns (es: seq<EdgeId>)
    requires t.Valid() && hop.Valid() && Segment(v) && Represents(kv, t, edges)
    requires Listing(kv, PrefixKeys(kv, HopPrefix(t, hop, v)), entries)
    ensures KeysAreEdges(t, hop.dir, entries, es) && ListsHop(edges, hop, v, es)
  {
    forall i | 0 <= i < |entries| ensures exists e :: IsHopKey(t, edges, hop, v, e, entries[i].0) {
      var e := EdgeAtKey(kv, t, edges, hop, v, entries[i].0);
      assert IsHopKey(t, edges, hop, v, e, entries[i].0);
    }
    es := seq(|entries|, i requires 0 <= i < |entries| => EdgeOf(t, edges, hop, v, entries[i].0));
    forall e | e in edges && Follows(hop, v, e) ensures e in es {
      var i := HopListed(kv, t, edges, hop, v, entries, e);
      assert ValidEdge(e);
      DirKeyInjective(t, hop.dir, e, hop.dir, es[i]);
    }
    forall i, j | 0 <= i < j < |es| ensures es[i] != es[j] {
      assert Lt(KeysOf(entries)[i], KeysOf(entries)[j]);
      LtIrreflexive(entries[i].0);
    }
  }

  lemma HopListed(kv: Kv, t: Table, edges: map<EdgeId, Fields>, hop: HopSpec, v: str, entries: seq<(Key, Blob)>, e: EdgeId) returns (i: nat)
    requires t.Valid() && hop.Valid() && Segment(v) && Represents(kv, t, edges) && e in edges && Follows(hop, v, e)
    requires Listing(kv, PrefixKeys(kv, HopPrefix(t, hop, v)), entries)
    ensures i < |entries| && entries[i].0 == DirKey(t, hop.dir, e)
  {
    assert ValidEdge(e);
    DirKeys(t, e);
    HopPrefixSelects(t, hop, v, hop.dir, e);
    var k := DirKey(t, hop.dir, e);
    assert k in KeysOf(entries);
    i :| 0 <= i < |entries| && entries[i].0 == k;
  }

  ghost function EdgeOf(t: Table, edges: map<EdgeId, Fields>, hop: HopSpec, v: str, k: Key): (e: EdgeId)
    requires exists e :: IsHopKey(t, edges, hop, v, e, k)
    ensures IsHopKey(t, edges, hop, v, e, k)
  {
    var e :| IsHopKey(t, edges, hop, v, e, k); e
  }

  // -------------------------------------------------------------------------
  // Key remainders
  // -------------------------------------------------------------------------

  /** Edge type and other end of a graph key remainder. */
  function ParseDirectedRemainder(remainder: seq<byte>): Result<(str, str)> {
    var parts := SplitN(3, remainder);
    if |parts| < 3 || parts[1] == [] || !Utf8(parts[1][1..]) || !Utf8(parts[2]) then Err(Error.Storage)
    else Ok((parts[1][1..], parts[2]))
  }

  function ParseOtherVertex(remainder: seq<byte>): Result<str> {
    var parts := SplitN(3, remainder);
    if |parts| < 3 || !Utf8(parts[2]) then Err(Error.Storage) else Ok(parts[2])
  }

  lemma RemainderParses(t: Table, dir: byte, e: EdgeId)
    requires t.Valid() && IsDir(dir) && ValidEdge(e)
    ensures ParseKey(DirKey(t, dir, e)).Ok?
    ensures ParseDirectedRemainder(ParseKey(DirKey(t, dir, e)).value.remainder) == Ok((e.edgeType, Far(dir, e)))
    ensures ParseOtherVertex(ParseKey(DirKey(t, dir, e)).value.remainder) == Ok(Far(dir, e))
  {
    DirKeyParses(t, dir, e);
    var parts := [Near(dir, e), [dir] + e.edgeType, Far(dir, e)];
    assert parts[1] == [dir] + e.edgeType && parts[2] == Far(dir, e) && parts[1][1..] == e.edgeType;
  }

  // -------------------------------------------------------------------------
  // Scans
  // -------------------------------------------------------------------------

  function WithProps(edges: map<EdgeId, Fields>, e: EdgeId): Edge {
    Edge(e, if e in edges then edges[e] else map[])
  }

  /** The key parses back to the edge type and far end of `e`. */
  ghost predicate ParsesTo(k: Key, dir: byte, e: EdgeId) {
    && ParseKey(k).Ok?
    && ParseDirectedRemainder(ParseKey(k).value.remainder) == Ok((e.edgeType, Far(dir, e)))
    && ParseOtherVertex(ParseKey(k).value.remainder) == Ok(Far(dir, e))
  }

  /** The prefix scan of a hop, with the edge behind every key. */
  method HopEntries(store: EdgeStore, v: str, hop: HopSpec, ghost edges: map<EdgeId, Fields>) returns (entries: seq<(Key, Blob)>, ghost es: seq<EdgeId>)
    requires store.t.Valid() && hop.Valid() && Segment(v) && Represents(store.storage.kv, store.t, edges)
    ensures ListsHop(edges, hop, v, es) && |entries| == |es|
    ensures forall i :: 0 <= i < |es| ==> es[i] in edges && ValidEdge(es[i]) && Near(hop.dir, es[i]) == v && ParsesTo(entries[i].0, hop.dir, es[i])
    ensures hop.dir == OUTGOING ==> forall i :: 0 <= i < |es| ==> PropsOf(entries[i].1) == edges[es[i]]
  {
    entries := store.storage.PrefixScan(HopPrefix(store.t, hop, v));
    ghost var kv := store.storage.kv;
    HopPrefixSelects(store.t, hop, v, OUTGOING, EdgeId([], [], []));
    es := ScanIsHop(kv, store.t, edges, hop, v, entries);
    forall i | 0 <= i < |es|
      ensures es[i] in edges && ValidEdge(es[i]) && Near(hop.dir, es[i]) == v && ParsesTo(entries[i].0, hop.dir, es[i])
      ensures hop.dir == OUTGOING ==> PropsOf(entries[i].1) == edges[es[i]]
    {
      assert es[i] in es;
      RemainderParses(store.t, hop.dir, es[i]);
      StoredIffEdge(kv, store.t, edges, es[i]);
      DirKeys(store.t, es[i]);
    }
  }

  function IdsOf(r: seq<Edge>): seq<EdgeId> {
    seq(|r|, i requires 0 <= i < |r| => r[i].id)
  }

  /** `r` lists the edges of a hop from `v`, each once, with its stored properties. */
  ghost predicate ReadsHop(edges: map<EdgeId, Fields>, hop: HopSpec, v: str, r: seq<Edge>) {
    ListsHop(edges, hop, v, IdsOf(r)) && forall i :: 0 <= i < |r| ==> r[i] == WithProps(edges, r[i].id)
  }

  method ScanOutgoing(store: EdgeStore, src: str, hop: HopSpec, ghost edges: map<EdgeId, Fields>) returns (r: seq<Edge>)
    requires store.t.Valid() && hop.Valid() && hop.dir == OUTGOING && Segment(src) && Represents(store.storage.kv, store.t, edges)
    ensures ReadsHop(edges, hop, src, r)
  {
    var entries;
    ghost var es;
    entries, es := HopEntries(store, src, hop, edges);
    r := ForwardEdges(entries, src, es, edges);
    assert IdsOf(r) == es;
  }

  method ForwardEdges(entries: seq<(Key, Blob)>, src: str, ghost es: seq<EdgeId>, ghost edges: map<EdgeId, Fields>) returns (r: seq<Edge>)
    requires |entries| == |es|
    requires forall i :: 0 <= i < |es| ==> es[i] in edges && ValidEdge(es[i]) && es[i].src == src && ParsesTo(entries[i].0, OUTGOING, es[i])
    requires forall i :: 0 <= i < |es| ==> PropsOf(entries[i].1) == edges[es[i]]
    ensures |r| == |es| && forall i :: 0 <= i < |es| ==> r[i] == WithProps(edges, es[i])
  {
    r := [];
    for i := 0 to |entries|
      invariant |r| == i
      invariant forall j :: 0 <= j < i ==> r[j] == WithProps(edges, es[j])
    {
      var edge := ForwardEdge(entries[i].0, entries[i].1, src, es[i], edges);
      r := r + [edge];
    }
  }

  /** Reverse entries carry no value: properties are read from the forward entry. */
  method ScanIncoming(store: EdgeStore, dst: str, hop: HopSpec, ghost edges: map<EdgeId, Fields>) returns (r: seq<Edge>)
    requires store.t.Valid() && hop.Valid() && hop.dir == INCOMING && Segment(dst) && Represents(store.storage.kv, store.t, edges)
    ensures ReadsHop(edges, hop, dst, r)
  {
    var entries;
    ghost var es;
    entries, es := HopEntries(store, dst, hop, edges);
    r := ReverseEdges(store, entries, dst, es, edges);
    assert IdsOf(r) == es;
  }

  method ReverseEdges(store: EdgeStore, entries: seq<(Key, Blob)>, dst: str, ghost es: seq<EdgeId>, ghost edges: map<EdgeId, Fields>) returns (r: seq<Edge>)
    requires store.t.Valid() && Represents(store.storage.kv, store.t, edges) && |entries| == |es|
    requires forall i :: 0 <= i < |es| ==> es[i] in edges && ValidEdge(es[i]) && es[i].dst == dst && ParsesTo(entries[i].0, INCOMING, es[i])
    ensures |r| == |es| && forall i :: 0 <= i < |es| ==> r[i] == WithProps(edges, es[i])
  {
    r := [];
    for i := 0 to |entries|
      invariant |r| == i
      invariant forall j :: 0 <= j < i ==> r[j] == WithProps(edges, es[j])
    {
      var edge := ReverseEdge(store, entries[i].0, dst, es[i], edges);
      r := r + [edge];
    }
  }

  method ReverseEdge(store: EdgeStore, k: Key, dst: str, ghost e: EdgeId, ghost edges: map<EdgeId, Fields>) returns (edge: Edge)
    requires store.t.Valid() && Represents(store.storage.kv, store.t, edges)
    requires e in edges && ValidEdge(e) && e.dst == dst && ParsesTo(k, INCOMING, e)
    ensures edge == WithProps(edges, e)
  {
    var parsed := ParseDirectedRemainder(ParseKey(k).value.remainder);
    var id := EdgeId(parsed.value.1, parsed.value.0, dst);
    assert id == e;
    var stored := store.Get(id, edges);
    edge := if stored.Some? then stored.value else Edge(id, map[]);
  }

  method ForwardEdge(k: Key, blob: Blob, src: str, ghost e: EdgeId, ghost edges: map<EdgeId, Fields>) returns (edge: Edge)
    requires e in edges && ValidEdge(e) && e.src == src && ParsesTo(k, OUTGOING, e) && PropsOf(blob) == edges[e]
    ensures edge == WithProps(edges, e)
  {
    var parsed := ParseDirectedRemainder(ParseKey(k).value.remainder);
    edge := Edge(EdgeId(src, parsed.value.0, parsed.value.1), PropsOf(blob));
  }

  method OtherEnd(k: Key, ghost dir: byte, ghost e: EdgeId) returns (other: str)
    requires ParsesTo(k, dir, e)
    ensures other == Far(dir, e)
  {
    other := ParseOtherVertex(ParseKey(k).value.remainder).value;
  }

  /** Key-only scan: the far ends of the hop, no properties read. */
  method ScanNeighbors(store: EdgeStore, v: str, hop: HopSpec, ghost edges: map<EdgeId, Fields>) returns (r: seq<str>)
    requires store.t.Valid() && hop.Valid() && Segment(v) && Represents(store.storage.kv, store.t, edges)
    ensures exists es :: ListsHop(edges, hop, v, es) && FarEnds(hop.dir, es, r)
  {
    var entries;
    ghost var es;
    entries, es := HopEntries(store, v, hop, edges);
    r := OtherEnds(entries, hop.dir, es);
  }

  predicate FarEnds(dir: byte, es: seq<EdgeId>, r: seq<str>) {
    |r| == |es| && forall i :: 0 <= i < |es| ==> r[i] == Far(dir, es[i])
  }

  method OtherEnds(entries: seq<(Key, Blob)>, ghost dir: byte, ghost es: seq<EdgeId>) returns (r: seq<str>)
    requires |entries| == |es| && forall i :: 0 <= i < |es| ==> ParsesTo(entries[i].0, dir, es[i])
    ensures FarEnds(dir, es, r)
  {
    r := [];
    for i := 0 to |entries|
      invariant |r| == i
      invariant forall j :: 0 <= j < i ==> r[j] == Far(dir, es[j])
    {
      var other := OtherEnd(entries[i].0, dir, es[i]);
      r := r + [other];
    }
  }

  method ScanHop(store: EdgeStore, v: str, hop: HopSpec, ghost edges: map<EdgeId, Fields>) returns (r: seq<Edge>)
    requires store.t.Valid() && hop.Valid() && Segment(v) && Represents(store.storage.kv, store.t, edges)
    ensures ReadsHop(edges, hop, v, r)
  {
    if hop.dir == OUTGOING {
      r := ScanOutgoing(store, v, hop, edges);
    } else {
      r := ScanIncoming(store, v, hop, edges);
    }
  }

  // -------------------------------------------------------------------------
  // Walks
  // -------------------------------------------------------------------------

  /** Where a trace of edges along `hops` ends. */
  function EndOf(start: str, hops: seq<HopSpec>, tr: seq<EdgeId>): str
    requires |tr| == |hops|
  {
    if tr == [] then start else Far(hops[|hops| - 1].dir, tr[|tr| - 1])
  }

  /** `tr` is one edge per hop, each leaving the vertex the previous one reached. */
  predicate IsTrace(edges: map<EdgeId, Fields>, start: str, hops: seq<HopSpec>, tr: seq<EdgeId>) {
    && |tr| == |hops|
    && (hops != [] ==>
         var n := |hops| - 1;
         IsTrace(edges, start, hops[..n], tr[..n]) && tr[n] in edges && Follows(hops[n], EndOf(start, hops[..n], tr[..n]), tr[n]))
  }

  /** The vertices a trace visits. */
  function PathOf(start: str, hops: seq<HopSpec>, tr: seq<EdgeId>): (p: seq<str>)
    requires |tr| == |hops|
    ensures |p| == |tr| + 1 && p[|tr|] == EndOf(start, hops, tr)
  {
    if tr == [] then [start]
    else
      var n := |tr| - 1;
      PathOf(start, hops[..n], tr[..n]) + [Far(hops[n].dir, tr[n])]
  }

  /** The path of a trace starts at `start`, and its `k`-th edge, of the hop's type, leads from its `k`-th vertex to the next. */
  lemma {:induction false} PathVisits(edges: map<EdgeId, Fields>, start: str, hops: seq<HopSpec>, tr: seq<EdgeId>, k: nat)
    requires IsTrace(edges, start, hops, tr) && k < |tr|
    ensures var p := PathOf(start, hops, tr);
      p[0] == start && tr[k] in edges && Follows(hops[k], p[k], tr[k]) && p[k + 1] == Far(hops[k].dir, tr[k])
  {
    var n := |tr| - 1;
    if k < n {
      PathVisits(edges, start, hops[..n], tr[..n], k);
    } else if n > 0 {
      PathVisits(edges, start, hops[..n], tr[..n], 0);
    }
  }

  lemma TraceExtends(edges: map<EdgeId, Fields>, start: str, hops: seq<HopSpec>, hop: HopSpec, tr: seq<EdgeId>, e: EdgeId)
    requires |tr| == |hops|
    ensures IsTrace(edges, start, hops + [hop], tr + [e]) <==> IsTrace(edges, start, hops, tr) && e in edges && Follows(hop, EndOf(start, hops, tr), e)
    ensures PathOf(start, hops + [hop], tr + [e]) == PathOf(start, hops, tr) + [Far(hop.dir, e)]
  {
    assert (hops + [hop])[..|hops|] == hops && (tr + [e])[..|tr|] == tr;
  }

  lemma TraceEndsAtName(edges: map<EdgeId, Fields>, start: str, hops: seq<HopSpec>, tr: seq<EdgeId>)
    requires IsTrace(edges, start, hops, tr) && Segment(start)
    requires forall e :: e in edges ==> ValidEdge(e)
    ensures Segment(EndOf(start, hops, tr))
  {
  }

  /** All traces along `hops`, each once, and the paths they visit. */
  ghost predicate AllTraces(edges: map<EdgeId, Fields>, start: str, hops: seq<HopSpec>, paths: seq<seq<str>>, traces: seq<seq<EdgeId>>) {
    && |paths| == |traces| && Distinct(traces)
    && (forall tr :: tr in traces <==> IsTrace(edges, start, hops, tr))
    && (forall i :: 0 <= i < |traces| ==> |traces[i]| == |hops| && paths[i] == PathOf(start, hops, traces[i]))
  }

  /** `tr` extends one of `traces` by an edge of the hop. */
  ghost predicate Extends(edges: map<EdgeId, Fields>, start: str, hops: seq<HopSpec>, hop: HopSpec, traces: seq<seq<EdgeId>>, tr: seq<EdgeId>) {
    && |tr| == |hops| + 1 && tr[..|hops|] in traces
    && tr[|hops|] in edges && Follows(hop, EndOf(start, hops, tr[..|hops|]), tr[|hops|])
  }

  ghost predicate PathsOf(start: str, hops: seq<HopSpec>, paths: seq<seq<str>>, traces: seq<seq<EdgeId>>) {
    |paths| == |traces| && forall i :: 0 <= i < |traces| ==> |traces[i]| == |hops| && paths[i] == PathOf(start, hops, traces[i])
  }

  /** One round of the walk: every path is extended by every edge of the hop. */
  method ExtendPaths(store: EdgeStore, hop: HopSpec, paths: seq<seq<str>>, ghost edges: map<EdgeId, Fields>, ghost start: str, ghost hops: seq<HopSpec>, ghost traces: seq<seq<EdgeId>>)
    returns (next: seq<seq<str>>, ghost nextTraces: seq<seq<EdgeId>>)
    requires store.t.Valid() && hop.Valid() && Segment(start) && Represents(store.storage.kv, store.t, edges)
    requires AllTraces(edges, start, hops, paths, traces)
    ensures AllTraces(edges, start, hops + [hop], next, nextTraces)
  {
    next, nextTraces := [], [];
    for i := 0 to |paths|
      invariant Distinct(nextTraces) && PathsOf(start, hops + [hop], next, nextTraces)
      invariant forall tr :: tr in nextTraces <==> Extends(edges, start, hops, hop, traces[..i], tr)
    {
      assert traces[i] in traces;
      var more, es := ExtendOne(store, hop, paths[i], edges, start, hops, traces[i]);
      ghost var moreTraces := Appended(traces[i], es);
      TracesSoFar(edges, start, hops, hop, traces, i, es, nextTraces);
      PathsConcat(start, hops + [hop], next, nextTraces, more, moreTraces);
      next, nextTraces := next + more, nextTraces + moreTraces;
    }
    assert traces[..|traces|] == traces;
    ExtendedTraces(edges, start, hops, hop, traces, nextTraces);
  }

  lemma PathsConcat(start: str, hops: seq<HopSpec>, paths: seq<seq<str>>, traces: seq<seq<EdgeId>>, more: seq<seq<str>>, moreTraces: seq<seq<EdgeId>>)
    requires PathsOf(start, hops, paths, traces) && PathsOf(start, hops, more, moreTraces)
    ensures PathsOf(start, hops, paths + more, traces + moreTraces)
  {
  }

  lemma ExtendedTraces(edges: map<EdgeId, Fields>, start: str, hops: seq<HopSpec>, hop: HopSpec, traces: seq<seq<EdgeId>>, next: seq<seq<EdgeId>>)
    requires forall tr :: tr in traces <==> IsTrace(edges, start, hops, tr)
    requires forall tr :: tr in next <==> Extends(edges, start, hops, hop, traces, tr)
    ensures forall tr :: tr in next <==> IsTrace(edges, start, hops + [hop], tr)
  {
    forall tr ensures tr in next <==> IsTrace(edges, start, hops + [hop], tr) {
      if |tr| == |hops| + 1 {
        assert tr == tr[..|hops|] + [tr[|hops|]];
        TraceExtends(edges, start, hops, hop, tr[..|hops|], tr[|hops|]);
      }
    }
  }

  ghost function Appended(tr: seq<EdgeId>, es: seq<EdgeId>): (more: seq<seq<EdgeId>>)
    ensures |more| == |es| && forall k :: 0 <= k < |es| ==> more[k] == tr + [es[k]]
  {
    seq(|es|, k requires 0 <= k < |es| => tr + [es[k]])
  }

  method ExtendOne(store: EdgeStore, hop: HopSpec, path: seq<str>, ghost edges: map<EdgeId, Fields>, ghost start: str, ghost hops: seq<HopSpec>, ghost tr: seq<EdgeId>)
    returns (more: seq<seq<str>>, ghost es: seq<EdgeId>)
    requires store.t.Valid() && hop.Valid() && Segment(start) && Represents(store.storage.kv, store.t, edges)
    requires IsTrace(edges, start, hops, tr) && path == PathOf(start, hops, tr)
    ensures ListsHop(edges, hop, EndOf(start, hops, tr), es)
    ensures PathsOf(start, hops + [hop], more, Appended(tr, es))
  {
    var current := path[|path| - 1];
    assert forall e :: e in edges ==> ValidEdge(e);
    TraceEndsAtName(edges, start, hops, tr);
    var found := ScanHop(store, current, hop, edges);
    es := IdsOf(found);
    more := [];
    for k := 0 to |found|
      invariant |more| == k
      invariant forall j :: 0 <= j < k ==> more[j] == path + [Far(hop.dir, es[j])]
    {
      var next := if hop.dir == OUTGOING then found[k].id.dst else found[k].id.src;
      more := more + [path + [next]];
    }
    forall k | 0 <= k < |es| ensures more[k] == PathOf(start, hops + [hop], tr + [es[k]]) {
      TraceExtends(edges, start, hops, hop, tr, es[k]);
    }
  }

  lemma TracesSoFar(edges: map<EdgeId, Fields>, start: str, hops: seq<HopSpec>, hop: HopSpec, traces: seq<seq<EdgeId>>, i: nat,
                    es: seq<EdgeId>, before: seq<seq<EdgeId>>)
    requires i < |traces| && Distinct(traces) && Distinct(before) && |traces[i]| == |hops|
    requires ListsHop(edges, hop, EndOf(start, hops, traces[i]), es)
    requires forall tr :: tr in before <==> Extends(edges, start, hops, hop, traces[..i], tr)
    ensures Distinct(before + Appended(traces[i], es))
    ensures forall tr :: tr in before + Appended(traces[i], es) <==> Extends(edges, start, hops, hop, traces[..i + 1], tr)
  {
    var old_, more := traces[i], Appended(traces[i], es);
    forall tr ensures tr in more <==> Extends(edges, start, hops, hop, [old_], tr) {
      AppendedMembers(edges, start, hops, hop, old_, es, tr);
    }
    assert traces[..i + 1] == traces[..i] + [old_];
    forall tr | tr in before ensures tr !in more {
      assert Extends(edges, start, hops, hop, traces[..i], tr);
    }
    forall j, k | 0 <= j < k < |more| ensures more[j] != more[k] {
      assert more[j][|hops|] == es[j] && more[k][|hops|] == es[k];
    }
    DistinctConcat(before, more);
    forall tr ensures Extends(edges, start, hops, hop, traces[..i + 1], tr) <==>
      Extends(edges, start, hops, hop, traces[..i], tr) || Extends(edges, start, hops, hop, [old_], tr) {}
  }

  lemma AppendedMembers(edges: map<EdgeId, Fields>, start: str, hops: seq<HopSpec>, hop: HopSpec, head: seq<EdgeId>, es: seq<EdgeId>, tr: seq<EdgeId>)
    requires |head| == |hops| && ListsHop(edges, hop, EndOf(start, hops, head), es)
    ensures tr in Appended(head, es) <==> Extends(edges, start, hops, hop, [head], tr)
  {
    if tr in Appended(head, es) {
      var k :| 0 <= k < |es| && tr == head + [es[k]];
      assert es[k] in es && tr[..|hops|] == head;
    }
    if Extends(edges, start, hops, hop, [head], tr) {
      assert tr[..|hops|] == head;
      var k :| 0 <= k < |es| && es[k] == tr[|hops|];
      assert Appended(head, es)[k] == tr;
    }
  }

  lemma DistinctConcat<T(!new)>(a: seq<T>, b: seq<T>)
    requires Distinct(a) && Distinct(b) && forall x :: x in a ==> x !in b
    ensures Distinct(a + b)
  {
    forall i, j | 0 <= i < j < |a + b| ensures (a + b)[i] != (a + b)[j] {
      if i < |a| <= j {
        assert a[i] in a && b[j - |a|] in b;
      }
    }
  }

  /** `walk` returns one path per hop-labelled edge trace from `start`, all of them, each trace once. */
  method Walk(store: EdgeStore, start: str, hops: seq<HopSpec>, ghost edges: map<EdgeId, Fields>)
    returns (paths: seq<seq<str>>)
    requires store.t.Valid() && Segment(start) && Represents(store.storage.kv, store.t, edges)
    requires forall h :: h in hops ==> h.Valid()
    ensures exists traces :: AllTraces(edges, start, hops, paths, traces)
  {
    ghost var traces;
    paths, traces := [[start]], [[]];
    assert PathOf(start, [], []) == [start];
    for i := 0 to |hops|
      invariant AllTraces(edges, start, hops[..i], paths, traces)
    {
      assert hops[..i + 1] == hops[..i] + [hops[i]];
      paths, traces := ExtendPaths(store, hops[i], paths, edges, start, hops[..i], traces);
    }
    assert hops[..|hops|] == hops;
  }

  // -------------------------------------------------------------------------
  // SELECT traversal: the deduplicated frontier
  // -------------------------------------------------------------------------

  /** One hop of a traversal chain; the edge type names the edge table too. */
  datatype ChainHop = ChainHop(dir: byte, edgeType: str)

  type Graph = map<str, map<EdgeId, Fields>>

  ghost predicate GraphStored(kv: Kv, ns: str, db: str, graph: Graph, hops: seq<ChainHop>) {
    forall h :: h in hops ==> HopStored(kv, ns, db, graph, h)
  }

  ghost predicate HopStored(kv: Kv, ns: str, db: str, graph: Graph, h: ChainHop) {
    && IsDir(h.dir) && h.edgeType in graph && Table(ns, db, h.edgeType).Valid()
    && Represents(kv, Table(ns, db, h.edgeType), graph[h.edgeType])
  }

  /** Some edge of the hop's type leads from `u` to `v`. */
  ghost predicate Linked(graph: Graph, hop: ChainHop, u: str, v: str) {
    exists e :: hop.edgeType in graph && e in graph[hop.edgeType] && e.edgeType == hop.edgeType && Near(hop.dir, e) == u && Far(hop.dir, e) == v
  }

  /** `v` is reached from `u` along all hops. */
  ghost predicate Chained(graph: Graph, hops: seq<ChainHop>, u: str, v: str) {
    if hops == [] then u == v
    else
      var init, last := hops[..|hops| - 1], hops[|hops| - 1];
      exists w :: Chained(graph, init, u, w) && Linked(graph, last, w, v)
  }

  /** One hop over the whole frontier, first occurrences kept in order. */
  method NextFrontier(storage: Storage, ns: str, db: str, hop: ChainHop, current: seq<str>, ghost graph: Graph) returns (next: seq<str>)
    requires GraphStored(storage.kv, ns, db, graph, [hop])
    requires forall u :: u in current ==> Segment(u)
    ensures Distinct(next)
    ensures forall v :: v in next ==> Segment(v)
    ensures forall v :: v in next <==> exists u :: u in current && Linked(graph, hop, u, v)
  {
    assert hop in [hop];
    ghost var edges := graph[hop.edgeType];
    var store := new EdgeStore(storage, Table(ns, db, hop.edgeType));
    var spec := HopSpec(hop.dir, Some(hop.edgeType));
    next := [];
    var seen: set<str> := {};
    for i := 0 to |current|
      invariant Distinct(next) && seen == (set v | v in next)
      invariant forall v :: v in next ==> Segment(v)
      invariant forall v :: v in next <==> exists u :: u in current[..i] && Linked(graph, hop, u, v)
    {
      var u := current[i];
      assert u in current;
      var neighbors := ScanNeighbors(store, u, spec, edges);
      ghost var es :| ListsHop(edges, spec, u, es) && FarEnds(spec.dir, es, neighbors);
      ghost var before := next;
      for j := 0 to |neighbors|
        invariant Distinct(next) && seen == (set v | v in next)
        invariant forall v :: v in next <==> v in before || v in neighbors[..j]
      {
        if neighbors[j] !in seen {
          seen := seen + {neighbors[j]};
          next := next + [neighbors[j]];
        }
      }
      assert neighbors[..|neighbors|] == neighbors;
      NeighborsLinked(graph, hop, u, spec, neighbors, es);
      assert current[..i + 1] == current[..i] + [u];
      forall v ensures v in next <==> exists u' :: u' in current[..i + 1] && Linked(graph, hop, u', v) {
        if v in before {
          var u' :| u' in current[..i] && Linked(graph, hop, u', v);
          assert u' in current[..i + 1];
        }
        if v in neighbors {
          assert u in current[..i + 1];
        }
      }
    }
    assert current[..|current|] == current;
  }

  lemma NeighborsLinked(graph: Graph, hop: ChainHop, u: str, spec: HopSpec, neighbors: seq<str>, es: seq<EdgeId>)
    requires hop.edgeType in graph && spec == HopSpec(hop.dir, Some(hop.edgeType))
    requires forall e :: e in graph[hop.edgeType] ==> ValidEdge(e)
    requires ListsHop(graph[hop.edgeType], spec, u, es)
    requires FarEnds(hop.dir, es, neighbors)
    ensures forall v :: v in neighbors <==> Linked(graph, hop, u, v)
    ensures forall v :: v in neighbors ==> Segment(v)
  {
    forall v ensures v in neighbors <==> Linked(graph, hop, u, v) {
      if v in neighbors {
        var i :| 0 <= i < |neighbors| && neighbors[i] == v;
        assert es[i] in es;
      }
      if Linked(graph, hop, u, v) {
        var e :| e in graph[hop.edgeType] && e.edgeType == hop.edgeType && Near(hop.dir, e) == u && Far(hop.dir, e) == v;
        assert e in es;
        var i :| 0 <= i < |es| && es[i] == e;
        assert neighbors[i] == v;
      }
    }
    forall v | v in neighbors ensures Segment(v) {
      var i :| 0 <= i < |neighbors| && neighbors[i] == v;
      assert es[i] in es && ValidEdge(es[i]);
    }
  }

  /** The frontier after all hops is the endpoint set of the composed hop relations, without repeats. */
  method Frontier(storage: Storage, ns: str, db: str, hops: seq<ChainHop>, starts: seq<str>, ghost graph: Graph) returns (ids: seq<str>)
    requires GraphStored(storage.kv, ns, db, graph, hops)
    requires forall u :: u in starts ==> Segment(u)
    ensures hops != [] ==> Distinct(ids)
    ensures forall v :: v in ids <==> exists u :: u in starts && Chained(graph, hops, u, v)
  {
    ids := starts;
    for i := 0 to |hops|
      invariant i > 0 ==> Distinct(ids)
      invariant forall v :: v in ids ==> Segment(v)
      invariant forall v :: v in ids <==> exists u :: u in starts && Chained(graph, hops[..i], u, v)
    {
      assert hops[i] in hops;
      ghost var before := ids;
      ids := NextFrontier(storage, ns, db, hops[i], ids, graph);
      assert hops[..i + 1][..i] == hops[..i] && hops[..i + 1][i] == hops[i];
      forall v ensures v in ids <==> exists u :: u in starts && Chained(graph, hops[..i + 1], u, v) {
        if v in ids {
          var w :| w in before && Linked(graph, hops[i], w, v);
          var u :| u in starts && Chained(graph, hops[..i], u, w);
          assert Chained(graph, hops[..i + 1], u, v);
        }
        if u :| u in starts && Chained(graph, hops[..i + 1], u, v) {
          var w :| Chained(graph, hops[..i], u, w) && Linked(graph, hops[i], w, v);
          assert w in before;
        }
      }
    }
    assert hops[..|hops|] == hops;
  }

  // -------------------------------------------------------------------------
  // Whole-table scan
  // -------------------------------------------------------------------------

  /** `scan_all_edges`: every edge once as `(src, dst)`, reverse entries skipped. */
  method ScanAllEdges(store: EdgeStore, ghost edges: map<EdgeId, Fields>) returns (r: seq<(str, str)>)
    requires store.t.Valid() && Represents(store.storage.kv, store.t, edges)
    ensures exists es :: ListsAll(edges, es) && EndsOf(es, r)
  {
    ghost var es;
    var t := store.t;
    ghost var kv := store.storage.kv;
    var p := TablePrefix(t, GRAPH_EDGE);
    assert p[|Sep(t.ns)| - 1] == SEPARATOR;
    var entries := store.storage.PrefixScan(p);
    r, es := [], [];
    for i := 0 to |entries|
      invariant Scanned(t, edges, KeysOf(entries)[..i], r, es)
    {
      var k := entries[i].0;
      assert KeysOf(entries)[..i + 1] == KeysOf(entries)[..i] + [k];
      ghost var e, dir := EdgeBehind(kv, t, edges, k);
      FreshKey(entries, i);
      var pair := OutgoingPair(k, e, dir);
      ScannedStep(t, edges, KeysOf(entries)[..i], r, es, k, e, dir);
      if pair.Some? {
        r, es := r + [pair.value], es + [e];
      }
    }
    assert KeysOf(entries)[..|entries|] == KeysOf(entries);
    forall e | e in edges ensures OutKey(t, e) in KeysOf(entries) {
      assert ValidEdge(e);
      DirKeys(t, e);
    }
    assert ListsAll(edges, es) && EndsOf(es, r);
  }

  /** Every edge once. */
  ghost predicate ListsAll(edges: map<EdgeId, Fields>, es: seq<EdgeId>) {
    Distinct(es) && forall e :: e in es <==> e in edges
  }

  predicate EndsOf(es: seq<EdgeId>, r: seq<(str, str)>) {
    |r| == |es| && forall i :: 0 <= i < |es| ==> r[i] == (es[i].src, es[i].dst)
  }

  /** The edges whose forward key has been seen, with their ends. */
  ghost predicate Scanned(t: Table, edges: map<EdgeId, Fields>, keys: seq<Key>, r: seq<(str, str)>, es: seq<EdgeId>) {
    && Distinct(es) && EndsOf(es, r)
    && forall e :: e in es <==> e in edges && OutKey(t, e) in keys
  }

  lemma ScannedStep(t: Table, edges: map<EdgeId, Fields>, keys: seq<Key>, r: seq<(str, str)>, es: seq<EdgeId>, k: Key, e: EdgeId, dir: byte)
    requires Scanned(t, edges, keys, r, es) && k !in keys && e in edges
    requires (k == OutKey(t, e) <==> dir == OUTGOING) && forall f :: f in edges && OutKey(t, f) == k ==> f == e && dir == OUTGOING
    ensures if dir == OUTGOING then Scanned(t, edges, keys + [k], r + [(e.src, e.dst)], es + [e]) else Scanned(t, edges, keys + [k], r, es)
  {
    if dir == OUTGOING {
      assert e !in es;
      DistinctConcat(es, [e]);
    }
  }

  /** The ends of an outgoing entry; reverse entries are skipped. */
  method OutgoingPair(k: Key, ghost e: EdgeId, ghost dir: byte) returns (pair: Option<(str, str)>)
    requires ValidEdge(e) && IsDir(dir)
    requires ParseKey(k).Ok? && SplitN(3, ParseKey(k).value.remainder) == [Near(dir, e), [dir] + e.edgeType, Far(dir, e)]
    ensures pair == if dir == OUTGOING then Some((e.src, e.dst)) else None
  {
    var parsed := ParseKey(k);
    var segs := SplitN(3, parsed.value.remainder);
    pair := None;
    if |segs| == 3 && segs[1] != [] && segs[1][0] == OUTGOING && Utf8(segs[0]) && Utf8(segs[2]) {
      pair := Some((segs[0], segs[2]));
    }
  }

  /** The edge and direction a graph key belongs to, and how it parses. */
  lemma EdgeBehind(kv: Kv, t: Table, edges: map<EdgeId, Fields>, k: Key) returns (e: EdgeId, dir: byte)
    requires t.Valid() && Represents(kv, t, edges) && k in kv && TablePrefix(t, GRAPH_EDGE) <= k
    ensures e in edges && ValidEdge(e) && IsDir(dir)
    ensures ParseKey(k).Ok? && SplitN(3, ParseKey(k).value.remainder) == [Near(dir, e), [dir] + e.edgeType, Far(dir, e)]
    ensures forall f :: f in edges && OutKey(t, f) == k ==> f == e
    ensures k == OutKey(t, e) <==> dir == OUTGOING
    ensures forall f :: f in edges && OutKey(t, f) == k ==> dir == OUTGOING
  {
    assert Owned(t, edges, k);
    e :| e in edges && KeyOf(t, e, k);
    assert ValidEdge(e);
    dir := if k == OutKey(t, e) then OUTGOING else INCOMING;
    DirKeys(t, e);
    DirKeyParses(t, dir, e);
    forall f | f in edges && OutKey(t, f) == k ensures dir == OUTGOING && f == e {
      assert ValidEdge(f);
      DirKeys(t, f);
      DirKeyInjective(t, OUTGOING, f, dir, e);
    }
  }

  lemma FreshKey(entries: seq<(Key, Blob)>, i: nat)
    requires i < |entries| && Increasing(KeysOf(entries))
    ensures entries[i].0 !in KeysOf(entries)[..i]
  {
    LtIrreflexive(entries[i].0);
  }
}
