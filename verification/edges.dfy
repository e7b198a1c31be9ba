/** Graph edges as mirrored key pairs (crates/graph/src/store.rs). */
module Edges {
  import opened Bytes
  import opened Wrappers
  import opened Records
  import opened Keys
  import opened StorageModel

  datatype EdgeId = EdgeId(src: str, edgeType: str, dst: str)

  datatype Edge = Edge(id: EdgeId, properties: Fields)

  predicate Name(s: str) {
    Segment(s) && Utf8(s)
  }

  predicate ValidEdge(e: EdgeId) {
    Name(e.src) && Name(e.edgeType) && Name(e.dst)
  }

  function OutKey(t: Table, e: EdgeId): Key {
    OutgoingKey(t, e.src, e.edgeType, e.dst)
  }

  function InKey(t: Table, e: EdgeId): Key {
    IncomingKey(t, e.dst, e.edgeType, e.src)
  }

  /** Empty property maps are stored as an empty value. */
  function PropsBlobOf(props: Fields): Blob {
    if props == map[] then Empty else PropsBlob(props)
  }

  function PropsOf(blob: Blob): Fields {
    if blob.PropsBlob? then blob.props else map[]
  }

  /** `k` is one of the two keys of `e`. */
  predicate KeyOf(t: Table, e: EdgeId, k: Key) {
    k == OutKey(t, e) || k == InKey(t, e)
  }

  /**
   The graph region of `t` holds exactly the forward and reverse keys of
   `edges`, properties on the forward side.
   */
  ghost predicate Represents(kv: Kv, t: Table, edges: map<EdgeId, Fields>) {
    && (forall e {:trigger ValidEdge(e)} {:trigger OutKey(t, e)} {:trigger InKey(t, e)} :: e in edges ==>
         && ValidEdge(e)
         && OutKey(t, e) in kv && kv[OutKey(t, e)] == PropsBlobOf(edges[e])
         && InKey(t, e) in kv && kv[InKey(t, e)] == Empty)
    && (forall k {:trigger Owned(t, edges, k)} :: k in kv && TablePrefix(t, GRAPH_EDGE) <= k ==> Owned(t, edges, k))
  }

  /** Some edge owns the key. */
  ghost predicate Owned(t: Table, edges: map<EdgeId, Fields>, k: Key) {
    exists e :: e in edges && KeyOf(t, e, k)
  }

  // -------------------------------------------------------------------------
  // Edge keys
  // -------------------------------------------------------------------------

  /** The end of an edge that a direction starts from. */
  function Near(dir: byte, e: EdgeId): str {
    if dir == OUTGOING then e.src else e.dst
  }

  function Far(dir: byte, e: EdgeId): str {
    if dir == OUTGOING then e.dst else e.src
  }

  function DirKey(t: Table, dir: byte, e: EdgeId): Key {
    EdgeKey(t, dir, Near(dir, e), e.edgeType, Far(dir, e))
  }

  lemma DirKeys(t: Table, e: EdgeId)
    ensures OutKey(t, e) == DirKey(t, OUTGOING, e) && InKey(t, e) == DirKey(t, INCOMING, e)
    ensures TablePrefix(t, GRAPH_EDGE) <= OutKey(t, e) && TablePrefix(t, GRAPH_EDGE) <= InKey(t, e)
  {
  }

  predicate IsDir(dir: byte) {
    dir == OUTGOING || dir == INCOMING
  }

  /** Reading an edge key back. */
  lemma DirKeyParses(t: Table, dir: byte, e: EdgeId)
    requires t.Valid() && IsDir(dir) && ValidEdge(e)
    ensures ParseKey(DirKey(t, dir, e)).Ok?
    ensures SplitN(3, ParseKey(DirKey(t, dir, e)).value.remainder) == [Near(dir, e), [dir] + e.edgeType, Far(dir, e)]
  {
    EdgeKeyParses(t, dir, Near(dir, e), e.edgeType, Far(dir, e));
  }

  /** Forward and reverse keys of all edges are pairwise distinct. */
  lemma DirKeyInjective(t: Table, dir: byte, e: EdgeId, dir': byte, e': EdgeId)
    requires t.Valid() && IsDir(dir) && IsDir(dir') && ValidEdge(e) && ValidEdge(e')
    requires DirKey(t, dir, e) == DirKey(t, dir', e')
    ensures dir == dir' && e == e'
  {
    DirKeyParses(t, dir, e);
    DirKeyParses(t, dir', e');
    var parts, parts' := [Near(dir, e), [dir] + e.edgeType, Far(dir, e)], [Near(dir', e'), [dir'] + e'.edgeType, Far(dir', e')];
    assert parts == parts';
    assert parts[0] == parts'[0] && parts[1] == parts'[1] && parts[2] == parts'[2];
    assert parts[1][0] == dir && parts'[1][0] == dir';
    assert parts[1][1..] == e.edgeType && parts'[1][1..] == e'.edgeType;
  }

  /** The vertex prefix selects the keys of that direction at that vertex. */
  lemma VertexPrefixSelects(t: Table, dir: byte, v: str, dir': byte, e: EdgeId)
    requires t.Valid() && IsDir(dir) && IsDir(dir') && ValidEdge(e) && Segment(v)
    ensures VertexPrefix(t, dir, v) <= DirKey(t, dir', e) <==> dir == dir' && v == Near(dir', e)
  {
    var p, k, tp := VertexPrefix(t, dir, v), DirKey(t, dir', e), TablePrefix(t, GRAPH_EDGE);
    var rest := Sep([dir'] + e.edgeType) + Far(dir', e);
    assert k == tp + (Sep(Near(dir', e)) + rest);
    if p <= k {
      var s := k[|p|..];
      assert p + s == tp + Sep(v) + ([dir] + s);
      SamePlace(tp, Sep(v), [dir] + s, Sep(Near(dir', e)), rest, k);
      SepInjective(v, [dir] + s, Near(dir', e), rest);
      assert rest[0] == dir' && ([dir] + s)[0] == dir;
    }
  }

  /** Two readings of one key after the same start agree. */
  lemma SamePlace(start: Key, a: Key, b: Key, c: Key, d: Key, k: Key)
    requires k == start + a + b && k == start + (c + d)
    ensures a + b == c + d
  {
    assert k[|start|..] == a + b;
    assert k[|start|..] == c + d;
  }

  lemma TypedPrefixSelects(t: Table, dir: byte, v: str, edgeType: str, dir': byte, e: EdgeId)
    requires t.Valid() && IsDir(dir) && IsDir(dir') && ValidEdge(e) && Segment(v) && Segment(edgeType)
    ensures VertexTypedPrefix(t, dir, v, edgeType) <= DirKey(t, dir', e) <==> dir == dir' && v == Near(dir', e) && edgeType == e.edgeType
  {
    var p, k, q := VertexTypedPrefix(t, dir, v, edgeType), DirKey(t, dir', e), TablePrefix(t, GRAPH_EDGE) + Sep(v);
    VertexPrefixSelects(t, dir, v, dir', e);
    assert VertexPrefix(t, dir, v) <= p;
    if p <= k {
      var s := k[|p|..];
      assert k == q + (Sep([dir] + edgeType) + s) && k == q + (Sep([dir'] + e.edgeType) + Far(dir', e));
      assert k[|q|..] == Sep([dir] + edgeType) + s && k[|q|..] == Sep([dir'] + e.edgeType) + Far(dir', e);
      SepInjective([dir] + edgeType, s, [dir'] + e.edgeType, Far(dir', e));
      assert ([dir] + edgeType)[1..] == edgeType && ([dir'] + e.edgeType)[1..] == e.edgeType;
    }
  }

  // -------------------------------------------------------------------------
  // Writes
  // -------------------------------------------------------------------------

  /** Outside the graph region of `t` nothing changed. */
  ghost predicate GraphOnly(kv: Kv, kv': Kv, t: Table) {
    forall k :: !(TablePrefix(t, GRAPH_EDGE) <= k) ==> (if k in kv then k in kv' && kv'[k] == kv[k] else k !in kv')
  }

  function RelatePuts(t: Table, e: EdgeId, props: Fields): seq<(Key, Blob)> {
    [(OutKey(t, e), PropsBlobOf(props)), (InKey(t, e), Empty)]
  }

  /** Changing the two entries of one edge changes the edge map at that edge only. */
  lemma EdgeChange(kv: Kv, kv': Kv, t: Table, edges: map<EdgeId, Fields>, edges': map<EdgeId, Fields>, e: EdgeId)
    requires t.Valid() && ValidEdge(e) && Represents(kv, t, edges)
    requires forall k :: !KeyOf(t, e, k) ==> (if k in kv then k in kv' && kv'[k] == kv[k] else k !in kv')
    requires forall f :: f != e ==> if f in edges then f in edges' && edges'[f] == edges[f] else f !in edges'
    requires e in edges' ==> OutKey(t, e) in kv' && InKey(t, e) in kv' && kv'[OutKey(t, e)] == PropsBlobOf(edges'[e]) && kv'[InKey(t, e)] == Empty
    requires e !in edges' ==> OutKey(t, e) !in kv' && InKey(t, e) !in kv'
    ensures Represents(kv', t, edges') && GraphOnly(kv, kv', t)
  {
    DirKeys(t, e);
    forall f | f in edges' && f != e
      ensures ValidEdge(f) && !KeyOf(t, e, OutKey(t, f)) && !KeyOf(t, e, InKey(t, f))
    {
      assert f in edges && ValidEdge(f);
      KeysApart(t, e, f);
    }
    forall k | k in kv' && TablePrefix(t, GRAPH_EDGE) <= k ensures Owned(t, edges', k) {
      if KeyOf(t, e, k) {
        assert e in edges';
      } else {
        assert Owned(t, edges, k);
        var f :| f in edges && KeyOf(t, f, k);
        assert f in edges';
      }
    }
  }

  lemma RelateEffect(kv: Kv, t: Table, edges: map<EdgeId, Fields>, e: EdgeId, props: Fields)
    requires t.Valid() && ValidEdge(e) && Represents(kv, t, edges)
    ensures Represents(ApplyPuts(kv, RelatePuts(t, e, props)), t, edges[e := props])
    ensures GraphOnly(kv, ApplyPuts(kv, RelatePuts(t, e, props)), t)
  {
    ApplyTwo(kv, OutKey(t, e), PropsBlobOf(props), InKey(t, e), Empty);
    DistinctPair(t, e);
    EdgeChange(kv, ApplyPuts(kv, RelatePuts(t, e, props)), t, edges, edges[e := props], e);
  }

  lemma ApplyTwo(kv: Kv, a: Key, x: Blob, b: Key, y: Blob)
    ensures ApplyPuts(kv, [(a, x), (b, y)]) == kv[a := x][b := y]
  {
    var kv1 := kv[a := x];
    assert [(a, x), (b, y)][1..] == [(b, y)];
    assert ApplyPuts(kv1, [(b, y)]) == ApplyPuts(kv1[b := y], [(b, y)][1..]);
  }

  lemma DistinctPair(t: Table, e: EdgeId)
    requires t.Valid() && ValidEdge(e)
    ensures OutKey(t, e) != InKey(t, e)
  {
    DirKeys(t, e);
    if OutKey(t, e) == InKey(t, e) { DirKeyInjective(t, OUTGOING, e, INCOMING, e); }
  }

  lemma KeysApart(t: Table, e: EdgeId, f: EdgeId)
    requires t.Valid() && ValidEdge(e) && ValidEdge(f) && e != f
    ensures !KeyOf(t, e, OutKey(t, f)) && !KeyOf(t, e, InKey(t, f))
  {
    DirKeys(t, e);
    DirKeys(t, f);
    forall d, d' | d in {OUTGOING, INCOMING} && d' in {OUTGOING, INCOMING} ensures DirKey(t, d, e) != DirKey(t, d', f) {
      if DirKey(t, d, e) == DirKey(t, d', f) { DirKeyInjective(t, d, e, d', f); }
    }
  }

  class EdgeStore {
    const storage: Storage
    const t: Table

    constructor (storage: Storage, t: Table)
      ensures this.storage == storage && this.t == t
    {
      this.storage, this.t := storage, t;
    }

    /** Writes or overwrites an edge, both entries at once. */
    method Relate(e: EdgeId, props: Fields, ghost edges: map<EdgeId, Fields>)
      requires t.Valid() && ValidEdge(e) && Represents(storage.kv, t, edges)
      modifies storage
      ensures Represents(storage.kv, t, edges[e := props])
      ensures GraphOnly(old(storage.kv), storage.kv, t)
      ensures storage.kv == ApplyPuts(old(storage.kv), RelatePuts(t, e, props))
    {
      RelateEffect(storage.kv, t, edges, e, props);
      storage.PutBatch(RelatePuts(t, e, props));
    }

    method Get(e: EdgeId, ghost edges: map<EdgeId, Fields>) returns (r: Option<Edge>)
      requires t.Valid() && ValidEdge(e) && Represents(storage.kv, t, edges)
      ensures r == if e in edges then Some(Edge(e, edges[e])) else None
    {
      var blob := storage.Get(OutKey(t, e));
      StoredIffEdge(storage.kv, t, edges, e);
      r := if blob.None? then None else Some(Edge(e, PropsOf(blob.value)));
    }

    /** Removes both entries of an edge; false when it was not there. */
    method Delete(e: EdgeId, ghost edges: map<EdgeId, Fields>) returns (existed: bool)
      requires t.Valid() && ValidEdge(e) && Represents(storage.kv, t, edges)
      modifies storage
      ensures existed == (e in edges)
      ensures Represents(storage.kv, t, edges - {e})
      ensures GraphOnly(old(storage.kv), storage.kv, t)
    {
      ghost var kv := storage.kv;
      existed := storage.Contains(OutKey(t, e));
      StoredIffEdge(kv, t, edges, e);
      if existed {
        storage.DeleteBatch([OutKey(t, e), InKey(t, e)]);
        EdgeChange(kv, storage.kv, t, edges, edges - {e}, e);
      } else {
        assert edges - {e} == edges;
      }
    }

    /** Replaces the properties of an existing edge; the reverse entry is untouched. */
    method UpdateProperties(e: EdgeId, props: Fields, ghost edges: map<EdgeId, Fields>) returns (r: Result<()>)
      requires t.Valid() && ValidEdge(e) && Represents(storage.kv, t, edges)
      modifies storage
      ensures r == if e in edges then Ok(()) else Err(NotFound)
      ensures Represents(storage.kv, t, if e in edges then edges[e := props] else edges)
      ensures GraphOnly(old(storage.kv), storage.kv, t)
    {
      StoredIffEdge(storage.kv, t, edges, e);
      var existed := storage.Contains(OutKey(t, e));
      if !existed {
        return Err(NotFound);
      }
      DistinctPair(t, e);
      ghost var kv := storage.kv;
      storage.Put(OutKey(t, e), PropsBlobOf(props));
      EdgeChange(kv, storage.kv, t, edges, edges[e := props], e);
      r := Ok(());
    }
  }

  /** A forward key is stored exactly for the edges, and so is the reverse key. */
  lemma StoredIffEdge(kv: Kv, t: Table, edges: map<EdgeId, Fields>, e: EdgeId)
    requires t.Valid() && ValidEdge(e) && Represents(kv, t, edges)
    ensures OutKey(t, e) in kv <==> e in edges
    ensures InKey(t, e) in kv <==> e in edges
    ensures e in edges ==> PropsOf(kv[OutKey(t, e)]) == edges[e]
  {
    DirKeys(t, e);
    if OutKey(t, e) in kv {
      assert Owned(t, edges, OutKey(t, e));
      var f :| f in edges && KeyOf(t, f, OutKey(t, e));
      assert ValidEdge(f);
      if f != e { KeysApart(t, f, e); }
    }
    if InKey(t, e) in kv {
      assert Owned(t, edges, InKey(t, e));
      var f :| f in edges && KeyOf(t, f, InKey(t, e));
      assert ValidEdge(f);
      if f != e { KeysApart(t, f, e); }
    }
  }

  /** The mirrored entries determine the edge set and its properties. */
  lemma RepresentsUnique(kv: Kv, t: Table, edges: map<EdgeId, Fields>, edges': map<EdgeId, Fields>)
    requires t.Valid() && Represents(kv, t, edges) && Represents(kv, t, edges')
    ensures edges == edges'
  {
    forall e ensures e in edges <==> e in edges'
      ensures e in edges && e in edges' ==> edges[e] == edges'[e]
    {
      if e in edges || e in edges' {
        assert ValidEdge(e);
        StoredIffEdge(kv, t, edges, e);
        StoredIffEdge(kv, t, edges', e);
      }
    }
  }
}
