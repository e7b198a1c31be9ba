/** A short run on which the compute cache serves what no computation could return any more. */
module Anomalies {
  import opened Wrappers
  import opened Records
  import opened Keys
  import opened StorageModel
  import opened Cache
  import opened SessionModel
  import E = Edges

  // -------------------------------------------------------------------------
  // A stale hit after deleting an edge through the edge store
  // -------------------------------------------------------------------------

  /** Whether the table has an edge. */
  function AnyEdge(): Compute {
    (kind, outcome, region: Kv, choice) => Some(if |region| == 0 then [0x30] else [0x31])
  }

  /**
   `EdgeStore.Delete` bumps no counter: after it the session still serves the
   payload computed before, which no computation could return any more.
   */
  method StaleHit(t: Table, e: E.EdgeId) returns (first: Response, second: Response, session: Session)
    requires t.Valid() && E.ValidEdge(e)
    ensures first == Computed([0x31]) && second == CachedResponse([0x31])
    ensures !Could(session.compute, CacheKey(t, CacheKind.Components, Json), session.storage.kv, [0x31])
  {
    var key := CacheKey(t, CacheKind.Components, Json);
    var storage := new Storage();
    var store := new E.EdgeStore(storage, t);
    store.Relate(e, map[], map[]);
    E.DirKeys(t, e);
    assert E.OutKey(t, e) in EdgeRegion(storage.kv, t);

    var cache := new ComputeCache(1, 1000);
    var versions := new WriteVersions();
    session := new Session(storage, cache, versions, AnyEdge());
    first := session.RunAnalysis(key, 0);
    ghost var edges: map<E.EdgeId, Fields> := map[e := map[]];
    var existed := store.Delete(e, edges);
    assert edges - {e} == map[];
    second := session.RunAnalysis(key, 0);
    NoEdges(storage.kv, t);
  }

  lemma NoEdges(kv: Kv, t: Table)
    requires E.Represents(kv, t, map[])
    ensures EdgeRegion(kv, t) == map[]
  {
    assert forall k :: k in kv && TablePrefix(t, GRAPH_EDGE) <= k ==> E.Owned(t, map[], k);
    assert EdgeRegion(kv, t).Keys == {};
  }
}
