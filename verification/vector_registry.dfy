/** The registry of vector indexes (crates/query/src/search.rs): insertion always removes first. */
module VectorRegistry {
  import opened Bytes
  import opened Wrappers
  import opened HnswGraph
  import opened HnswIndexes
  import B = BruteForce

  /** What every registered index keeps. */
  ghost predicate Sound(index: HnswIndex)
    reads index
  {
    index.Valid() && index.Unique() && index.Dimensioned() && index.config.maxLayers > 0
  }

  /**
   Inserts or replaces a vector; one of another dimension, or for an unknown
   index, is skipped. `level` is the random level of the new node.
   */
  method VectorInsert(vectors: map<str, HnswIndex>, name: str, id: str, vector: Vector, level: nat)
    requires name in vectors ==> Sound(vectors[name]) && level < vectors[name].config.maxLayers
    modifies if name in vectors then {vectors[name]} else {}
    ensures name in vectors ==> Sound(vectors[name])
    ensures name in vectors && |vector| == vectors[name].dim ==> vectors[name].Live() == old(vectors[name].Live())[id := vector]
    ensures name in vectors && |vector| != vectors[name].dim ==> unchanged(vectors[name])
  {
    if name in vectors && |vector| == vectors[name].dim {
      var index := vectors[name];
      ghost var live := index.Live();
      var _ := index.Remove(id);
      InsertFresh(index, id, vector, level);
      assert (live - {id})[id := vector] == live[id := vector];
    }
  }

  method InsertFresh(index: HnswIndex, id: str, vector: Vector, level: nat)
    requires Sound(index) && level < index.config.maxLayers && |vector| == index.dim && id !in index.nodeLookup
    modifies index
    ensures Sound(index) && index.Live() == old(index.Live())[id := vector]
  {
    index.Insert(id, vector, level);
  }

  method VectorRemove(vectors: map<str, HnswIndex>, name: str, id: str)
    requires name in vectors ==> Sound(vectors[name])
    modifies if name in vectors then {vectors[name]} else {}
    ensures name in vectors ==> Sound(vectors[name]) && vectors[name].Live() == old(vectors[name].Live()) - {id}
  {
    if name in vectors {
      var index := vectors[name];
      var _ := index.Remove(id);
    }
  }

  /** Fails for an unknown index or a query of another dimension. */
  method VectorSearch(vectors: map<str, HnswIndex>, name: str, query: Vector, k: nat) returns (hits: Result<seq<(str, real)>>)
    requires name in vectors ==> Sound(vectors[name])
    ensures name !in vectors ==> hits == Err(Index)
    ensures name in vectors && |query| != vectors[name].dim ==> hits == Err(Query)
    ensures name in vectors && |query| == vectors[name].dim ==> hits.Ok? && |hits.value| <= k
    ensures hits.Ok? ==> name in vectors && exists start, found :: vectors[name].Finds(query, k, vectors[name].config.efConstruction, start, found, hits.value)
    ensures hits.Ok? ==> Nearest(vectors[name], query, hits.value)
  {
    if name !in vectors {
      return Err(Index);
    }
    var index := vectors[name];
    if |query| != index.dim {
      return Err(Query);
    }
    var found := index.Search(query, k);
    ghost var start, beam :| index.Finds(query, k, index.config.efConstruction, start, beam, found);
    if index.entryPoint.Some? { BeamIsNearest(index, query, k, start, beam, found); }
    return Ok(found);
  }

  /** Hits come nearest first, each a live id with its distance, no id twice. */
  ghost predicate Nearest(index: HnswIndex, query: Vector, hits: seq<(str, real)>)
    requires index.Valid()
    reads index
  {
    && (forall h :: h in hits ==> HitIsLive(index, query, h))
    && forall i, j :: 0 <= i < j < |hits| ==> hits[i].1 <= hits[j].1 && hits[i].0 != hits[j].0
  }

  lemma BeamIsNearest(index: HnswIndex, query: Vector, k: nat, start: nat, found: seq<(real, nat)>, hits: seq<(str, real)>)
    requires Sound(index) && index.entryPoint.Some? && index.Finds(query, k, index.config.efConstruction, start, found, hits)
    ensures Nearest(index, query, hits)
  {
    var all := LiveHits(index.nodes, found);
    HitsAreLive(index, query, found);
    B.LiveHitsOrdered(index.nodes, index.nodeLookup, found);
    forall i, j | 0 <= i < j < |hits| ensures hits[i].1 <= hits[j].1 && hits[i].0 != hits[j].0 {
      assert B.Distances(all)[i] <= B.Distances(all)[j];
      assert all[i] in all && all[j] in all;
    }
  }

  /** A hit is a live id with its distance from the query. */
  ghost predicate HitIsLive(index: HnswIndex, query: Vector, h: (str, real))
    requires index.Valid()
    reads index
  {
    h.0 in index.Live() && h.1 == index.Between()(query, index.Live()[h.0])
  }

  lemma {:induction false} HitsAreLive(index: HnswIndex, query: Vector, found: seq<(real, nat)>)
    requires Sound(index) && forall i :: 0 <= i < |found| ==> found[i].1 < |index.nodes|
    requires forall i :: 0 <= i < |found| ==> found[i].0 == QueryDist(index.nodes, index.Between(), query)(found[i].1)
    ensures forall h :: h in LiveHits(index.nodes, found) ==> HitIsLive(index, query, h)
  {
    if found != [] {
      HitsAreLive(index, query, found[..|found| - 1]);
    }
  }

  // -------------------------------------------------------------------------
  // Runs
  // -------------------------------------------------------------------------

  datatype VectorOp = Put(id: str, vector: Vector, level: nat) | Drop(id: str)

  /** The contents after a run, ignoring vectors of another dimension. */
  ghost function After(contents: map<str, Vector>, ops: seq<VectorOp>, dim: nat): map<str, Vector> {
    if ops == [] then contents
    else
      var before := After(contents, ops[..|ops| - 1], dim);
      match ops[|ops| - 1]
      case Put(id, vector, _) => if |vector| == dim then before[id := vector] else before
      case Drop(id) => before - {id}
  }

  /** Every run of insertions and removals keeps the index sound and its live contents those of a plain map. */
  method ApplyAll(vectors: map<str, HnswIndex>, name: str, ops: seq<VectorOp>)
    requires name in vectors && Sound(vectors[name])
    requires forall j :: 0 <= j < |ops| && ops[j].Put? ==> ops[j].level < vectors[name].config.maxLayers
    modifies vectors[name]
    ensures Sound(vectors[name]) && vectors[name].Live() == After(old(vectors[name].Live()), ops, vectors[name].dim)
  {
    for j := 0 to |ops|
      invariant Sound(vectors[name]) && vectors[name].Live() == After(old(vectors[name].Live()), ops[..j], vectors[name].dim)
    {
      assert ops[..j + 1][..j] == ops[..j];
      match ops[j] {
        case Put(id, vector, level) => VectorInsert(vectors, name, id, vector, level);
        case Drop(id) => VectorRemove(vectors, name, id);
      }
    }
    assert ops[..|ops|] == ops;
  }
}
