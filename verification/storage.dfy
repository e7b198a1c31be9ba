/**
 The ordered key-value store behind every data model (crates/storage/src/kv.rs),
 and the records kept in it. Serialized payloads are the `Blob` cases: each case
 stands for the bytes of one serializer, injective by construction.
 */
module Records {
  import opened Bytes
  import opened Values

  datatype IndexKind = BTree | FullText(analyzer: str) | Vector(dim: nat, metric: str)

  datatype IndexDefinition = IndexDefinition(name: str, fields: seq<str>, unique: bool, kind: IndexKind)

  type Fields = map<str, Value>

  datatype Document = Document(id: str, fields: Fields)

  datatype Blob =
    | FieldsBlob(fields: Fields)
    | DefBlob(def: IndexDefinition)
    | PropsBlob(props: Fields)
    | Empty
}

module StorageModel {
  import opened Bytes
  import opened Wrappers
  import opened Records
  import opened Keys

  type Key = seq<byte>
  type Kv = map<Key, Blob>

  function ApplyPuts(kv: Kv, puts: seq<(Key, Blob)>): Kv
    decreases |puts|
  {
    if puts == [] then kv else ApplyPuts(kv[puts[0].0 := puts[0].1], puts[1..])
  }

  function KeysOf(puts: seq<(Key, Blob)>): (ks: seq<Key>)
    ensures |ks| == |puts|
    ensures forall i :: 0 <= i < |puts| ==> ks[i] == puts[i].0
  {
    seq(|puts|, i requires 0 <= i < |puts| => puts[i].0)
  }

  function ApplyDeletes(kv: Kv, keys: seq<Key>): Kv {
    map k | k in kv && k !in keys :: kv[k]
  }

  /** One atomic `write_batch`: deletes first, so a key in both lists keeps the put value. */
  function ApplyBatch(kv: Kv, puts: seq<(Key, Blob)>, deletes: seq<Key>): Kv {
    ApplyPuts(ApplyDeletes(kv, deletes), puts)
  }

  lemma {:induction false} ApplyPutsDomain(kv: Kv, puts: seq<(Key, Blob)>, k: Key)
    ensures k in ApplyPuts(kv, puts) <==> k in kv || k in KeysOf(puts)
    ensures k in kv && k !in KeysOf(puts) ==> ApplyPuts(kv, puts)[k] == kv[k]
    ensures k in KeysOf(puts) ==> exists i :: 0 <= i < |puts| && puts[i].0 == k && ApplyPuts(kv, puts)[k] == puts[i].1
    decreases |puts|
  {
    if puts != [] {
      var kv', rest := kv[puts[0].0 := puts[0].1], puts[1..];
      ApplyPutsDomain(kv', rest, k);
      assert KeysOf(puts) == [puts[0].0] + KeysOf(rest);
      if k in KeysOf(rest) {
        var i :| 0 <= i < |rest| && rest[i].0 == k && ApplyPuts(kv', rest)[k] == rest[i].1;
        assert puts[i + 1] == rest[i];
      } else if k == puts[0].0 {
        assert puts[0].0 == k;
      }
    }
  }

  lemma {:induction false} ApplyPutsAppend(kv: Kv, puts: seq<(Key, Blob)>, more: seq<(Key, Blob)>)
    ensures ApplyPuts(kv, puts + more) == ApplyPuts(ApplyPuts(kv, puts), more)
    decreases |puts|
  {
    if puts == [] {
      assert puts + more == more;
    } else {
      assert (puts + more)[1..] == puts[1..] + more;
      ApplyPutsAppend(kv[puts[0].0 := puts[0].1], puts[1..], more);
    }
  }

  /** The entries whose keys are `sel`, in key order. */
  ghost predicate Listing(kv: Kv, sel: set<Key>, entries: seq<(Key, Blob)>) {
    && Increasing(KeysOf(entries))
    && (forall i :: 0 <= i < |entries| ==> entries[i].0 in sel && entries[i].0 in kv && entries[i].1 == kv[entries[i].0])
    && (forall k :: k in sel ==> k in KeysOf(entries))
  }

  function RangeKeys(kv: Kv, start: Key, end: Key): set<Key> {
    set k | k in kv && Le(start, k) && Lt(k, end)
  }

  function PrefixKeys(kv: Kv, prefix: Key): set<Key> {
    set k | k in kv && prefix <= k
  }

  /** Some byte is below 0xFF. */
  ghost predicate Bounded(prefix: Key) {
    exists i :: 0 <= i < |prefix| && prefix[i] != 0xFF
  }

  class Storage {
    var kv: Kv

    constructor ()
      ensures kv == map[]
    {
      kv := map[];
    }

    method Get(key: Key) returns (r: Option<Blob>)
      ensures r == if key in kv then Some(kv[key]) else None
    {
      r := if key in kv then Some(kv[key]) else None;
    }

    method Contains(key: Key) returns (r: bool)
      ensures r == (key in kv)
    {
      r := key in kv;
    }

    method Put(key: Key, value: Blob)
      modifies this
      ensures kv == old(kv)[key := value]
    {
      kv := kv[key := value];
    }

    method WriteBatch(puts: seq<(Key, Blob)>, deletes: seq<Key>)
      modifies this
      ensures kv == ApplyBatch(old(kv), puts, deletes)
    {
      kv := map k | k in kv && k !in deletes :: kv[k];
      for i := 0 to |puts|
        invariant ApplyPuts(kv, puts[i..]) == ApplyBatch(old(kv), puts, deletes)
      {
        assert puts[i..][1..] == puts[i + 1..];
        kv := kv[puts[i].0 := puts[i].1];
      }
    }

    method PutBatch(puts: seq<(Key, Blob)>)
      modifies this
      ensures kv == ApplyPuts(old(kv), puts)
    {
      WriteBatch(puts, []);
      assert ApplyDeletes(old(kv), []) == old(kv);
    }

    method DeleteBatch(keys: seq<Key>)
      modifies this
      ensures kv == ApplyDeletes(old(kv), keys)
    {
      WriteBatch([], keys);
    }

    /** All entries in the half-open range, in key order. */
    method Scan(start: Key, end: Key) returns (entries: seq<(Key, Blob)>)
      ensures Listing(kv, RangeKeys(kv, start, end), entries)
    {
      ghost var sel := RangeKeys(kv, start, end);
      var rest := RangeKeys(kv, start, end);
      entries := [];
      while rest != {}
        invariant rest <= sel
        invariant Increasing(KeysOf(entries))
        invariant forall i :: 0 <= i < |entries| ==> entries[i].0 in sel && entries[i].0 !in rest && entries[i].1 == kv[entries[i].0]
        invariant forall k :: k in sel ==> k in rest || k in KeysOf(entries)
        invariant forall i, k :: 0 <= i < |entries| && k in rest ==> Lt(KeysOf(entries)[i], k)
        decreases rest
      {
        ghost var _ := LeastExists(rest);
        var m :| m in rest && forall k :: k in rest ==> Le(m, k);
        ghost var before := KeysOf(entries);
        entries := entries + [(m, kv[m])];
        assert KeysOf(entries) == before + [m];
        assert forall i :: 0 <= i < |before| ==> KeysOf(entries)[i] == before[i];
        ghost var all := rest;
        rest := rest - {m};
        forall k | k in rest ensures Lt(m, k) {
          assert k in all && Le(m, k);
        }
      }
    }

    /**
     All entries whose key starts with `prefix`. A prefix of 0xFF bytes only has
     no end key, and the scan of an empty range returns nothing.
     */
    method PrefixScan(prefix: Key) returns (entries: seq<(Key, Blob)>)
      ensures Listing(kv, if Bounded(prefix) then PrefixKeys(kv, prefix) else {}, entries)
    {
      var end := PrefixEnd(prefix);
      entries := Scan(prefix, end);
      ghost var sel := set k | k in kv && Le(prefix, k) && Lt(k, end);
      if Bounded(prefix) {
        assert sel == PrefixKeys(kv, prefix);
      } else {
        assert sel == {};
      }
    }
  }
}
