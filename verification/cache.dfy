/** Write versions and the byte-bounded LRU cache of computed results (crates/query/src/cache.rs). */
module Cache {
  import opened Bytes
  import opened Wrappers
  import opened Keys

  /** Counters are 64-bit and wrap around. */
  const U64_LIMIT: nat := 0x1_0000_0000_0000_0000

  // -------------------------------------------------------------------------
  // Write versions
  // -------------------------------------------------------------------------

  function VersionIn(counters: map<Table, nat>, t: Table): nat {
    if t in counters then counters[t] else 0
  }

  class WriteVersions {
    var counters: map<Table, nat>

    /** Zero for a table that was never written. */
    function Version(t: Table): nat
      reads this
    {
      VersionIn(counters, t)
    }

    constructor ()
      ensures counters == map[]
    {
      counters := map[];
    }

    method Current(t: Table) returns (version: nat)
      ensures version == Version(t)
    {
      version := if t in counters then counters[t] else 0;
    }

    method Bump(t: Table)
      modifies this
      ensures forall u :: VersionIn(counters, u) == if u == t then (VersionIn(old(counters), t) + 1) % U64_LIMIT else VersionIn(old(counters), u)
    {
      if t in counters {
        counters := counters[t := (counters[t] + 1) % U64_LIMIT];
        return;
      }
      counters := counters[t := 1];
    }
  }

  // -------------------------------------------------------------------------
  // The cache
  // -------------------------------------------------------------------------

  /** Floating-point parameters are kept as bit patterns. */
  datatype CacheKind =
    | Communities(algorithm: str, maxIterations: nat, resolutionBits: nat)
    | Components
    | PageRank(dampingBits: nat, maxIterations: nat, limit: Option<nat>)
    | Centrality(mode: str, limit: Option<nat>)

  datatype OutcomeFormat = Json | Toon | Csv

  datatype CacheKey = CacheKey(table: Table, kind: CacheKind, outcome: OutcomeFormat)

  datatype CacheEntry = CacheEntry(payload: str, version: nat, bytes: nat)

  /** Least recently used first. */
  type Lru = seq<(CacheKey, CacheEntry)>

  function TotalBytes(entries: Lru): nat {
    if entries == [] then 0 else entries[0].1.bytes + TotalBytes(entries[1..])
  }

  ghost predicate DistinctKeys(entries: Lru) {
    forall i, j :: 0 <= i < j < |entries| ==> entries[i].0 != entries[j].0
  }

  /** The entries under other keys. */
  function Without(entries: Lru, key: CacheKey): (r: Lru)
    ensures |r| <= |entries| && forall e :: e in r <==> e in entries && e.0 != key
  {
    if entries == [] then []
    else
      assert entries == [entries[0]] + entries[1..];
      (if entries[0].0 == key then [] else [entries[0]]) + Without(entries[1..], key)
  }

  function Lookup(entries: Lru, key: CacheKey): (r: Option<CacheEntry>)
    ensures r.Some? ==> (key, r.value) in entries
    ensures r.None? ==> forall e :: e in entries ==> e.0 != key
  {
    if entries == [] then None
    else if entries[0].0 == key then Some(entries[0].1)
    else Lookup(entries[1..], key)
  }

  lemma {:induction false} LookupLast(entries: Lru, key: CacheKey, entry: CacheEntry)
    requires forall e :: e in entries ==> e.0 != key
    ensures Lookup(entries + [(key, entry)], key) == Some(entry)
  {
    if entries != [] {
      assert (entries + [(key, entry)])[1..] == entries[1..] + [(key, entry)] && entries[0] in entries;
      LookupLast(entries[1..], key, entry);
    }
  }

  lemma {:induction false} WithoutDistinct(entries: Lru, key: CacheKey)
    requires DistinctKeys(entries)
    ensures DistinctKeys(Without(entries, key))
  {
    if entries != [] {
      var rest := entries[1..];
      WithoutDistinct(rest, key);
      forall i | 0 <= i < |Without(rest, key)| ensures Without(rest, key)[i].0 != entries[0].0 {
        assert Without(rest, key)[i] in rest;
      }
    }
  }

  lemma {:induction false} WithoutAbsent(entries: Lru, key: CacheKey)
    requires forall e :: e in entries ==> e.0 != key
    ensures Without(entries, key) == entries
  {
    if entries != [] {
      WithoutAbsent(entries[1..], key);
      assert entries == [entries[0]] + entries[1..];
    }
  }

  lemma {:induction false} WithoutBytes(entries: Lru, key: CacheKey)
    requires DistinctKeys(entries)
    ensures TotalBytes(Without(entries, key)) == TotalBytes(entries) - (if Lookup(entries, key).Some? then Lookup(entries, key).value.bytes else 0)
    ensures |Without(entries, key)| == |entries| - (if Lookup(entries, key).Some? then 1 else 0)
  {
    if entries != [] {
      var rest := entries[1..];
      if entries[0].0 == key {
        forall e | e in rest ensures e.0 != key {}
        WithoutAbsent(rest, key);
        assert Without(entries, key) == rest;
      } else {
        WithoutBytes(rest, key);
        assert Without(entries, key)[1..] == Without(rest, key);
      }
    }
  }

  lemma WithoutKeeps(entries: Lru, key: CacheKey)
    requires DistinctKeys(entries)
    ensures DistinctKeys(Without(entries, key))
    ensures TotalBytes(Without(entries, key)) == TotalBytes(entries) - (if Lookup(entries, key).Some? then Lookup(entries, key).value.bytes else 0)
    ensures |Without(entries, key)| == |entries| - (if Lookup(entries, key).Some? then 1 else 0)
  {
    WithoutDistinct(entries, key);
    WithoutBytes(entries, key);
  }

  lemma {:induction false} TotalAppend(entries: Lru, e: (CacheKey, CacheEntry))
    ensures TotalBytes(entries + [e]) == TotalBytes(entries) + e.1.bytes
  {
    if entries == [] {
      assert entries + [e] == [e];
    } else {
      assert (entries + [e])[1..] == entries[1..] + [e];
      TotalAppend(entries[1..], e);
    }
  }

  /** Room for a new entry of the given size. */
  predicate HasRoom(entries: Lru, bytes: nat, capacity: nat, maxBytes: nat) {
    |entries| < capacity && TotalBytes(entries) + bytes <= maxBytes
  }

  /** `kept` is what eviction leaves: the longest tail with room, or nothing. */
  ghost predicate Evicted(entries: Lru, kept: Lru, bytes: nat, capacity: nat, maxBytes: nat) {
    && |kept| <= |entries| && kept == entries[|entries| - |kept|..]
    && (kept == [] || HasRoom(kept, bytes, capacity, maxBytes))
    && forall n :: 0 <= n < |entries| - |kept| ==> !HasRoom(entries[n..], bytes, capacity, maxBytes)
  }

  /** Every entry is charged its payload and a fixed overhead. */
  ghost predicate Sized(entries: Lru) {
    forall e :: e in entries ==> e.1.bytes == |e.1.payload| + 128
  }

  lemma Inserted(all: Lru, kept: Lru, key: CacheKey, entry: CacheEntry, capacity: nat, maxBytes: nat)
    requires DistinctKeys(all) && Sized(all) && entry.bytes == |entry.payload| + 128 && capacity > 0
    requires (forall e :: e in all ==> e.0 != key) && Evicted(all, kept, entry.bytes, capacity, maxBytes)
    ensures var entries := kept + [(key, entry)];
      && DistinctKeys(entries) && Sized(entries) && |entries| <= capacity && TotalBytes(entries) == TotalBytes(kept) + entry.bytes
      && (TotalBytes(entries) > maxBytes ==> |entries| == 1)
  {
    TotalAppend(kept, (key, entry));
    forall i | 0 <= i < |kept| ensures kept[i] in all { assert kept[i] == all[|all| - |kept| + i]; }
  }

  class ComputeCache {
    const capacity: nat
    const maxBytes: nat
    var entries: Lru
    var currentBytes: nat

    ghost predicate Valid()
      reads this
    {
      && capacity > 0 && DistinctKeys(entries) && |entries| <= capacity && currentBytes == TotalBytes(entries)
      && (currentBytes > maxBytes ==> |entries| == 1)
      && Sized(entries)
    }

    constructor (capacity: nat, maxBytes: nat)
      ensures Valid() && entries == [] && this.maxBytes == maxBytes && this.capacity == if capacity == 0 then 1 else capacity
    {
      this.capacity := if capacity == 0 then 1 else capacity;
      this.maxBytes := maxBytes;
      entries, currentBytes := [], 0;
    }

    /** A hit needs the exact version; even a stale entry becomes the most recent. */
    method Get(key: CacheKey, currentVersion: nat) returns (r: Option<str>)
      requires Valid()
      modifies this
      ensures Valid() && currentBytes == old(currentBytes)
      ensures r == match old(Lookup(entries, key)) case None => None case Some(e) => if e.version == currentVersion then Some(e.payload) else None
      ensures entries == match old(Lookup(entries, key)) case None => old(entries) case Some(e) => Without(old(entries), key) + [(key, e)]
    {
      var found := Lookup(entries, key);
      if found.None? {
        return None;
      }
      WithoutKeeps(entries, key);
      TotalAppend(Without(entries, key), (key, found.value));
      entries := Without(entries, key) + [(key, found.value)];
      r := if found.value.version == currentVersion then Some(found.value.payload) else None;
    }

    /** Replaces the entry of the key, after evicting the least recently used until there is room. */
    method Insert(key: CacheKey, payload: str, version: nat) returns (ghost kept: Lru)
      requires Valid()
      modifies this
      ensures Valid() && Evicted(Without(old(entries), key), kept, |payload| + 128, capacity, maxBytes)
      ensures entries == kept + [(key, CacheEntry(payload, version, |payload| + 128))]
    {
      var entryBytes := |payload| + 128;
      var old_ := Lookup(entries, key);
      WithoutKeeps(entries, key);
      entries := Without(entries, key);
      if old_.Some? {
        currentBytes := Saturating(currentBytes, old_.value.bytes);
      }
      Evict(entryBytes);
      kept := entries;
      Inserted(Without(old(entries), key), kept, key, CacheEntry(payload, version, entryBytes), capacity, maxBytes);
      currentBytes := currentBytes + entryBytes;
      entries := entries + [(key, CacheEntry(payload, version, entryBytes))];
    }

    /** Drops the least recently used until an entry of the given size has room or nothing is left. */
    method Evict(entryBytes: nat)
      requires capacity > 0 && currentBytes == TotalBytes(entries)
      modifies this
      ensures Evicted(old(entries), entries, entryBytes, capacity, maxBytes) && currentBytes == TotalBytes(entries)
    {
      ghost var start := entries;
      while entries != [] && (|entries| >= capacity || currentBytes + entryBytes > maxBytes)
        invariant |entries| <= |start| && entries == start[|start| - |entries|..] && currentBytes == TotalBytes(entries)
        invariant forall n :: 0 <= n < |start| - |entries| ==> !HasRoom(start[n..], entryBytes, capacity, maxBytes)
        decreases |entries|
      {
        currentBytes := Saturating(currentBytes, entries[0].1.bytes);
        entries := entries[1..];
      }
    }
  }

  /** `saturating_sub`. */
  function Saturating(a: nat, b: nat): nat {
    if a >= b then a - b else 0
  }
}
