/** Statements run through the compute cache (`run` and `execute_batch` in crates/query/src/executor.rs). */
module SessionModel {
  import opened Bytes
  import opened Wrappers
  import opened Keys
  import opened StorageModel
  import opened IndexTransitions
  import opened Batch
  import opened Cache
  import B = BatchEffects
  import C = Commands
  import X = Executor

  // -------------------------------------------------------------------------
  // What an analytics result depends on
  // -------------------------------------------------------------------------

  /** The stored edges of a table. */
  ghost function EdgeRegion(kv: Kv, t: Table): Kv {
    map k | k in kv && TablePrefix(t, GRAPH_EDGE) <= k :: kv[k]
  }

  lemma SameRegion(kv: Kv, kv': Kv, t: Table)
    requires EdgesSame(kv, kv', t)
    ensures EdgeRegion(kv', t) == EdgeRegion(kv, t)
  {
    forall k | TablePrefix(t, GRAPH_EDGE) <= k ensures k in kv <==> k in kv' { assert SameAt(kv, kv', k); }
    forall k | k in EdgeRegion(kv, t) ensures kv'[k] == kv[k] { assert SameAt(kv, kv', k); }
  }

  /** The formatted result of a computation over a table's edges; `choice` stands for hash-map iteration order. */
  type Compute = (CacheKind, OutcomeFormat, Kv, nat) -> Option<str>

  /** Some run of the computation on these edges returns the payload. */
  ghost predicate Could(compute: Compute, key: CacheKey, kv: Kv, payload: str) {
    exists choice: nat :: compute(key.kind, key.outcome, EdgeRegion(kv, key.table), choice) == Some(payload)
  }

  lemma CouldStill(compute: Compute, key: CacheKey, kv: Kv, kv': Kv, payload: str)
    requires Could(compute, key, kv, payload) && EdgesSame(kv, kv', key.table)
    ensures Could(compute, key, kv', payload)
  {
    SameRegion(kv, kv', key.table);
    var choice: nat :| compute(key.kind, key.outcome, EdgeRegion(kv, key.table), choice) == Some(payload);
    assert compute(key.kind, key.outcome, EdgeRegion(kv', key.table), choice) == Some(payload);
  }

  /** What makes an entry of version `version` right while its table's counter stands at `now`. */
  ghost predicate RightAt(compute: Compute, key: CacheKey, entry: CacheEntry, now: nat, kv: Kv) {
    entry.version <= now && (entry.version == now ==> Could(compute, key, kv, entry.payload))
  }

  /** Moving the counter on, or leaving both it and the edges alone, keeps an entry right. */
  lemma StaysRight(compute: Compute, key: CacheKey, entry: CacheEntry, was: nat, now: nat, kv: Kv, kv': Kv)
    requires RightAt(compute, key, entry, was, kv)
    requires now > was || (now == was && EdgesSame(kv, kv', key.table))
    ensures RightAt(compute, key, entry, now, kv')
  {
    if entry.version == now { CouldStill(compute, key, kv, kv', entry.payload); }
  }

  ghost predicate StaysAt(compute: Compute, key: CacheKey, entry: CacheEntry, was: nat, now: nat, kv: Kv, kv': Kv) {
    RightAt(compute, key, entry, was, kv) ==> RightAt(compute, key, entry, now, kv')
  }

  /** Whatever is computed and cached for the table, an entry right before is right after. */
  ghost predicate AllStayRight(t: Table, was: nat, now: nat, kv: Kv, kv': Kv) {
    forall compute: Compute, key: CacheKey, entry: CacheEntry {:trigger StaysAt(compute, key, entry, was, now, kv, kv')} ::
      key.table == t ==> StaysAt(compute, key, entry, was, now, kv, kv')
  }

  /** Answers on one edge set only. */
  ghost function Recognise(region: Kv): Compute {
    (kind, outcome, r: Kv, choice) => if r == region then Some([]) else None
  }

  /** Entries stay right exactly when the counter moves on, or neither counter nor edges change: the bumps are needed. */
  lemma StayRightIff(t: Table, was: nat, now: nat, kv: Kv, kv': Kv)
    ensures AllStayRight(t, was, now, kv, kv') <==> now > was || (now == was && EdgesSame(kv, kv', t))
  {
    if now > was || (now == was && EdgesSame(kv, kv', t)) {
      forall compute: Compute, key: CacheKey, entry: CacheEntry | key.table == t ensures StaysAt(compute, key, entry, was, now, kv, kv') {
        if RightAt(compute, key, entry, was, kv) { StaysRight(compute, key, entry, was, now, kv, kv'); }
      }
    } else {
      var compute := Recognise(EdgeRegion(kv, t));
      var key, entry := CacheKey(t, Components, Json), CacheEntry([], was, 128);
      assert compute(key.kind, key.outcome, EdgeRegion(kv, t), 0) == Some([]);
      assert RightAt(compute, key, entry, was, kv);
      if now == was && EdgeRegion(kv', t) == EdgeRegion(kv, t) { SameRegionMeansSame(kv, kv', t); }
      assert !StaysAt(compute, key, entry, was, now, kv, kv');
    }
  }

  lemma SameRegionMeansSame(kv: Kv, kv': Kv, t: Table)
    requires EdgeRegion(kv', t) == EdgeRegion(kv, t)
    ensures EdgesSame(kv, kv', t)
  {
    forall k | TablePrefix(t, GRAPH_EDGE) <= k ensures SameAt(kv, kv', k) {
      assert k in EdgeRegion(kv, t) <==> k in EdgeRegion(kv', t);
      if k in kv { assert EdgeRegion(kv, t)[k] == kv[k] && EdgeRegion(kv', t)[k] == kv'[k]; }
    }
  }

  /** A 64-bit counter after `n` more bumps. */
  ghost function Advanced(version: nat, n: nat): nat {
    if n == 0 then version else (version + n) % U64_LIMIT
  }

  lemma AdvancedNext(version: nat, n: nat)
    ensures (Advanced(version, n) + 1) % U64_LIMIT == Advanced(version, n + 1)
  {
  }

  /** How often an executed command bumps the counter of a table; a refused one bumps none. */
  ghost function Bumps(c: C.Command, r: Result<X.Reply>, t: Table): nat {
    if r.Ok? then C.RelatedBy(c, t) else 0
  }

  /** Every change of a table's edges comes with a bump of its counter. */
  ghost predicate BumpsOrSame(kv: Kv, c: C.Command, r: Result<X.Reply>, kv': Kv) {
    forall t: Table :: t.Valid() && Bumps(c, r, t) == 0 ==> EdgesSame(kv, kv', t)
  }

  lemma CommandBumps(kv: Kv, c: C.Command, r: Result<X.Reply>, kv': Kv)
    requires C.Effect(kv, c, r, kv') && C.EdgesKept(kv, c, kv')
    ensures BumpsOrSame(kv, c, r, kv')
  {
    forall t: Table | t.Valid() && Bumps(c, r, t) == 0 ensures EdgesSame(kv, kv', t) {
      X.NothingChanged(kv, t);
    }
  }

  /** The entry never claims a future version, and is right if it has the current one. */
  ghost predicate FreshEntry(compute: Compute, e: (CacheKey, CacheEntry), counters: map<Table, nat>, kv: Kv) {
    e.0.table.Valid() && RightAt(compute, e.0, e.1, VersionIn(counters, e.0.table), kv)
  }

  ghost predicate EntriesRight(compute: Compute, entries: Lru, counters: map<Table, nat>, kv: Kv) {
    forall e {:trigger FreshEntry(compute, e, counters, kv)} :: e in entries ==> FreshEntry(compute, e, counters, kv)
  }

  ghost predicate BumpedBy(counters: map<Table, nat>, counters': map<Table, nat>, c: C.Command, r: Result<X.Reply>) {
    forall t :: VersionIn(counters', t) == Advanced(VersionIn(counters, t), Bumps(c, r, t))
  }

  /** No counter the request moves wraps around. */
  ghost predicate NoWrap(counters: map<Table, nat>, q: Request) {
    forall t :: RelatedByRequest(q, t) > 0 ==> VersionIn(counters, t) + RelatedByRequest(q, t) < U64_LIMIT
  }

  /** A write keeps every entry right unless a counter it moves wraps around. */
  lemma WriteKeepsRight(compute: Compute, entries: Lru, counters: map<Table, nat>, counters': map<Table, nat>, kv: Kv, c: C.Command, r: Result<X.Reply>, kv': Kv)
    requires EntriesRight(compute, entries, counters, kv) && NoWrap(counters, Write(c))
    requires BumpsOrSame(kv, c, r, kv') && BumpedBy(counters, counters', c, r)
    ensures EntriesRight(compute, entries, counters', kv')
  {
    forall e | e in entries ensures FreshEntry(compute, e, counters', kv') {
      assert FreshEntry(compute, e, counters, kv);
      WriteStaysRight(compute, e.0, e.1, VersionIn(counters, e.0.table), kv, c, r, kv');
    }
  }

  lemma InsertKeepsRight(compute: Compute, entries: Lru, kept: Lru, key: CacheKey, entry: CacheEntry, counters: map<Table, nat>, kv: Kv)
    requires EntriesRight(compute, entries, counters, kv) && FreshEntry(compute, (key, entry), counters, kv)
    requires forall e :: e in kept ==> e in entries
    ensures EntriesRight(compute, kept + [(key, entry)], counters, kv)
  {
    forall e | e in kept + [(key, entry)] ensures FreshEntry(compute, e, counters, kv) {
      if e in kept { assert e in entries; }
    }
  }

  lemma WriteStaysRight(compute: Compute, key: CacheKey, entry: CacheEntry, was: nat, kv: Kv, c: C.Command, r: Result<X.Reply>, kv': Kv)
    requires RightAt(compute, key, entry, was, kv) && key.table.Valid() && BumpsOrSame(kv, c, r, kv')
    requires Bumps(c, r, key.table) > 0 ==> was + Bumps(c, r, key.table) < U64_LIMIT
    ensures RightAt(compute, key, entry, Advanced(was, Bumps(c, r, key.table)), kv')
  {
    var now := Advanced(was, Bumps(c, r, key.table));
    assert now > was || (now == was && EdgesSame(kv, kv', key.table));
    StaysRight(compute, key, entry, was, now, kv, kv');
  }

  // -------------------------------------------------------------------------
  // Sessions
  // -------------------------------------------------------------------------

  /** A command is run by `run`, a batch by `execute_batch`. */
  datatype Request =
    | Write(c: C.Command)
    | Analyse(key: CacheKey)

  predicate ValidRequest(q: Request) {
    match q
    case Write(c) => C.ValidCommand(c)
    case Analyse(key) => key.table.Valid()
  }

  datatype Response = Answered(reply: Result<X.Reply>) | CachedResponse(payload: str) | Computed(payload: str) | Failed

  /** What a request may bump the counter of a table by. */
  ghost function RelatedByRequest(q: Request, t: Table): nat {
    if q.Write? then C.RelatedBy(q.c, t) else 0
  }

  /** A payload served is one the computation could return on the edges at that moment. */
  ghost predicate Rightly(compute: Compute, key: CacheKey, kv: Kv, choice: nat, response: Response) {
    match response
    case CachedResponse(payload) => Could(compute, key, kv, payload)
    case Computed(payload) => Could(compute, key, kv, payload)
    case Failed => compute(key.kind, key.outcome, EdgeRegion(kv, key.table), choice) == None
    case Answered(_) => false
  }

  class Session {
    const storage: Storage
    const cache: ComputeCache
    const versions: WriteVersions
    const compute: Compute

    constructor (storage: Storage, cache: ComputeCache, versions: WriteVersions, compute: Compute)
      ensures this.storage == storage && this.cache == cache && this.versions == versions && this.compute == compute
    {
      this.storage, this.cache, this.versions, this.compute := storage, cache, versions, compute;
    }

    /** Every entry is right at the counter of its table. */
    ghost predicate Fresh()
      reads storage, cache, versions
    {
      cache.Valid() && EntriesRight(compute, cache.entries, versions.counters, storage.kv)
    }

    /** The payload a lookup of the key under the current version finds. */
    ghost function Hit(key: CacheKey): Option<str>
      reads cache, versions
    {
      match Lookup(cache.entries, key)
      case Some(e) => if e.version == versions.Version(key.table) then Some(e.payload) else None
      case None => None
    }

    /** An analytics request, over any store: the cached payload, or a computed one that is cached then. */
    method RunAnalysis(key: CacheKey, choice: nat) returns (response: Response)
      requires key.table.Valid() && cache.Valid()
      modifies cache
      ensures cache.Valid() && (old(Fresh()) ==> Fresh() && Rightly(compute, key, storage.kv, choice, response))
      ensures old(Hit(key)).Some? ==> response == CachedResponse(old(Hit(key)).value)
      ensures old(Hit(key)).None? ==>
        match compute(key.kind, key.outcome, EdgeRegion(storage.kv, key.table), choice)
        case Some(payload) => response == Computed(payload) && Hit(key) == Some(payload)
        case None => response == Failed
    {
      var hit := TryCacheHit(key);
      if hit.Some? {
        return CachedResponse(hit.value);
      }
      var result := ComputeResult(key, choice);
      if result.None? {
        return Failed;
      }
      PostExecute(key, result.value);
      return Computed(result.value);
    }

    /** A command, from any store that lacks no derived entry: executed, then the counters of the tables it related bumped. */
    method RunWrite(c: C.Command) returns (r: Result<X.Reply>)
      requires C.ValidCommand(c) && AllCovered(storage.kv) && cache.Valid()
      modifies storage, versions
      ensures C.Effect(old(storage.kv), c, r, storage.kv) && C.Keeps(old(storage.kv), c, storage.kv)
      ensures BumpedBy(old(versions.counters), versions.counters, c, r)
      ensures old(Fresh() && NoWrap(versions.counters, Write(c))) ==> Fresh()
    {
      ghost var kv, counters := storage.kv, versions.counters;
      r := C.Execute(storage, c);
      CommandBumps(kv, c, r, storage.kv);
      BumpFor(c, r);
      if EntriesRight(compute, cache.entries, counters, kv) && NoWrap(counters, Write(c)) {
        WriteKeepsRight(compute, cache.entries, counters, versions.counters, kv, c, r, storage.kv);
      }
    }

    /** `run` and `execute_batch`. */
    method Run(q: Request, choice: nat) returns (response: Response)
      requires ValidRequest(q) && cache.Valid() && (q.Write? ==> AllCovered(storage.kv))
      modifies storage, cache, versions
      ensures cache.Valid()
      ensures q.Write? ==> response.Answered? && C.Effect(old(storage.kv), q.c, response.reply, storage.kv) && C.Keeps(old(storage.kv), q.c, storage.kv)
      ensures q.Analyse? ==> storage.kv == old(storage.kv) && !response.Answered? && (old(Fresh()) ==> Rightly(compute, q.key, storage.kv, choice, response))
      ensures if q.Write? then BumpedBy(old(versions.counters), versions.counters, q.c, response.reply) else versions.counters == old(versions.counters)
      ensures old(Fresh() && NoWrap(versions.counters, q)) ==> Fresh()
    {
      if q.Analyse? {
        response := RunAnalysis(q.key, choice);
      } else {
        var r := RunWrite(q.c);
        response := Answered(r);
      }
    }

    method BumpFor(c: C.Command, r: Result<X.Reply>)
      modifies versions
      ensures BumpedBy(old(versions.counters), versions.counters, c, r)
    {
      if r.Err? {
        return;
      }
      if c.Run? && c.s.Relate? {
        versions.Bump(c.s.t);
      } else if c.Batch? {
        BumpAll(c.stmts);
      }
    }

    /** The result over the stored edges. */
    method ComputeResult(key: CacheKey, choice: nat) returns (result: Option<str>)
      ensures result == compute(key.kind, key.outcome, EdgeRegion(storage.kv, key.table), choice)
      ensures result.Some? ==> Could(compute, key, storage.kv, result.value)
    {
      var region := map k | k in storage.kv && TablePrefix(key.table, GRAPH_EDGE) <= k :: storage.kv[k];
      assert region == EdgeRegion(storage.kv, key.table);
      result := compute(key.kind, key.outcome, region, choice);
    }

    method TryCacheHit(key: CacheKey) returns (hit: Option<str>)
      requires cache.Valid()
      modifies cache
      ensures cache.Valid() && (old(Fresh()) ==> Fresh())
      ensures hit == old(Hit(key)) && (hit.None? ==> Hit(key) == None)
      ensures old(Fresh()) && hit.Some? ==> Could(compute, key, storage.kv, hit.value)
    {
      var version := versions.Current(key.table);
      ghost var before := cache.entries;
      hit := cache.Get(key, version);
      forall e | e in cache.entries ensures e in before {}
      match Lookup(before, key) {
        case Some(e) => LookupLast(Without(before, key), key, e);
        case None =>
      }
      if old(Fresh()) && hit.Some? {
        assert FreshEntry(compute, (key, Lookup(before, key).value), versions.counters, storage.kv);
      }
    }

    /** Stores a computed result under the version read after computing. */
    method PostExecute(key: CacheKey, payload: str)
      requires cache.Valid() && key.table.Valid() && Could(compute, key, storage.kv, payload)
      modifies cache
      ensures cache.Valid() && (old(Fresh()) ==> Fresh())
      ensures Hit(key) == Some(payload)
    {
      var version := versions.Current(key.table);
      ghost var before := cache.entries;
      ghost var kept := cache.Insert(key, payload, version);
      LookupLast(kept, key, CacheEntry(payload, version, |payload| + 128));
      if EntriesRight(compute, before, versions.counters, storage.kv) {
        InsertKeepsRight(compute, before, kept, key, CacheEntry(payload, version, |payload| + 128), versions.counters, storage.kv);
      }
    }

    method BumpAll(stmts: seq<Statement>)
      modifies versions
      ensures forall t :: VersionIn(versions.counters, t) == Advanced(VersionIn(old(versions.counters), t), B.Relates(stmts, t))
    {
      ghost var before := versions.counters;
      for i := 0 to |stmts|
        invariant forall t :: VersionIn(versions.counters, t) == Advanced(VersionIn(before, t), B.Relates(stmts[..i], t))
      {
        assert stmts[..i + 1][..i] == stmts[..i];
        if stmts[i].Relate? {
          AdvancedNext(VersionIn(before, stmts[i].t), B.Relates(stmts[..i], stmts[i].t));
          versions.Bump(stmts[i].t);
        }
      }
      assert stmts[..|stmts|] == stmts;
    }

    /**
     Any sequence of requests, batches included: from a fresh cache every payload
     served is one the computation could return on the edges at that moment,
     whatever the writes between did to the indexes, as long as no counter wraps
     around; every write answers and acts as its command does.
     */
    method RunAll(qs: seq<Request>, choices: seq<nat>) returns (responses: seq<Response>, ghost states: seq<Kv>)
      requires |choices| == |qs| && cache.Valid() && AllCovered(storage.kv) && forall q :: q in qs ==> ValidRequest(q)
      modifies storage, cache, versions
      ensures |responses| == |qs| && |states| == |qs| + 1 && states[0] == old(storage.kv) && states[|qs|] == storage.kv
      ensures Transcript(ServedBy(compute, old(Fresh() && NeverWraps(versions.counters, qs))), qs, choices, responses, states)
      ensures cache.Valid() && AllCovered(storage.kv) && (old(Fresh() && NeverWraps(versions.counters, qs)) ==> Fresh())
    {
      responses, states := [], [storage.kv];
      ghost var start, trusted := storage.kv, Fresh() && NeverWraps(versions.counters, qs);
      assert qs[0..] == qs;
      for i := 0 to |qs|
        invariant cache.Valid() && AllCovered(storage.kv)
        invariant |responses| == i && |states| == i + 1 && states[0] == start && states[i] == storage.kv
        invariant Transcript(ServedBy(compute, trusted), qs, choices, responses, states)
        invariant trusted ==> Fresh() && NeverWraps(versions.counters, qs[i..])
      {
        assert qs[i] in qs && qs[i..][1..] == qs[i + 1..];
        var response := RunNext(qs, choices, responses, states, trusted);
        responses, states := responses + [response], states + [storage.kv];
      }
    }

    method RunNext(qs: seq<Request>, choices: seq<nat>, responses: seq<Response>, ghost states: seq<Kv>, ghost trusted: bool) returns (response: Response)
      requires |responses| < |qs| == |choices| && ValidRequest(qs[|responses|]) && cache.Valid() && AllCovered(storage.kv)
      requires |states| == |responses| + 1 && states[|responses|] == storage.kv && Transcript(ServedBy(compute, trusted), qs, choices, responses, states)
      requires trusted ==> Fresh() && NeverWraps(versions.counters, qs[|responses|..])
      modifies storage, cache, versions
      ensures cache.Valid() && AllCovered(storage.kv) && Transcript(ServedBy(compute, trusted), qs, choices, responses + [response], states + [storage.kv])
      ensures trusted ==> Fresh() && NeverWraps(versions.counters, qs[|responses|..][1..])
    {
      ghost var kv, rest := storage.kv, qs[|responses|..];
      var q := qs[|responses|];
      assert rest[0] == q;
      ghost var counters := versions.counters;
      if trusted { FirstDoesNotWrap(counters, rest); }
      response := Run(q, choices[|responses|]);
      if trusted { RestDoesNotWrap(counters, versions.counters, rest, response); }
      TranscriptNext(ServedBy(compute, trusted), qs, choices, responses, states, response, storage.kv);
    }
  }

  /** How often the requests together may bump the counter of a table. */
  ghost function TotalRelated(qs: seq<Request>, t: Table): nat {
    if qs == [] then 0 else RelatedByRequest(qs[0], t) + TotalRelated(qs[1..], t)
  }

  /** No counter wraps around over the requests. */
  ghost predicate NeverWraps(counters: map<Table, nat>, qs: seq<Request>) {
    forall t :: VersionIn(counters, t) + TotalRelated(qs, t) < U64_LIMIT
  }

  lemma FirstDoesNotWrap(counters: map<Table, nat>, qs: seq<Request>)
    requires qs != [] && NeverWraps(counters, qs)
    ensures NoWrap(counters, qs[0])
  {
    forall t ensures VersionIn(counters, t) + RelatedByRequest(qs[0], t) < U64_LIMIT {
      assert VersionIn(counters, t) + TotalRelated(qs, t) < U64_LIMIT;
    }
  }

  lemma RestDoesNotWrap(counters: map<Table, nat>, counters': map<Table, nat>, qs: seq<Request>, response: Response)
    requires qs != [] && NeverWraps(counters, qs)
    requires if qs[0].Write? then response.Answered? && BumpedBy(counters, counters', qs[0].c, response.reply) else counters' == counters
    ensures NeverWraps(counters', qs[1..])
  {
    forall t ensures VersionIn(counters', t) + TotalRelated(qs[1..], t) < U64_LIMIT {
      assert VersionIn(counters, t) + TotalRelated(qs, t) < U64_LIMIT;
    }
  }

  /** Whether a response is the one a request deserves, given the stores before and after it. */
  type Service = (Request, nat, Response, Kv, Kv) -> bool

  ghost function ServedBy(compute: Compute, trusted: bool): Service {
    (q, choice: nat, response, kv, kv') => ServedAt(compute, q, choice, response, kv, kv', trusted)
  }

  /** A write answers and acts as its command does; an analysis is answered rightly, from a trusted cache. */
  ghost predicate ServedAt(compute: Compute, q: Request, choice: nat, response: Response, kv: Kv, kv': Kv, trusted: bool) {
    match q
    case Write(c) => response.Answered? && C.Effect(kv, c, response.reply, kv') && C.Keeps(kv, c, kv')
    case Analyse(key) => kv' == kv && !response.Answered? && (trusted ==> Rightly(compute, key, kv, choice, response))
  }

  ghost predicate Served(service: Service, qs: seq<Request>, choices: seq<nat>, responses: seq<Response>, states: seq<Kv>, i: nat)
    requires i < |responses| <= |qs| == |choices| && |states| == |responses| + 1
  {
    service(qs[i], choices[i], responses[i], states[i], states[i + 1])
  }

  /** Every response is the one its request deserves on the store the requests before it left. */
  ghost predicate Transcript(service: Service, qs: seq<Request>, choices: seq<nat>, responses: seq<Response>, states: seq<Kv>)
    requires |responses| <= |qs| == |choices| && |states| == |responses| + 1
  {
    forall i: nat :: i < |responses| ==> Served(service, qs, choices, responses, states, i)
  }

  lemma TranscriptNext(service: Service, qs: seq<Request>, choices: seq<nat>, responses: seq<Response>, states: seq<Kv>, response: Response, kv: Kv)
    requires |responses| < |qs| == |choices| && |states| == |responses| + 1 && Transcript(service, qs, choices, responses, states)
    requires service(qs[|responses|], choices[|responses|], response, states[|responses|], kv)
    ensures Transcript(service, qs, choices, responses + [response], states + [kv])
  {
    var more, after := responses + [response], states + [kv];
    forall i: nat | i < |more| ensures Served(service, qs, choices, more, after, i) {
      if i < |responses| { assert Served(service, qs, choices, responses, states, i); }
    }
  }

  /** So in a transcript from a trusted cache every payload served is one the computation could return at that moment. */
  lemma HitsAreRight(compute: Compute, qs: seq<Request>, choices: seq<nat>, responses: seq<Response>, states: seq<Kv>, i: nat)
    requires i < |responses| <= |qs| == |choices| && |states| == |responses| + 1
    requires Transcript(ServedBy(compute, true), qs, choices, responses, states)
    ensures responses[i].CachedResponse? ==> qs[i].Analyse? && states[i + 1] == states[i] && Could(compute, qs[i].key, states[i], responses[i].payload)
  {
    assert Served(ServedBy(compute, true), qs, choices, responses, states, i);
  }
}
