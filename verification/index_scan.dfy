/** Range lookups over the entries of one index (`find_ids`, crates/document/src/index.rs). */
module IndexScan {
  import opened Bytes
  import opened Wrappers
  import opened Values
  import opened Records
  import opened Keys
  import opened StorageModel
  import opened IndexEncoding

  /** An index entry: encoded tuple and record id. */
  datatype Entry = Entry(raws: seq<seq<byte>>, id: str)

  function EntryKey(region: Key, e: Entry): Key {
    region + Parts(e.raws) + e.id
  }

  /** `k` is the key of the entry `e` over `n` fields. */
  ghost predicate IsEntry(region: Key, n: nat, e: Entry, k: Key) {
    |e.raws| == n && Utf8(e.id) && k == EntryKey(region, e)
  }

  /** Tuple order first, id order among equal tuples. */
  predicate EntryLt(e: Entry, f: Entry) {
    TupleLt(e.raws, f.raws) || (e.raws == f.raws && Lt(e.id, f.id))
  }

  type RangeBound = (Value, bool)

  /** `raws` starts with `eq` and its next component lies within the bounds. */
  predicate Selected(raws: seq<seq<byte>>, eq: seq<seq<byte>>, lower: Option<(seq<byte>, bool)>, upper: Option<(seq<byte>, bool)>)
    requires |eq| <= |raws|
    requires lower.Some? || upper.Some? ==> |eq| < |raws|
  {
    && eq <= raws
    && (lower.Some? ==> if lower.value.1 then Le(lower.value.0, raws[|eq|]) else Lt(lower.value.0, raws[|eq|]))
    && (upper.Some? ==> if upper.value.1 then Le(raws[|eq|], upper.value.0) else Lt(raws[|eq|], upper.value.0))
  }

  predicate BoundOk(b: Option<RangeBound>) {
    b.Some? ==> Indexable(b.value.0)
  }

  function RawBound(b: Option<RangeBound>): Option<(seq<byte>, bool)>
    requires BoundOk(b)
  {
    if b.None? then None else Some((EncodeIndexValue(b.value.0).value, b.value.1))
  }

  /** `cut` ends the entries whose component after `base` is `v` or less. */
  ghost predicate EndsAfter(cut: Key, base: Key, v: seq<byte>) {
    && Lt(base + Part(v), cut)
    && forall k: Key :: Le(base + Part(v), k) && Lt(k, cut) <==> base + Part(v) <= k
  }

  lemma BelowEscape(base: Key, w: seq<byte>, x: seq<byte>, v: seq<byte>)
    ensures Lt(base + (Part(w) + x), base + Escape(v)) <==> Lt(w, v)
  {
    LtCommonPrefix(base, Part(w) + x, Escape(v));
    EscapeBound(w, v, x);
  }

  lemma BelowEnd(base: Key, w: seq<byte>, x: seq<byte>, v: seq<byte>, cut: Key)
    requires EndsAfter(cut, base, v)
    ensures Lt(base + (Part(w) + x), cut) <==> Le(w, v)
  {
    var p, k := base + Part(v), base + (Part(w) + x);
    LtCommonPrefix(base, Part(w) + x, Part(v) + []);
    assert base + (Part(v) + []) == p;
    PartOrder(w, v, x, []);
    PrefixStrip(base, Part(v), Part(w) + x);
    PartPrefixFree(v, w, x);
    LtTrichotomy(p, k);
    if Lt(k, p) { LtTransitive(k, p, cut); }
  }

  /** What the computed scan bounds must satisfy. */
  ghost predicate IsStart(start: Key, base: Key, lower: Option<(seq<byte>, bool)>) {
    match lower
    case None => start == base
    case Some((v, true)) => start == base + Escape(v)
    case Some((v, false)) => EndsAfter(start, base, v)
  }

  ghost predicate IsEnd(end: Key, base: Key, upper: Option<(seq<byte>, bool)>) {
    match upper
    case None => Lt(base, end) && forall k: Key :: Le(base, k) && Lt(k, end) <==> base <= k
    case Some((v, true)) => EndsAfter(end, base, v)
    case Some((v, false)) => end == base + Escape(v)
  }

  /** The half-open byte range holds nothing outside the keys that extend `base`. */
  lemma RangeWithinBase(base: Key, lower: Option<(seq<byte>, bool)>, upper: Option<(seq<byte>, bool)>, start: Key, end: Key, k: Key)
    requires IsStart(start, base, lower) && IsEnd(end, base, upper)
    requires Le(start, k) && Lt(k, end)
    ensures base <= k
  {
    assert Le(base, start) by {
      if lower.Some? {
        var p := base + Part(lower.value.0);
        PrefixLe(base, base + Escape(lower.value.0));
        PrefixLe(base, p);
        if !lower.value.1 { LeLtTransitive(base, p, start); }
      }
    }
    LeLtTransitive(base, start, k);
    if upper.Some? {
      var p := base + Part(upper.value.0);
      if upper.value.1 {
        LtTrichotomy(k, p);
        if Lt(k, p) { BetweenHasPrefix(base, Part(upper.value.0), k); }
      } else {
        BetweenHasPrefix(base, Escape(upper.value.0), k);
      }
    }
  }

  /** On entries, the byte range is exactly the selection by equality prefix and bounds. */
  lemma RangeIsSelection(region: Key, e: Entry, eq: seq<seq<byte>>, lower: Option<(seq<byte>, bool)>, upper: Option<(seq<byte>, bool)>, start: Key, end: Key)
    requires |eq| <= |e.raws| && (lower.Some? || upper.Some? ==> |eq| < |e.raws|)
    requires IsStart(start, region + Parts(eq), lower) && IsEnd(end, region + Parts(eq), upper)
    ensures Le(start, EntryKey(region, e)) && Lt(EntryKey(region, e), end) <==> Selected(e.raws, eq, lower, upper)
  {
    var base, k := region + Parts(eq), EntryKey(region, e);
    assert k == region + (Parts(e.raws) + e.id);
    PrefixStrip(region, Parts(eq), Parts(e.raws) + e.id);
    PartsPrefix(eq, e.raws, e.id);
    if !(eq <= e.raws) {
      if Le(start, k) && Lt(k, end) { RangeWithinBase(base, lower, upper, start, end, k); }
    } else if |eq| == |e.raws| {
      PrefixLe(base, k);
    } else {
      var w, rest := e.raws[|eq|], e.raws[|eq| + 1..];
      EntryKeySplit(region, e, eq);
      var x := Parts(rest) + e.id;
      assert k == base + (Part(w) + x);
      PrefixLe(base, k);
      LtTrichotomy(start, k);
      if lower.Some? {
        BelowEscape(base, w, x, lower.value.0);
        if !lower.value.1 { BelowEnd(base, w, x, lower.value.0, start); }
        LtTrichotomy(w, lower.value.0);
      }
      if upper.Some? {
        BelowEscape(base, w, x, upper.value.0);
        if upper.value.1 { BelowEnd(base, w, x, upper.value.0, end); }
      }
    }
  }

  lemma EntryKeySplit(region: Key, e: Entry, eq: seq<seq<byte>>)
    requires eq <= e.raws && |eq| < |e.raws|
    ensures EntryKey(region, e) == region + Parts(eq) + (Part(e.raws[|eq|]) + (Parts(e.raws[|eq| + 1..]) + e.id))
  {
    var tail := e.raws[|eq|..];
    assert e.raws == eq + tail && tail[1..] == e.raws[|eq| + 1..];
    PartsConcat(eq, tail);
    Reassociate(region, Parts(eq), Part(tail[0]), Parts(tail[1..]), e.id);
  }

  lemma Reassociate(a: Key, b: Key, c: Key, d: Key, e: Key)
    ensures a + (b + (c + d)) + e == a + b + (c + (d + e))
  {
  }

  lemma EntryKeyOrder(region: Key, e: Entry, f: Entry)
    requires |e.raws| == |f.raws|
    ensures Lt(EntryKey(region, e), EntryKey(region, f)) <==> EntryLt(e, f)
    ensures EntryKey(region, e) == EntryKey(region, f) ==> e == f
  {
    assert EntryKey(region, e) == region + (Parts(e.raws) + e.id);
    assert EntryKey(region, f) == region + (Parts(f.raws) + f.id);
    LtCommonPrefix(region, Parts(e.raws) + e.id, Parts(f.raws) + f.id);
    PartsOrder(e.raws, f.raws, e.id, f.id);
    if EntryKey(region, e) == EntryKey(region, f) {
      assert EntryKey(region, e)[|region|..] == Parts(e.raws) + e.id;
      assert EntryKey(region, f)[|region|..] == Parts(f.raws) + f.id;
      PartsInjective(e.raws, e.id, f.raws, f.id);
    }
  }

  // -------------------------------------------------------------------------
  // The entries of a region
  // -------------------------------------------------------------------------

  ghost predicate Reads(region: Key, n: nat, k: Key) {
    exists e :: IsEntry(region, n, e, k)
  }

  ghost function DecodeKey(region: Key, n: nat, k: Key): (e: Entry)
    requires Reads(region, n, k)
    ensures IsEntry(region, n, e, k)
  {
    var e :| IsEntry(region, n, e, k); e
  }

  /** All entries over `n` fields stored in a region, whoever wrote them. */
  ghost function EntriesUnder(kv: Kv, region: Key, n: nat): set<Entry> {
    set k | k in kv && Reads(region, n, k) :: DecodeKey(region, n, k)
  }

  lemma InEntries(kv: Kv, region: Key, n: nat, e: Entry)
    ensures e in EntriesUnder(kv, region, n) <==> |e.raws| == n && Utf8(e.id) && EntryKey(region, e) in kv
  {
    var k := EntryKey(region, e);
    if |e.raws| == n && Utf8(e.id) && k in kv {
      assert IsEntry(region, n, e, k) && Reads(region, n, k);
      EntryKeyOrder(region, e, DecodeKey(region, n, k));
    }
  }

  /** The entries a scan is after: `eq` first, then a component within the bounds. */
  ghost function SelectedEntries(held: set<Entry>, n: nat, eq: seq<seq<byte>>, lower: Option<(seq<byte>, bool)>, upper: Option<(seq<byte>, bool)>): set<Entry>
    requires |eq| <= n && (lower.Some? || upper.Some? ==> |eq| < n)
  {
    set e | e in held && |e.raws| == n && Selected(e.raws, eq, lower, upper)
  }

  /** The entries of a set, each once, in entry order. */
  ghost predicate Lists(found: seq<Entry>, entries: set<Entry>) {
    && (forall e :: e in found <==> e in entries)
    && (forall i, j :: 0 <= i < j < |found| ==> EntryLt(found[i], found[j]))
  }

  lemma {:induction false} TupleLtIrreflexive(s: seq<seq<byte>>)
    ensures !TupleLt(s, s)
  {
    if s != [] {
      LtIrreflexive(s[0]);
      TupleLtIrreflexive(s[1..]);
    }
  }

  lemma ListedOnce(found: seq<Entry>, entries: set<Entry>, i: nat, j: nat)
    requires Lists(found, entries) && i < |found| && j < |found| && i != j
    ensures found[i] != found[j]
  {
    TupleLtIrreflexive(found[i].raws);
    LtIrreflexive(found[i].id);
  }

  lemma {:induction false} ListedSize(found: seq<Entry>, entries: set<Entry>)
    requires Lists(found, entries)
    ensures |found| == |entries|
    decreases |found|
  {
    if found == [] {
      assert entries == {};
    } else {
      var init, last := found[..|found| - 1], found[|found| - 1];
      assert found == init + [last];
      forall i | 0 <= i < |init| ensures init[i] != last { ListedOnce(found, entries, i, |found| - 1); }
      ListedSize(init, entries - {last});
    }
  }

  lemma EmptyRange(kv: Kv, start: Key, end: Key)
    requires !Lt(start, end)
    ensures RangeKeys(kv, start, end) == {}
  {
    forall k | k in RangeKeys(kv, start, end) ensures false {
      LeLtTransitive(start, k, end);
    }
  }

  /** Inclusive start of the half-open scan. */
  method StartOfRange(base: Key, lower: Option<RangeBound>) returns (r: Result<Key>)
    requires SEPARATOR in base
    ensures r.Ok? <==> BoundOk(lower)
    ensures r.Err? ==> r.error == Index
    ensures r.Ok? ==> IsStart(r.value, base, RawBound(lower))
  {
    if lower.None? {
      return Ok(base);
    }
    var esc :- EncodeIndexValueEscaped(lower.value.0);
    var p := base + esc;
    if lower.value.1 {
      return Ok(p);
    }
    var start := EndOfPart(base, EncodeIndexValue(lower.value.0).value, p + TERM);
    r := Ok(start);
  }

  /** Exclusive end of the half-open scan. */
  method EndOfRange(base: Key, upper: Option<RangeBound>) returns (r: Result<Key>)
    requires SEPARATOR in base
    ensures r.Ok? <==> BoundOk(upper)
    ensures r.Err? ==> r.error == Index
    ensures r.Ok? ==> IsEnd(r.value, base, RawBound(upper))
  {
    if upper.None? {
      var end := PrefixEnd(base);
      return Ok(end);
    }
    var esc :- EncodeIndexValueEscaped(upper.value.0);
    var p := base + esc;
    if !upper.value.1 {
      return Ok(p);
    }
    var end := EndOfPart(base, EncodeIndexValue(upper.value.0).value, p + TERM);
    r := Ok(end);
  }

  method EndOfPart(base: Key, raw: seq<byte>, p: Key) returns (end: Key)
    requires SEPARATOR in base && p == base + Escape(raw) + TERM
    ensures EndsAfter(end, base, raw)
  {
    assert p == base + Part(raw);
    var i :| 0 <= i < |base| && base[i] == SEPARATOR;
    assert p[i] == SEPARATOR;
    end := PrefixEnd(p);
  }

  /** The id a key of the region parses to, if any. */
  function IdRead(region: Key, n: nat, k: Key): Option<str>
    requires region <= k
  {
    match AfterTerms(k[|region|..], n)
    case Some(id) => if Utf8(id) then Some(id) else None
    case None => None
  }

  /** The ids of the scanned keys, in order; keys that do not parse are dropped. */
  function IdsRead(region: Key, n: nat, entries: seq<(Key, Blob)>): seq<str>
    requires forall i :: 0 <= i < |entries| ==> region <= entries[i].0
  {
    if entries == [] then []
    else
      var last := IdRead(region, n, entries[|entries| - 1].0);
      IdsRead(region, n, entries[..|entries| - 1]) + (if last.Some? then [last.value] else [])
  }

  lemma EntryIdBack(region: Key, n: nat, e: Entry, k: Key)
    requires n > 0 && IsEntry(region, n, e, k)
    ensures region <= k && IdRead(region, n, k) == Some(e.id)
  {
    assert k[|region|..] == Parts(e.raws) + e.id;
    IdRecovered(e.raws, e.id);
  }

  /** A key yields an id exactly when it is the key of an entry, and then that entry's. */
  lemma IdReadIff(region: Key, n: nat, k: Key)
    requires n > 0 && region <= k
    ensures IdRead(region, n, k) == if Reads(region, n, k) then Some(DecodeKey(region, n, k).id) else None
  {
    if Reads(region, n, k) {
      EntryIdBack(region, n, DecodeKey(region, n, k), k);
    } else if IdRead(region, n, k).Some? {
      var id := IdRead(region, n, k).value;
      var raws := TermsParsed(k[|region|..], n, id);
      assert k == region + k[|region|..];
      assert k == EntryKey(region, Entry(raws, id));
      assert IsEntry(region, n, Entry(raws, id), k);
    }
  }

  /** The scanned keys that are entries, in order. */
  ghost function EntriesRead(region: Key, n: nat, entries: seq<(Key, Blob)>): seq<Entry> {
    if entries == [] then []
    else
      var k := entries[|entries| - 1].0;
      EntriesRead(region, n, entries[..|entries| - 1]) + (if Reads(region, n, k) then [DecodeKey(region, n, k)] else [])
  }

  lemma {:induction false} ReadsIds(region: Key, n: nat, entries: seq<(Key, Blob)>)
    requires n > 0 && forall i :: 0 <= i < |entries| ==> region <= entries[i].0
    ensures SameIds(EntriesRead(region, n, entries), IdsRead(region, n, entries))
  {
    if entries != [] {
      ReadsIds(region, n, entries[..|entries| - 1]);
      IdReadIff(region, n, entries[|entries| - 1].0);
    }
  }

  lemma {:induction false} ReadsEntries(region: Key, n: nat, entries: seq<(Key, Blob)>, e: Entry)
    ensures e in EntriesRead(region, n, entries) <==> |e.raws| == n && Utf8(e.id) && EntryKey(region, e) in KeysOf(entries)
  {
    if entries != [] {
      var init, k := entries[..|entries| - 1], entries[|entries| - 1].0;
      ReadsEntries(region, n, init, e);
      assert KeysOf(entries) == KeysOf(init) + [k];
      if |e.raws| == n && Utf8(e.id) && EntryKey(region, e) == k {
        assert IsEntry(region, n, e, k) && Reads(region, n, k);
        EntryKeyOrder(region, e, DecodeKey(region, n, k));
      }
    }
  }

  lemma {:induction false} ReadsInOrder(region: Key, n: nat, entries: seq<(Key, Blob)>)
    requires Increasing(KeysOf(entries))
    ensures forall i, j :: 0 <= i < j < |EntriesRead(region, n, entries)| ==> EntryLt(EntriesRead(region, n, entries)[i], EntriesRead(region, n, entries)[j])
  {
    if entries != [] {
      var m := |entries| - 1;
      var init, k := entries[..m], entries[m].0;
      assert KeysOf(entries)[..m] == KeysOf(init);
      ReadsInOrder(region, n, init);
      if Reads(region, n, k) {
        var last := DecodeKey(region, n, k);
        forall e | e in EntriesRead(region, n, init) ensures EntryLt(e, last) {
          ReadsEntries(region, n, init, e);
          var i :| 0 <= i < m && KeysOf(init)[i] == EntryKey(region, e);
          assert Lt(KeysOf(entries)[i], KeysOf(entries)[m]);
          EntryKeyOrder(region, e, last);
        }
      }
    }
  }

  ghost predicate SameIds(found: seq<Entry>, ids: seq<str>) {
    |ids| == |found| && forall i :: 0 <= i < |found| ==> ids[i] == found[i].id
  }

  /** What the scanned range reads back as: exactly the selected entries. */
  lemma ScanReads(kv: Kv, region: Key, n: nat, eq: seq<seq<byte>>, lower: Option<(seq<byte>, bool)>, upper: Option<(seq<byte>, bool)>,
                  start: Key, end: Key, entries: seq<(Key, Blob)>)
    requires n > 0 && |eq| <= n && (lower.Some? || upper.Some? ==> |eq| < n)
    requires IsStart(start, region + Parts(eq), lower) && IsEnd(end, region + Parts(eq), upper)
    requires Listing(kv, RangeKeys(kv, start, end), entries)
    ensures forall i :: 0 <= i < |entries| ==> region <= entries[i].0
    ensures Lists(EntriesRead(region, n, entries), SelectedEntries(EntriesUnder(kv, region, n), n, eq, lower, upper))
    ensures SameIds(EntriesRead(region, n, entries), IdsRead(region, n, entries))
  {
    forall i | 0 <= i < |entries| ensures region <= entries[i].0 {
      RangeWithinBase(region + Parts(eq), lower, upper, start, end, entries[i].0);
    }
    var found, selected := EntriesRead(region, n, entries), SelectedEntries(EntriesUnder(kv, region, n), n, eq, lower, upper);
    forall e ensures e in found <==> e in selected {
      ReadsEntries(region, n, entries, e);
      InEntries(kv, region, n, e);
      if |e.raws| == n { RangeIsSelection(region, e, eq, lower, upper, start, end); }
    }
    ReadsInOrder(region, n, entries);
    ReadsIds(region, n, entries);
  }

  method DecodeIds(region: Key, fieldCount: nat, entries: seq<(Key, Blob)>) returns (ids: seq<str>)
    requires forall i :: 0 <= i < |entries| ==> region <= entries[i].0
    ensures ids == IdsRead(region, fieldCount, entries)
  {
    ids := [];
    for i := 0 to |entries|
      invariant ids == IdsRead(region, fieldCount, entries[..i])
    {
      assert entries[..i + 1][..i] == entries[..i];
      var id := IdFromEntry(entries[i].0, |region|, fieldCount);
      if id.Some? {
        ids := ids + [id.value];
      }
    }
    assert entries[..|entries|] == entries;
  }

  /**
   Record ids whose tuple starts with `eq` and whose next value lies in the
   bounds, in tuple order and then id order: exactly those of the selected
   entries, whatever else the region holds. Fails exactly when an argument is not
   indexable.
   */
  method FindIds(storage: Storage, t: Table, name: str, eq: seq<Value>, lower: Option<RangeBound>, upper: Option<RangeBound>, fieldCount: nat)
    returns (r: Result<seq<str>>, ghost found: seq<Entry>)
    requires 0 < fieldCount && |eq| <= fieldCount
    requires lower.Some? || upper.Some? ==> |eq| < fieldCount
    ensures r.Ok? <==> EncodeAll(eq).Ok? && BoundOk(lower) && BoundOk(upper)
    ensures r.Err? ==> r.error == Index
    ensures r.Ok? ==> Lists(found, SelectedEntries(EntriesUnder(storage.kv, IndexPrefix(t, name), fieldCount), fieldCount, EncodeAll(eq).value, RawBound(lower), RawBound(upper)))
    ensures r.Ok? ==> SameIds(found, r.value)
  {
    found := [];
    var region := IndexPrefix(t, name);
    var part :- EncodeCompositeKeyPart(eq);
    var base := region + part;
    assert base[|region| - 1] == SEPARATOR;

    var start :- StartOfRange(base, lower);
    var end :- EndOfRange(base, upper);

    var entries: seq<(Key, Blob)> := [];
    if Lt(start, end) {
      entries := storage.Scan(start, end);
    } else {
      EmptyRange(storage.kv, start, end);
    }
    ScanReads(storage.kv, region, fieldCount, EncodeAll(eq).value, RawBound(lower), RawBound(upper), start, end, entries);
    found := EntriesRead(region, fieldCount, entries);
    var ids := DecodeIds(region, fieldCount, entries);
    r := Ok(ids);
  }

  // -------------------------------------------------------------------------
  // Same-typed columns: the byte-level selection read as a selection on values
  // -------------------------------------------------------------------------

  predicate Typed(values: seq<Value>, kinds: seq<Kind>) {
    |values| <= |kinds| && forall i :: 0 <= i < |values| ==> HasKind(values[i], kinds[i])
  }

  predicate ValueTupleLt(s: seq<Value>, t: seq<Value>) {
    s != [] && t != [] && (ValueLt(s[0], t[0]) || (s[0] == t[0] && ValueTupleLt(s[1..], t[1..])))
  }

  /** `v` respects a bound of the column order. */
  predicate WithinLower(v: Value, bound: RangeBound) {
    ValueLt(bound.0, v) || (bound.1 && ValueEq(bound.0, v))
  }

  predicate WithinUpper(v: Value, bound: RangeBound) {
    ValueLt(v, bound.0) || (bound.1 && ValueEq(v, bound.0))
  }

  /** Values start with `eq` under `==` and the next one lies in the bounds under `CmpValues`. */
  predicate SelectedValues(values: seq<Value>, eq: seq<Value>, lower: Option<RangeBound>, upper: Option<RangeBound>)
    requires |eq| <= |values| && (lower.Some? || upper.Some? ==> |eq| < |values|)
  {
    && (forall i :: 0 <= i < |eq| ==> ValueEq(values[i], eq[i]))
    && (lower.Some? ==> WithinLower(values[|eq|], lower.value))
    && (upper.Some? ==> WithinUpper(values[|eq|], upper.value))
  }

  lemma TypedEncodes(values: seq<Value>, kinds: seq<Kind>)
    requires Typed(values, kinds)
    ensures EncodeAll(values).Ok?
  {
    forall i | 0 <= i < |values| ensures Indexable(values[i]) {
      EncodingPreservesOrder(values[i], values[i], kinds[i]);
    }
  }

  lemma EncodeAllHead(s: seq<Value>)
    requires s != [] && EncodeAll(s).Ok?
    ensures EncodeAll(s[1..]).Ok? && EncodeIndexValue(s[0]) == Ok(EncodeAll(s).value[0])
    ensures EncodeAll(s).value[1..] == EncodeAll(s[1..]).value
  {
  }

  lemma SeqHeadTail<T>(s: seq<T>, t: seq<T>)
    requires s != [] && t != []
    ensures s == t <==> s[0] == t[0] && s[1..] == t[1..]
  {
    assert s == [s[0]] + s[1..] && t == [t[0]] + t[1..];
  }

  /** Tuples of one column typing sort by value, and distinct tuples encode differently. */
  lemma {:induction false} TupleOrderIsValueOrder(s: seq<Value>, t: seq<Value>, kinds: seq<Kind>)
    requires Typed(s, kinds) && Typed(t, kinds) && EncodeAll(s).Ok? && EncodeAll(t).Ok? && |s| == |t|
    ensures TupleLt(EncodeAll(s).value, EncodeAll(t).value) <==> ValueTupleLt(s, t)
    ensures EncodeAll(s).value == EncodeAll(t).value <==> s == t
  {
    if s != [] {
      EncodeAllHead(s);
      EncodeAllHead(t);
      EncodingPreservesOrder(s[0], t[0], kinds[0]);
      TupleOrderIsValueOrder(s[1..], t[1..], kinds[1..]);
      SeqHeadTail(s, t);
      SeqHeadTail(EncodeAll(s).value, EncodeAll(t).value);
    }
  }

  /** The byte-level selection is the value-level one when every column has one type. */
  lemma SelectionOnValues(values: seq<Value>, eq: seq<Value>, lower: Option<RangeBound>, upper: Option<RangeBound>, kinds: seq<Kind>)
    requires |eq| <= |values| && (lower.Some? || upper.Some? ==> |eq| < |values|)
    requires Typed(values, kinds) && Typed(eq, kinds)
    requires lower.Some? ==> HasKind(lower.value.0, kinds[|eq|])
    requires upper.Some? ==> HasKind(upper.value.0, kinds[|eq|])
    ensures EncodeAll(values).Ok? && EncodeAll(eq).Ok? && BoundOk(lower) && BoundOk(upper)
    ensures Selected(EncodeAll(values).value, EncodeAll(eq).value, RawBound(lower), RawBound(upper))
            <==> SelectedValues(values, eq, lower, upper)
  {
    TypedEncodes(values, kinds);
    TypedEncodes(eq, kinds);
    var raws, req := EncodeAll(values).value, EncodeAll(eq).value;
    forall i | 0 <= i < |eq| ensures raws[i] == req[i] <==> ValueEq(values[i], eq[i]) {
      EncodingPreservesOrder(values[i], eq[i], kinds[i]);
    }
    assert req <= raws <==> forall i :: 0 <= i < |eq| ==> raws[i] == req[i];
    if lower.Some? {
      EncodingPreservesOrder(lower.value.0, values[|eq|], kinds[|eq|]);
    }
    if upper.Some? {
      EncodingPreservesOrder(values[|eq|], upper.value.0, kinds[|eq|]);
    }
  }
}
