/**
 Order-preserving, self-delimiting encoding of index tuples
 (crates/document/src/index.rs).

 A value is encoded per type, every 0x00 is escaped as 00 FF, and the part ends
 with 00 01. Parts are concatenated and the record id follows.
 */
module IndexEncoding {
  import opened Bytes
  import opened Wrappers
  import opened Values
  import Unicode

  const TERM: seq<byte> := [0x00, 0x01]

  // -------------------------------------------------------------------------
  // Per-type encoding
  // -------------------------------------------------------------------------

  function Pow256(n: nat): (p: int)
    ensures p > 0
  {
    if n == 0 then 1 else 256 * Pow256(n - 1)
  }

  /** The `n` low bytes of `u`, most significant first. */
  function BigEndian(n: nat, u: int): (s: seq<byte>)
    requires 0 <= u
    ensures |s| == n
  {
    if n == 0 then [] else [(u / Pow256(n - 1)) % 256] + BigEndian(n - 1, u % Pow256(n - 1))
  }

  /** Flipping the sign bit of a 64-bit integer adds 2^63 to its value. */
  function EncodeI64(n: i64): seq<byte> {
    BigEndian(8, n + TWO63)
  }

  function EncodeF64(bits: u64): seq<byte> {
    BigEndian(8, OrderBits(bits))
  }

  function EncodeIndexValue(v: Value): Result<seq<byte>> {
    match v
    case String(s) => Ok(s)
    case Int(n) => Ok(EncodeI64(n))
    case Float(bits) => Ok(EncodeF64(bits))
    case Bool(b) => Ok([if b then 0x01 else 0x00])
    case _ => Err(Index)
  }

  predicate Indexable(v: Value) {
    v.String? || v.Int? || v.Float? || v.Bool?
  }

  lemma {:induction false} BigEndianOrder(n: nat, u: int, v: int)
    requires 0 <= u < Pow256(n) && 0 <= v < Pow256(n)
    ensures Lt(BigEndian(n, u), BigEndian(n, v)) <==> u < v
    ensures BigEndian(n, u) == BigEndian(n, v) <==> u == v
  {
    if n > 0 {
      var p := Pow256(n - 1);
      TopDigit(u, p);
      TopDigit(v, p);
      BigEndianOrder(n - 1, u % p, v % p);
      if u < v { QuotientOrder(u, v, p); }
      if v < u { QuotientOrder(v, u, p); }
      assert BigEndian(n, u)[0] == u / p && BigEndian(n, u)[1..] == BigEndian(n - 1, u % p);
      assert BigEndian(n, v)[0] == v / p && BigEndian(n, v)[1..] == BigEndian(n - 1, v % p);
    }
  }

  lemma TopDigit(u: int, p: int)
    requires 0 <= u < 256 * p && p > 0
    ensures 0 <= u / p < 256 && (u / p) % 256 == u / p && 0 <= u % p < p
  {
    assert u == p * (u / p) + u % p;
    if u / p >= 256 { FactorOrder(p, 256, u / p); assert false; }
  }

  /** Values an indexed column may hold: one type, and for floats neither NaN nor -0.0. */
  datatype Kind = BoolKind | IntKind | FloatKind | StringKind

  predicate HasKind(v: Value, kind: Kind) {
    match kind
    case BoolKind => v.Bool?
    case IntKind => v.Int?
    case FloatKind => v.Float? && !NaN(v.bits) && v.bits != TWO63
    case StringKind => v.String?
  }

  /** Column order: `CmpValues` where it is defined, and false before true. */
  predicate ValueLt(v: Value, w: Value) {
    CmpValues(v, w) == Some(Less) || (v == Bool(false) && w == Bool(true))
  }

  /** Within one column, byte order of the encodings is the order of the values. */
  lemma EncodingPreservesOrder(v: Value, w: Value, kind: Kind)
    requires HasKind(v, kind) && HasKind(w, kind)
    ensures EncodeIndexValue(v).Ok? && EncodeIndexValue(w).Ok?
    ensures Lt(EncodeIndexValue(v).value, EncodeIndexValue(w).value) <==> ValueLt(v, w)
    ensures EncodeIndexValue(v).value == EncodeIndexValue(w).value <==> v == w
    ensures v == w <==> ValueEq(v, w)
  {
    assert Pow256(8) == 0x1_0000_0000_0000_0000;
    match kind
    case BoolKind =>
    case StringKind => LtTrichotomy(v.s, w.s);
    case IntKind => BigEndianOrder(8, v.n + TWO63, w.n + TWO63);
    case FloatKind =>
      SignedOrder(v.bits, w.bits);
      BigEndianOrder(8, OrderBits(v.bits), OrderBits(w.bits));
      assert OrderBits(v.bits) == OrderBits(w.bits) ==> v.bits == w.bits;
  }

  // -------------------------------------------------------------------------
  // Escaping
  // -------------------------------------------------------------------------

  function EscapeByte(b: byte): seq<byte> {
    if b == 0x00 then [0x00, 0xFF] else [b]
  }

  function Escape(raw: seq<byte>): seq<byte> {
    if raw == [] then [] else EscapeByte(raw[0]) + Escape(raw[1..])
  }

  method EscapeInto(raw: seq<byte>, out: seq<byte>) returns (r: seq<byte>)
    ensures r == out + Escape(raw)
  {
    r := out;
    for i := 0 to |raw|
      invariant out + Escape(raw) == r + Escape(raw[i..])
    {
      assert raw[i..][1..] == raw[i + 1..];
      ghost var before := r;
      r := r + [raw[i]];
      if raw[i] == 0x00 {
        r := r + [0xFF];
      }
      assert r + Escape(raw[i + 1..]) == before + Escape(raw[i..]);
    }
    assert r + [] == r;
  }

  function Part(raw: seq<byte>): seq<byte> {
    Escape(raw) + TERM
  }

  lemma PartStep(a: seq<byte>, x: seq<byte>)
    requires a != []
    ensures Part(a) + x == EscapeByte(a[0]) + (Part(a[1..]) + x)
  {
  }

  /** First two bytes of a part. */
  lemma PartHead(a: seq<byte>, x: seq<byte>)
    ensures |Part(a) + x| >= 2
    ensures a == [] ==> (Part(a) + x)[0] == 0x00 && (Part(a) + x)[1] == 0x01
    ensures a != [] ==> (Part(a) + x)[0] == a[0] && (a[0] == 0x00 ==> (Part(a) + x)[1] == 0xFF)
  {
  }

  lemma HeadTailEqual(a: seq<byte>, b: seq<byte>)
    requires a != [] && b != [] && a[0] == b[0]
    ensures a == b <==> a[1..] == b[1..]
  {
    assert a == [a[0]] + a[1..] && b == [b[0]] + b[1..];
  }

  /** Head of a terminated part, followed by anything: the order is decided by the raw bytes. */
  lemma {:induction false} PartOrder(a: seq<byte>, b: seq<byte>, x: seq<byte>, y: seq<byte>)
    ensures Lt(Part(a) + x, Part(b) + y) <==> Lt(a, b) || (a == b && Lt(x, y))
  {
    if a == [] && b == [] {
      LtIrreflexive([]);
      assert Part(a) == TERM && Part(b) == TERM;
      LtCommonPrefix(TERM, x, y);
    } else if a != [] && b != [] && a[0] == b[0] {
      PartStep(a, x);
      PartStep(b, y);
      LtCommonPrefix(EscapeByte(a[0]), Part(a[1..]) + x, Part(b[1..]) + y);
      PartOrder(a[1..], b[1..], x, y);
      HeadTailEqual(a, b);
    } else {
      PartHeadsDiffer(a, b, x, y);
    }
  }

  lemma PartHeadsDiffer(a: seq<byte>, b: seq<byte>, x: seq<byte>, y: seq<byte>)
    requires a != [] || b != []
    requires a != [] && b != [] ==> a[0] != b[0]
    ensures Lt(Part(a) + x, Part(b) + y) <==> Lt(a, b)
  {
    PartHead(a, x);
    PartHead(b, y);
  }

  /** An escaped value without its terminator separates the smaller values from the rest. */
  lemma {:induction false} EscapeBound(w: seq<byte>, v: seq<byte>, x: seq<byte>)
    ensures Lt(Part(w) + x, Escape(v)) <==> Lt(w, v)
  {
    if v != [] {
      if w != [] && w[0] == v[0] {
        PartStep(w, x);
        LtCommonPrefix(EscapeByte(w[0]), Part(w[1..]) + x, Escape(v[1..]));
        EscapeBound(w[1..], v[1..], x);
      } else {
        PartHead(w, x);
      }
    }
  }

  /** Terminated parts are prefix-free. */
  lemma {:induction false} PartPrefixFree(a: seq<byte>, b: seq<byte>, y: seq<byte>)
    ensures Part(a) <= Part(b) + y <==> a == b
  {
    assert Part(a) + [] == Part(a);
    if a != [] && b != [] && a[0] == b[0] {
      PartStep(a, []);
      PartStep(b, y);
      assert Part(a[1..]) + [] == Part(a[1..]);
      PrefixStrip(EscapeByte(a[0]), Part(a[1..]), Part(b[1..]) + y);
      PartPrefixFree(a[1..], b[1..], y);
      HeadTailEqual(a, b);
    } else {
      PartHead(a, []);
      PartHead(b, y);
    }
  }

  lemma PrefixStrip(h: seq<byte>, a: seq<byte>, b: seq<byte>)
    ensures h + a <= h + b <==> a <= b
  {
    if h + a <= h + b {
      forall i | 0 <= i < |a| ensures a[i] == b[i] {
        assert (h + a)[|h| + i] == (h + b)[|h| + i];
      }
    }
  }

  // -------------------------------------------------------------------------
  // Tuples
  // -------------------------------------------------------------------------

  /** Per-type encodings of a tuple, or the first error. */
  function EncodeAll(values: seq<Value>): (r: Result<seq<seq<byte>>>)
    ensures r.Ok? <==> forall i :: 0 <= i < |values| ==> Indexable(values[i])
    ensures r.Err? ==> r.error == Index
    ensures r.Ok? ==> |r.value| == |values|
    ensures r.Ok? ==> forall i :: 0 <= i < |values| ==> EncodeIndexValue(values[i]) == Ok(r.value[i])
  {
    if values == [] then Ok([])
    else
      var first :- EncodeIndexValue(values[0]);
      var rest :- EncodeAll(values[1..]);
      Ok([first] + rest)
  }

  function Parts(raws: seq<seq<byte>>): seq<byte> {
    if raws == [] then [] else Part(raws[0]) + Parts(raws[1..])
  }

  method EncodeIndexValueEscaped(v: Value) returns (r: Result<seq<byte>>)
    ensures r == match EncodeIndexValue(v) case Ok(raw) => Ok(Escape(raw)) case Err(e) => Err(e)
  {
    var raw :- EncodeIndexValue(v);
    var out := EscapeInto(raw, []);
    assert [] + Escape(raw) == Escape(raw);
    r := Ok(out);
  }

  method EncodeIndexKeyPart(v: Value) returns (r: Result<seq<byte>>)
    ensures r == match EncodeIndexValue(v) case Ok(raw) => Ok(Part(raw)) case Err(e) => Err(e)
  {
    var out :- EncodeIndexValueEscaped(v);
    r := Ok(out + TERM);
  }

  method EncodeCompositeKeyPart(values: seq<Value>) returns (r: Result<seq<byte>>)
    ensures r == match EncodeAll(values) case Ok(raws) => Ok(Parts(raws)) case Err(e) => Err(e)
  {
    var out: seq<byte> := [];
    for i := 0 to |values|
      invariant EncodeAll(values[..i]).Ok? && out == Parts(EncodeAll(values[..i]).value)
    {
      var part := EncodeIndexKeyPart(values[i]);
      if part.Err? {
        assert !Indexable(values[i]);
        return Err(part.error);
      }
      EncodeAllSplit(values, i);
      PartsAppend(EncodeAll(values[..i]).value, EncodeIndexValue(values[i]).value);
      out := out + part.value;
    }
    assert values[..|values|] == values;
    r := Ok(out);
  }

  lemma EncodeAllAppend(values: seq<Value>, v: Value)
    requires EncodeAll(values).Ok? && EncodeIndexValue(v).Ok?
    ensures EncodeAll(values + [v]) == Ok(EncodeAll(values).value + [EncodeIndexValue(v).value])
  {
    var all := EncodeAll(values + [v]);
    assert forall i :: 0 <= i < |values + [v]| ==> Indexable((values + [v])[i]);
    assert all.value == EncodeAll(values).value + [EncodeIndexValue(v).value];
  }

  lemma EncodeAllSplit(values: seq<Value>, i: nat)
    requires i < |values| && EncodeAll(values[..i]).Ok? && EncodeIndexValue(values[i]).Ok?
    ensures EncodeAll(values[..i + 1]) == Ok(EncodeAll(values[..i]).value + [EncodeIndexValue(values[i]).value])
  {
    assert values[..i + 1] == values[..i] + [values[i]];
    EncodeAllAppend(values[..i], values[i]);
  }

  lemma {:induction false} PartsAppend(raws: seq<seq<byte>>, raw: seq<byte>)
    ensures Parts(raws + [raw]) == Parts(raws) + Part(raw)
  {
    if raws == [] {
      assert [raw][1..] == [];
      assert Part(raw) + [] == Part(raw) == [] + Part(raw);
      assert [] + [raw] == [raw];
    } else {
      assert (raws + [raw])[1..] == raws[1..] + [raw];
      PartsAppend(raws[1..], raw);
    }
  }

  /** Lexicographic order of raw tuples. */
  predicate TupleLt(s: seq<seq<byte>>, t: seq<seq<byte>>) {
    s != [] && t != [] && (Lt(s[0], t[0]) || (s[0] == t[0] && TupleLt(s[1..], t[1..])))
  }

  /** Concatenated parts sort by tuple first and by what follows second. */
  lemma {:induction false} PartsOrder(s: seq<seq<byte>>, t: seq<seq<byte>>, x: seq<byte>, y: seq<byte>)
    requires |s| == |t|
    ensures Lt(Parts(s) + x, Parts(t) + y) <==> TupleLt(s, t) || (s == t && Lt(x, y))
  {
    if s == [] {
      assert Parts(s) + x == x && Parts(t) + y == y;
    } else {
      assert Parts(s) + x == Part(s[0]) + (Parts(s[1..]) + x);
      assert Parts(t) + y == Part(t[0]) + (Parts(t[1..]) + y);
      PartOrder(s[0], t[0], Parts(s[1..]) + x, Parts(t[1..]) + y);
      PartsOrder(s[1..], t[1..], x, y);
      LtIrreflexive(s[0]);
      assert s == t <==> s[0] == t[0] && s[1..] == t[1..] by {
        assert s == [s[0]] + s[1..] && t == [t[0]] + t[1..];
      }
    }
  }

  /** A key starts with the parts of `e` exactly when its tuple starts with `e`. */
  lemma {:induction false} PartsPrefix(e: seq<seq<byte>>, t: seq<seq<byte>>, x: seq<byte>)
    requires |e| <= |t|
    ensures Parts(e) <= Parts(t) + x <==> e <= t
  {
    if e != [] {
      var rest := Parts(t[1..]) + x;
      assert Parts(t) + x == Part(t[0]) + rest;
      PartPrefixFree(e[0], t[0], rest);
      PartsPrefix(e[1..], t[1..], x);
      assert e <= t <==> e[0] == t[0] && e[1..] <= t[1..] by {
        assert e == [e[0]] + e[1..] && t == [t[0]] + t[1..];
      }
      if Parts(e) <= Parts(t) + x {
        assert Part(e[0]) <= Parts(e) <= Part(t[0]) + rest;
        PrefixStrip(Part(e[0]), Parts(e[1..]), rest);
      } else if e <= t {
        PrefixStrip(Part(e[0]), Parts(e[1..]), rest);
      }
    }
  }

  lemma {:induction false} PartsConcat(s: seq<seq<byte>>, t: seq<seq<byte>>)
    ensures Parts(s + t) == Parts(s) + Parts(t)
  {
    if s == [] {
      assert s + t == t;
    } else {
      assert (s + t)[1..] == s[1..] + t;
      PartsConcat(s[1..], t);
    }
  }

  /** Equal-length tuples with the same concatenation and tail are the same. */
  lemma PartsInjective(s: seq<seq<byte>>, x: seq<byte>, t: seq<seq<byte>>, y: seq<byte>)
    requires |s| == |t| && Parts(s) + x == Parts(t) + y
    ensures s == t && x == y
  {
    PartsPrefix(s, t, y);
    assert Parts(s) <= Parts(t) + y;
    assert (Parts(s) + x)[|Parts(s)|..] == x;
  }

  // -------------------------------------------------------------------------
  // Recovering the id
  // -------------------------------------------------------------------------

  /** What follows the `n`-th terminator of `s`, reading escapes as pairs. */
  function AfterTerms(s: seq<byte>, n: int): Option<seq<byte>> {
    if |s| < 2 then None
    else if s[0] != 0x00 then AfterTerms(s[1..], n)
    else if s[1] == 0xFF then AfterTerms(s[2..], n)
    else if s[1] != 0x01 then None
    else if n == 1 then Some(s[2..])
    else AfterTerms(s[2..], n - 1)
  }

  method IdFromEntry(key: seq<byte>, regionLen: nat, fieldCount: nat) returns (r: Option<str>)
    requires regionLen <= |key|
    ensures r == match AfterTerms(key[regionLen..], fieldCount)
      case Some(id) => if Utf8(id) then Some(id) else None
      case None => None
    ensures r.Some? <==> AfterTerms(key[regionLen..], fieldCount).Some? && Unicode.IsText(AfterTerms(key[regionLen..], fieldCount).value)
  {
    if AfterTerms(key[regionLen..], fieldCount).Some? { Unicode.Utf8Iff(AfterTerms(key[regionLen..], fieldCount).value); }
    var i := regionLen;
    var seen := 0;
    while i + 1 < |key|
      invariant regionLen <= i <= |key|
      invariant AfterTerms(key[regionLen..], fieldCount) == AfterTerms(key[i..], fieldCount - seen)
      decreases |key| - i
    {
      if key[i] == 0x00 {
        assert key[i..][2..] == key[i + 2..];
        if key[i + 1] == 0xFF {
          i := i + 2;
        } else if key[i + 1] == 0x01 {
          i := i + 2;
          seen := seen + 1;
          if seen == fieldCount {
            return if Utf8(key[i..]) then Some(key[i..]) else None;
          }
        } else {
          return None;
        }
      } else {
        assert key[i..][1..] == key[i + 1..];
        i := i + 1;
      }
    }
    return None;
  }

  lemma {:induction false} AfterPart(raw: seq<byte>, rest: seq<byte>, n: int)
    ensures AfterTerms(Part(raw) + rest, n) == if n == 1 then Some(rest) else AfterTerms(rest, n - 1)
  {
    var s := Part(raw) + rest;
    PartHead(raw, rest);
    if raw == [] {
      assert s[2..] == rest;
    } else {
      assert s[(if raw[0] == 0x00 then 2 else 1)..] == Part(raw[1..]) + rest;
      AfterPart(raw[1..], rest, n);
    }
  }

  /** The id is recovered from any entry, whatever 0x00 bytes the tuple or the id hold. */
  lemma {:induction false} IdRecovered(raws: seq<seq<byte>>, id: seq<byte>)
    requires raws != []
    ensures AfterTerms(Parts(raws) + id, |raws|) == Some(id)
  {
    assert Parts(raws) + id == Part(raws[0]) + (Parts(raws[1..]) + id);
    AfterPart(raws[0], Parts(raws[1..]) + id, |raws|);
    if |raws| > 1 {
      IdRecovered(raws[1..], id);
    } else {
      assert Parts(raws[1..]) + id == id;
    }
  }

  /** So the id of a record named by any text is read from its entries. */
  lemma TextRecovered(raws: seq<seq<byte>>, text: seq<Unicode.scalar>)
    requires raws != []
    ensures AfterTerms(Parts(raws) + Unicode.Encode(text), |raws|) == Some(Unicode.Encode(text)) && Utf8(Unicode.Encode(text))
  {
    IdRecovered(raws, Unicode.Encode(text));
    Unicode.EncodedIsUtf8(text);
  }

  /** Only an entry yields an id: whatever precedes it is a tuple of terminated parts. */
  lemma {:induction false} TermsParsed(s: seq<byte>, n: nat, id: seq<byte>) returns (raws: seq<seq<byte>>)
    requires n > 0 && AfterTerms(s, n) == Some(id)
    ensures |raws| == n && s == Parts(raws) + id
    decreases |s|
  {
    if s[0] == 0x00 && s[1] == 0x01 {
      var rest := [];
      if n > 1 { rest := TermsParsed(s[2..], n - 1, id); }
      raws := [[]] + rest;
      assert s == TERM + s[2..];
      PartsHead([], rest, id);
    } else {
      var skip := if s[0] == 0x00 then 2 else 1;
      var rest := TermsParsed(s[skip..], n, id);
      raws := [[s[0]] + rest[0]] + rest[1..];
      assert s == EscapeByte(s[0]) + s[skip..];
      assert ([s[0]] + rest[0])[1..] == rest[0];
      PartsHead([s[0]] + rest[0], rest[1..], id);
      PartsHead(rest[0], rest[1..], id);
      PartStep([s[0]] + rest[0], Parts(rest[1..]) + id);
      assert [rest[0]] + rest[1..] == rest;
    }
  }

  lemma PartsHead(raw: seq<byte>, rest: seq<seq<byte>>, x: seq<byte>)
    ensures Parts([raw] + rest) + x == Part(raw) + (Parts(rest) + x)
  {
    assert ([raw] + rest)[1..] == rest;
  }
}
