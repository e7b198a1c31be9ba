/**
 The binary key encoding of the shared keyspace (crates/storage/src/key.rs).

 Every key is `ns 00 db 00 table 00 tag remainder`. Namespace, database,
 table, index and vertex names are `Segment`s: they hold no 0x00 byte.
 */
module Keys {
  import opened Bytes
  import opened Wrappers

  const METADATA: byte := 0x21
  const DOCUMENT: byte := 0x2A
  const INDEX: byte := 0x2B
  const GRAPH_EDGE: byte := 0x7E

  const INCOMING: byte := 0x3C
  const OUTGOING: byte := 0x3E

  const SEPARATOR: byte := 0x00

  predicate Segment(s: seq<byte>) {
    SEPARATOR !in s
  }

  datatype Table = Table(ns: str, db: str, name: str) {
    predicate Valid() {
      Segment(ns) && Segment(db) && Segment(name)
    }
  }

  // -------------------------------------------------------------------------
  // Key constructors
  // -------------------------------------------------------------------------

  function Sep(s: seq<byte>): seq<byte> {
    s + [SEPARATOR]
  }

  /** Start of every key of table `t`. */
  function TableStart(t: Table): seq<byte> {
    Sep(t.ns) + Sep(t.db) + Sep(t.name)
  }

  function TablePrefix(t: Table, tag: byte): seq<byte> {
    TableStart(t) + [tag]
  }

  function DocumentKey(t: Table, id: str): seq<byte> {
    TablePrefix(t, DOCUMENT) + id
  }

  const IDX: seq<byte> := [0x69, 0x64, 0x78]  // "idx"

  function CatalogPrefix(t: Table): seq<byte> {
    TablePrefix(t, METADATA) + Sep(IDX)
  }

  function CatalogKey(t: Table, name: str): seq<byte> {
    CatalogPrefix(t) + name
  }

  function IndexPrefix(t: Table, name: str): seq<byte> {
    TablePrefix(t, INDEX) + Sep(name)
  }

  /** Key of one index entry: region, encoded tuple, record id. */
  function IndexEntryKey(t: Table, name: str, part: seq<byte>, id: str): seq<byte> {
    IndexPrefix(t, name) + part + id
  }

  function VertexPrefix(t: Table, dir: byte, v: str): seq<byte> {
    TablePrefix(t, GRAPH_EDGE) + Sep(v) + [dir]
  }

  function VertexTypedPrefix(t: Table, dir: byte, v: str, edgeType: str): seq<byte> {
    TablePrefix(t, GRAPH_EDGE) + Sep(v) + Sep([dir] + edgeType)
  }

  function EdgeKey(t: Table, dir: byte, v: str, edgeType: str, other: str): seq<byte> {
    VertexTypedPrefix(t, dir, v, edgeType) + other
  }

  function OutgoingKey(t: Table, src: str, edgeType: str, dst: str): seq<byte> {
    EdgeKey(t, OUTGOING, src, edgeType, dst)
  }

  function IncomingKey(t: Table, dst: str, edgeType: str, src: str): seq<byte> {
    EdgeKey(t, INCOMING, dst, edgeType, src)
  }

  // -------------------------------------------------------------------------
  // Splitting at separators
  // -------------------------------------------------------------------------

  function FirstNul(s: seq<byte>): (i: nat)
    requires SEPARATOR in s
    ensures i < |s| && s[i] == SEPARATOR && Segment(s[..i])
  {
    if s[0] == SEPARATOR then 0
    else
      assert SEPARATOR in s[1..];
      var i := 1 + FirstNul(s[1..]);
      assert s[..i] == [s[0]] + s[1..][..i - 1];
      i
  }

  /** At most `n` pieces of `s` cut at separators; the last piece keeps the rest. */
  function SplitN(n: nat, s: seq<byte>): (parts: seq<seq<byte>>)
    requires n > 0
    ensures 1 <= |parts| <= n
  {
    if n == 1 || Segment(s) then [s]
    else var i := FirstNul(s); [s[..i]] + SplitN(n - 1, s[i + 1..])
  }

  lemma SplitNStep(n: nat, head: seq<byte>, rest: seq<byte>)
    requires n > 1 && Segment(head)
    ensures SplitN(n, Sep(head) + rest) == [head] + SplitN(n - 1, rest)
  {
    var s := Sep(head) + rest;
    assert s[|head|] == SEPARATOR;
    var i := FirstNul(s);
    assert forall j :: 0 <= j < |head| ==> s[j] == head[j];
    assert forall j :: 0 <= j < i ==> s[..i][j] == s[j];
    assert s[..i] == head && s[i + 1..] == rest;
  }

  /** Cutting at the first separator is the only way to read `head 00 rest`. */
  lemma SepInjective(head: seq<byte>, rest: seq<byte>, head': seq<byte>, rest': seq<byte>)
    requires Segment(head) && Segment(head')
    requires Sep(head) + rest == Sep(head') + rest'
    ensures head == head' && rest == rest'
  {
    SplitNStep(2, head, rest);
    SplitNStep(2, head', rest');
    assert [head] + SplitN(1, rest) == [head, rest] && [head'] + SplitN(1, rest') == [head', rest'];
    assert [head, rest][0] == head && [head, rest][1] == rest;
    assert [head', rest'][0] == head' && [head', rest'][1] == rest';
  }

  datatype KeyParts = KeyParts(ns: seq<byte>, db: seq<byte>, table: seq<byte>, tag: byte, remainder: seq<byte>)

  function ParseKey(key: seq<byte>): Result<KeyParts> {
    var parts := SplitN(4, key);
    if |parts| < 4 || parts[3] == [] then Err(Storage)
    else Ok(KeyParts(parts[0], parts[1], parts[2], parts[3][0], parts[3][1..]))
  }

  /** `parse_key` inverts the builder on every key of a table. */
  lemma ParseBuilt(t: Table, tag: byte, rem: seq<byte>)
    requires t.Valid()
    ensures ParseKey(TablePrefix(t, tag) + rem) == Ok(KeyParts(t.ns, t.db, t.name, tag, rem))
  {
    TablePrefixNests(t, tag, rem);
    SplitTable(t.ns, t.db, t.name, [tag] + rem);
  }

  lemma SplitTable(a: seq<byte>, b: seq<byte>, c: seq<byte>, rest: seq<byte>)
    requires Segment(a) && Segment(b) && Segment(c)
    ensures SplitN(4, Sep(a) + (Sep(b) + (Sep(c) + rest))) == [a, b, c, rest]
  {
    SplitNStep(4, a, Sep(b) + (Sep(c) + rest));
    SplitNStep(3, b, Sep(c) + rest);
    SplitNStep(2, c, rest);
    assert [a] + ([b] + ([c] + [rest])) == [a, b, c, rest];
  }

  lemma TablePrefixNests(t: Table, tag: byte, rem: seq<byte>)
    ensures TablePrefix(t, tag) + rem == Sep(t.ns) + (Sep(t.db) + (Sep(t.name) + ([tag] + rem)))
  {
  }

  /** A key determines its table, its tag and its remainder: no two regions overlap. */
  lemma KeyDecomposes(t: Table, tag: byte, rem: seq<byte>, t': Table, tag': byte, rem': seq<byte>)
    requires t.Valid() && t'.Valid()
    requires TablePrefix(t, tag) + rem == TablePrefix(t', tag') + rem'
    ensures t == t' && tag == tag' && rem == rem'
  {
    ParseBuilt(t, tag, rem);
    ParseBuilt(t', tag', rem');
  }

  /** Two region prefixes of one key belong to the same table and tag. */
  lemma RegionsDisjoint(t: Table, tag: byte, t': Table, tag': byte, key: seq<byte>)
    requires t.Valid() && t'.Valid()
    requires TablePrefix(t, tag) <= key && TablePrefix(t', tag') <= key
    ensures t == t' && tag == tag'
  {
    KeyDecomposes(t, tag, key[|TablePrefix(t, tag)|..], t', tag', key[|TablePrefix(t', tag')|..]);
  }

  /** An index entry key determines the index name and what follows it. */
  lemma IndexKeyDecomposes(t: Table, name: str, rest: seq<byte>, name': str, rest': seq<byte>)
    requires Segment(name) && Segment(name')
    requires IndexPrefix(t, name) + rest == IndexPrefix(t, name') + rest'
    ensures name == name' && rest == rest'
  {
    var p := TablePrefix(t, INDEX);
    var k := IndexPrefix(t, name) + rest;
    assert k[|p|..] == Sep(name) + rest;
    assert k == IndexPrefix(t, name') + rest' && k[|p|..] == Sep(name') + rest';
    SepInjective(name, rest, name', rest');
  }

  /** Splitting the remainder of an edge key recovers vertex, direction, type and other end. */
  lemma EdgeKeyParses(t: Table, dir: byte, v: str, edgeType: str, other: str)
    requires t.Valid() && Segment(v) && Segment([dir] + edgeType)
    ensures ParseKey(EdgeKey(t, dir, v, edgeType, other)).Ok?
    ensures ParseKey(EdgeKey(t, dir, v, edgeType, other)).value.tag == GRAPH_EDGE
    ensures SplitN(3, ParseKey(EdgeKey(t, dir, v, edgeType, other)).value.remainder) == [v, [dir] + edgeType, other]
  {
    var r := Sep([dir] + edgeType) + other;
    assert EdgeKey(t, dir, v, edgeType, other) == TablePrefix(t, GRAPH_EDGE) + (Sep(v) + r);
    ParseBuilt(t, GRAPH_EDGE, Sep(v) + r);
    SplitNStep(3, v, r);
    SplitNStep(2, [dir] + edgeType, other);
  }

  // -------------------------------------------------------------------------
  // End of a prefix range
  // -------------------------------------------------------------------------

  /**
   Exclusive end of the range of keys that start with `prefix`: the last byte
   below 0xFF is incremented and everything after it dropped. Empty when every
   byte is 0xFF.
   */
  method PrefixEnd(prefix: seq<byte>) returns (end: seq<byte>)
    ensures end == [] <==> forall i :: 0 <= i < |prefix| ==> prefix[i] == 0xFF
    ensures end != [] ==> forall k: seq<byte> :: Le(prefix, k) && Lt(k, end) <==> prefix <= k
    ensures end != [] ==> Lt(prefix, end)
  {
    end := prefix;
    while end != []
      invariant end <= prefix
      invariant forall i :: |end| <= i < |prefix| ==> prefix[i] == 0xFF
      decreases |end|
    {
      var last := end[|end| - 1];
      if last < 0xFF {
        ghost var cut := end;
        end := end[..|end| - 1] + [last + 1];
        forall k: seq<byte> ensures Le(prefix, k) && Lt(k, end) <==> prefix <= k {
          PrefixEndBounds(prefix, cut, end, k);
        }
        PrefixEndBounds(prefix, cut, end, prefix);
        return;
      }
      end := end[..|end| - 1];
    }
  }

  /** Why incrementing the last byte below 0xFF ends exactly the range of the prefix. */
  lemma {:induction false} PrefixEndBounds(prefix: seq<byte>, cut: seq<byte>, end: seq<byte>, k: seq<byte>)
    requires cut != [] && cut <= prefix && cut[|cut| - 1] < 0xFF
    requires forall i :: |cut| <= i < |prefix| ==> prefix[i] == 0xFF
    requires end == cut[..|cut| - 1] + [cut[|cut| - 1] + 1]
    ensures Le(prefix, k) && Lt(k, end) <==> prefix <= k
  {
    if |cut| == 1 {
      if k != [] && k[0] == prefix[0] {
        AllMax(prefix[1..], k[1..]);
        assert prefix == [prefix[0]] + prefix[1..] && k == [k[0]] + k[1..];
      }
    } else if k != [] {
      PrefixEndBounds(prefix[1..], cut[1..], end[1..], k[1..]);
      assert prefix == [prefix[0]] + prefix[1..] && k == [k[0]] + k[1..];
    }
  }

  /** At or after a run of 0xFF bytes means extending it. */
  lemma {:induction false} AllMax(p: seq<byte>, k: seq<byte>)
    requires forall i :: 0 <= i < |p| ==> p[i] == 0xFF
    ensures Le(p, k) <==> p <= k
  {
    if p != [] && k != [] {
      AllMax(p[1..], k[1..]);
      assert p == [p[0]] + p[1..] && k == [k[0]] + k[1..];
    }
  }
}
