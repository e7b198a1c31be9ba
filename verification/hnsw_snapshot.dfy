/** The binary snapshot of an HNSW index (crates/vector/src/hnsw.rs). */
module HnswSnapshot {
  import opened Bytes
  import Unicode
  import opened Wrappers
  import opened HnswGraph
  import opened HnswIndexes

  const U32_LIMIT: nat := 0x1_0000_0000

  // -------------------------------------------------------------------------
  // Little-endian numbers
  // -------------------------------------------------------------------------

  /** `(n as u32).to_le_bytes()`, which truncates. */
  function U32(n: nat): (b: seq<byte>)
    ensures |b| == 4
  {
    var x := n % 0x1_0000_0000;
    [x % 0x100, x / 0x100 % 0x100, x / 0x1_0000 % 0x100, x / 0x100_0000]
  }

  function FromU32(b: seq<byte>): (n: nat)
    requires |b| == 4
    ensures n < 0x1_0000_0000
  {
    b[0] as int + 0x100 * (b[1] as int) + 0x1_0000 * (b[2] as int) + 0x100_0000 * (b[3] as int)
  }

  lemma U32Exact(n: nat)
    requires n < 0x1_0000_0000
    ensures FromU32(U32(n)) == n
  {
    var a, b, c := n / 0x100, n / 0x1_0000, n / 0x100_0000;
    assert a / 0x100 == b && b / 0x100 == c;
    assert n == 0x100 * a + n % 0x100 && a == 0x100 * b + a % 0x100 && b == 0x100 * c + b % 0x100;
  }

  /** The entry point as an `i64`, -1 when there is none. */
  function EntryBytes(entryPoint: Option<nat>): (b: seq<byte>)
    ensures |b| == 8
  {
    if entryPoint.None? then [0xFF, 0xFF, 0xFF, 0xFF, 0xFF, 0xFF, 0xFF, 0xFF]
    else U32(entryPoint.value) + U32(entryPoint.value / 0x1_0000_0000)
  }

  /** Negative numbers stand for no entry point. */
  function FromEntry(b: seq<byte>): Option<nat>
    requires |b| == 8
  {
    var raw := FromU32(b[..4]) + 0x1_0000_0000 * FromU32(b[4..]);
    if raw >= 0x8000_0000_0000_0000 then None else Some(raw)
  }

  lemma EntryExact(entryPoint: Option<nat>)
    requires entryPoint.Some? ==> entryPoint.value < 0x8000_0000_0000_0000
    ensures FromEntry(EntryBytes(entryPoint)) == entryPoint
  {
    if entryPoint.Some? {
      var n := entryPoint.value;
      LowWord(n);
      U32Exact(n % 0x1_0000_0000);
      U32Exact(n / 0x1_0000_0000);
      assert EntryBytes(entryPoint)[..4] == U32(n % 0x1_0000_0000) && EntryBytes(entryPoint)[4..] == U32(n / 0x1_0000_0000);
    }
  }

  lemma LowWord(n: nat)
    ensures U32(n) == U32(n % 0x1_0000_0000)
  {
  }

  function MetricByte(metric: Metric): byte {
    match metric
    case Cosine => 0
    case Euclidean => 1
    case DotProduct => 2
  }

  // -------------------------------------------------------------------------
  // Writing
  // -------------------------------------------------------------------------

  /** The fields a snapshot restores. */
  datatype Image = Image(config: Config, metric: Metric, dim: nat, entryPoint: Option<nat>, maxLevel: nat, nodes: seq<Node>, lookup: map<str, nat>)

  const MAGIC: seq<byte> := [0x48, 0x4E, 0x53, 0x57]
  const VERSION: byte := 1

  function Concat(parts: seq<seq<byte>>): seq<byte> {
    if parts == [] then [] else Concat(parts[..|parts| - 1]) + parts[|parts| - 1]
  }

  lemma {:induction false} ConcatFront(parts: seq<seq<byte>>)
    requires parts != []
    ensures Concat(parts) == parts[0] + Concat(parts[1..])
  {
    if |parts| > 1 {
      ConcatFront(parts[..|parts| - 1]);
      assert parts[..|parts| - 1][1..] == parts[1..][..|parts| - 2];
    }
  }

  function Numbers(ns: seq<nat>): (parts: seq<seq<byte>>)
    ensures |parts| == |ns|
  {
    seq(|ns|, i requires 0 <= i < |ns| => U32(ns[i]))
  }

  function LayerBytes(list: seq<nat>): seq<byte> {
    U32(|list|) + Concat(Numbers(list))
  }

  function Layers(lists: seq<seq<nat>>): (parts: seq<seq<byte>>)
    ensures |parts| == |lists|
  {
    seq(|lists|, i requires 0 <= i < |lists| => LayerBytes(lists[i]))
  }

  function NodeBytes(n: Node): seq<byte> {
    U32(|n.id|) + n.id + [if n.deleted then 1 else 0] + U32(n.level)
      + Concat(Numbers(n.vector)) + U32(|n.neighbors|) + Concat(Layers(n.neighbors))
  }

  function NodeParts(nodes: seq<Node>): (parts: seq<seq<byte>>)
    ensures |parts| == |nodes|
  {
    seq(|nodes|, i requires 0 <= i < |nodes| => NodeBytes(nodes[i]))
  }

  function Header(x: Image): (b: seq<byte>)
    ensures |b| == 38
  {
    MAGIC + [VERSION] + U32(x.config.m) + U32(x.config.efConstruction) + U32(x.config.maxLayers)
      + [MetricByte(x.metric)] + U32(x.dim) + EntryBytes(x.entryPoint) + U32(x.maxLevel) + U32(|x.nodes|)
  }

  function Encode(x: Image): seq<byte> {
    Header(x) + Concat(NodeParts(x.nodes))
  }

  // -------------------------------------------------------------------------
  // Reading: each reader consumes a prefix and returns the rest
  // -------------------------------------------------------------------------

  type Reader<T> = seq<byte> -> Option<(T, seq<byte>)>

  function ReadBytes(n: nat, data: seq<byte>): (r: Option<(seq<byte>, seq<byte>)>)
    ensures r.Some? ==> |r.value.0| == n
  {
    if |data| < n then None else Some((data[..n], data[n..]))
  }

  function ReadByte(data: seq<byte>): Option<(byte, seq<byte>)> {
    if data == [] then None else Some((data[0], data[1..]))
  }

  function ReadU32(data: seq<byte>): Option<(nat, seq<byte>)> {
    if |data| < 4 then None else Some((FromU32(data[..4]), data[4..]))
  }

  function ReadF32(data: seq<byte>): Option<(f32, seq<byte>)> {
    if |data| < 4 then None else Some((FromU32(data[..4]), data[4..]))
  }

  /** `n` items one after the other. */
  function ReadMany<T>(n: nat, data: seq<byte>, read: Reader<T>): Option<(seq<T>, seq<byte>)> {
    if n == 0 then Some(([], data))
    else
      match read(data)
      case None => None
      case Some((x, rest)) =>
        match ReadMany(n - 1, rest, read)
        case None => None
        case Some((xs, end)) => Some(([x] + xs, end))
  }

  function ReadLayer(data: seq<byte>): Option<(seq<nat>, seq<byte>)> {
    match ReadU32(data)
    case None => None
    case Some((count, rest)) => ReadMany(count, rest, ReadU32)
  }

  function ReadLayers(data: seq<byte>): Option<(seq<seq<nat>>, seq<byte>)> {
    match ReadU32(data)
    case None => None
    case Some((count, rest)) => ReadMany(count, rest, ReadLayer)
  }

  /** Identifiers must be UTF-8. */
  function ReadId(data: seq<byte>): Option<(str, seq<byte>)> {
    match ReadU32(data)
    case None => None
    case Some((len, rest)) =>
      match ReadBytes(len, rest)
      case None => None
      case Some((id, end)) => if Utf8(id) then Some((id, end)) else None
  }

  function ReadNode(dim: nat, data: seq<byte>): Option<(Node, seq<byte>)> {
    match ReadId(data)
    case None => None
    case Some((id, r1)) =>
      match ReadByte(r1)
      case None => None
      case Some((deleted, r2)) =>
        match ReadU32(r2)
        case None => None
        case Some((level, r3)) =>
          match ReadMany(dim, r3, ReadF32)
          case None => None
          case Some((vector, r4)) =>
            match ReadLayers(r4)
            case None => None
            case Some((neighbors, r5)) => Some((Node(id, vector, level, neighbors, deleted != 0), r5))
  }

  function ReadMetric(b: byte): Option<Metric> {
    if b == 0 then Some(Cosine) else if b == 1 then Some(Euclidean) else if b == 2 then Some(DotProduct) else None
  }

  /** Ids of live nodes, later ones winning. */
  function Rebuilt(nodes: seq<Node>): map<str, nat> {
    if nodes == [] then map[]
    else
      var before, last := Rebuilt(nodes[..|nodes| - 1]), nodes[|nodes| - 1];
      if last.deleted then before else before[last.id := |nodes| - 1]
  }

  /** The fixed-size header, by position. */
  function DecodeHeader(h: seq<byte>): Option<(Config, Metric, nat, Option<nat>, nat, nat)>
    requires |h| == 38
  {
    if h[..4] != MAGIC || h[4] != VERSION || ReadMetric(h[17]).None? then None
    else Some((Config(FromU32(h[5..9]), FromU32(h[9..13]), FromU32(h[13..17])), ReadMetric(h[17]).value, FromU32(h[18..22]),
               FromEntry(h[22..30]), FromU32(h[30..34]), FromU32(h[34..38])))
  }

  function Decode(data: seq<byte>): Result<Image> {
    if |data| < 38 || DecodeHeader(data[..38]).None? then Err(Corrupt)
    else
      var (config, metric, dim, entryPoint, maxLevel, count) := DecodeHeader(data[..38]).value;
      match ReadMany(count, data[38..], bytes => ReadNode(dim, bytes))
      case None => Err(Corrupt)
      case Some((nodes, _)) => Ok(Image(config, metric, dim, entryPoint, maxLevel, nodes, Rebuilt(nodes)))
  }

  // -------------------------------------------------------------------------
  // Round trip
  // -------------------------------------------------------------------------

  /** Reading back the parts that were written, one by one. */
  lemma {:induction false} ManyBack<T>(xs: seq<T>, parts: seq<seq<byte>>, tail: seq<byte>, read: Reader<T>)
    requires |xs| == |parts| && forall i, t :: 0 <= i < |xs| ==> read(parts[i] + t) == Some((xs[i], t))
    ensures ReadMany(|xs|, Concat(parts) + tail, read) == Some((xs, tail))
    decreases |xs|
  {
    if xs == [] {
      assert Concat(parts) + tail == tail;
    } else {
      ConcatFront(parts);
      var rest := Concat(parts[1..]) + tail;
      assert Concat(parts) + tail == parts[0] + rest;
      assert read(parts[0] + rest) == Some((xs[0], rest));
      forall i, t | 0 <= i < |xs| - 1 ensures read(parts[1..][i] + t) == Some((xs[1..][i], t)) {}
      ManyBack(xs[1..], parts[1..], tail, read);
      assert xs == [xs[0]] + xs[1..];
    }
  }

  lemma U32Back(n: nat, tail: seq<byte>)
    requires n < U32_LIMIT
    ensures ReadU32(U32(n) + tail) == Some((n, tail))
  {
    U32Exact(n);
    assert (U32(n) + tail)[..4] == U32(n) && (U32(n) + tail)[4..] == tail;
  }

  lemma F32Back(x: f32, tail: seq<byte>)
    ensures ReadF32(U32(x) + tail) == Some((x, tail))
  {
    U32Exact(x);
    assert (U32(x) + tail)[..4] == U32(x) && (U32(x) + tail)[4..] == tail;
  }

  ghost predicate ListFits(list: seq<nat>) {
    |list| < U32_LIMIT && forall k :: 0 <= k < |list| ==> list[k] < U32_LIMIT
  }

  lemma LayerBack(list: seq<nat>, tail: seq<byte>)
    requires ListFits(list)
    ensures ReadLayer(LayerBytes(list) + tail) == Some((list, tail))
  {
    var rest := Concat(Numbers(list)) + tail;
    assert LayerBytes(list) + tail == U32(|list|) + rest;
    U32Back(|list|, rest);
    forall i, t | 0 <= i < |list| ensures ReadU32(Numbers(list)[i] + t) == Some((list[i], t)) { U32Back(list[i], t); }
    ManyBack(list, Numbers(list), tail, ReadU32);
  }

  ghost predicate NodeFits(n: Node, dim: nat) {
    && |n.id| < U32_LIMIT && Utf8(n.id) && n.level < U32_LIMIT && |n.vector| == dim && |n.neighbors| < U32_LIMIT
    && forall l :: 0 <= l < |n.neighbors| ==> ListFits(n.neighbors[l])
  }

  /** An identifier is read back exactly when it is the encoding of a text. */
  lemma IdBackIff(id: str, tail: seq<byte>)
    requires |id| < U32_LIMIT
    ensures ReadId(U32(|id|) + id + tail) == if Unicode.IsText(id) then Some((id, tail)) else None
  {
    Associate(U32(|id|), id, tail);
    U32Back(|id|, id + tail);
    BytesBack(id, tail);
    Unicode.Utf8Iff(id);
  }

  lemma IdBack(id: str, tail: seq<byte>)
    requires |id| < U32_LIMIT && Utf8(id)
    ensures ReadId(U32(|id|) + id + tail) == Some((id, tail))
  {
    IdBackIff(id, tail);
    Unicode.Utf8Iff(id);
  }

  lemma Associate(a: seq<byte>, b: seq<byte>, c: seq<byte>)
    ensures a + b + c == a + (b + c)
  {
  }

  lemma BytesBack(bytes: seq<byte>, tail: seq<byte>)
    ensures ReadBytes(|bytes|, bytes + tail) == Some((bytes, tail))
  {
    assert (bytes + tail)[..|bytes|] == bytes && (bytes + tail)[|bytes|..] == tail;
  }

  lemma LayersBack(lists: seq<seq<nat>>, tail: seq<byte>)
    requires |lists| < U32_LIMIT && forall l :: 0 <= l < |lists| ==> ListFits(lists[l])
    ensures ReadLayers(U32(|lists|) + Concat(Layers(lists)) + tail) == Some((lists, tail))
  {
    var rest := Concat(Layers(lists)) + tail;
    assert U32(|lists|) + Concat(Layers(lists)) + tail == U32(|lists|) + rest;
    U32Back(|lists|, rest);
    forall i, t | 0 <= i < |lists| ensures ReadLayer(Layers(lists)[i] + t) == Some((lists[i], t)) { LayerBack(lists[i], t); }
    ManyBack(lists, Layers(lists), tail, ReadLayer);
  }

  lemma VectorBack(vector: Vector, tail: seq<byte>)
    ensures ReadMany(|vector|, Concat(Numbers(vector)) + tail, ReadF32) == Some((vector, tail))
  {
    forall i, t | 0 <= i < |vector| ensures ReadF32(Numbers(vector)[i] + t) == Some((vector[i], t)) { F32Back(vector[i], t); }
    ManyBack(vector, Numbers(vector), tail, ReadF32);
  }

  lemma NodeBack(n: Node, dim: nat, tail: seq<byte>)
    requires NodeFits(n, dim)
    ensures ReadNode(dim, NodeBytes(n) + tail) == Some((n, tail))
  {
    var r4 := U32(|n.neighbors|) + Concat(Layers(n.neighbors)) + tail;
    var r3 := Concat(Numbers(n.vector)) + r4;
    var r2 := U32(n.level) + r3;
    var r1 := [if n.deleted then 1 else 0] + r2;
    NodeSplit(n, tail, r1, r2, r3, r4);
    IdBack(n.id, r1);
    assert r1[1..] == r2;
    U32Back(n.level, r3);
    VectorBack(n.vector, r4);
    LayersBack(n.neighbors, tail);
  }

  lemma NodeSplit(n: Node, tail: seq<byte>, r1: seq<byte>, r2: seq<byte>, r3: seq<byte>, r4: seq<byte>)
    requires r4 == U32(|n.neighbors|) + Concat(Layers(n.neighbors)) + tail && r3 == Concat(Numbers(n.vector)) + r4
    requires r2 == U32(n.level) + r3 && r1 == [if n.deleted then 1 else 0] + r2
    ensures NodeBytes(n) + tail == U32(|n.id|) + n.id + r1
  {
    var a, b, c, d, e, f := U32(|n.id|) + n.id, [if n.deleted then 1 else 0], U32(n.level), Concat(Numbers(n.vector)), U32(|n.neighbors|), Concat(Layers(n.neighbors));
    Regroup(a, b, c, d, e, f, tail);
  }

  lemma Regroup(a: seq<byte>, b: seq<byte>, c: seq<byte>, d: seq<byte>, e: seq<byte>, f: seq<byte>, t: seq<byte>)
    ensures a + b + c + d + e + f + t == a + (b + (c + (d + (e + f + t))))
  {
  }

  /** What makes an image representable. */
  ghost predicate Fits(x: Image) {
    && x.config.m < U32_LIMIT && x.config.efConstruction < U32_LIMIT && x.config.maxLayers < U32_LIMIT
    && x.dim < U32_LIMIT && x.maxLevel < U32_LIMIT && |x.nodes| < U32_LIMIT
    && (x.entryPoint.Some? ==> x.entryPoint.value < 0x8000_0000_0000_0000)
    && forall i :: 0 <= i < |x.nodes| ==> NodeFits(x.nodes[i], x.dim)
  }

  lemma HeaderBack(x: Image)
    requires Fits(x)
    ensures DecodeHeader(Header(x)) == Some((x.config, x.metric, x.dim, x.entryPoint, x.maxLevel, |x.nodes|))
  {
    var h := Header(x);
    U32Exact(x.config.m);
    U32Exact(x.config.efConstruction);
    U32Exact(x.config.maxLayers);
    U32Exact(x.dim);
    U32Exact(x.maxLevel);
    U32Exact(|x.nodes|);
    EntryExact(x.entryPoint);
    assert h[..4] == MAGIC;
    assert h[5..9] == U32(x.config.m);
    assert h[9..13] == U32(x.config.efConstruction);
    assert h[13..17] == U32(x.config.maxLayers);
    assert h[18..22] == U32(x.dim);
    assert h[22..30] == EntryBytes(x.entryPoint);
    assert h[30..34] == U32(x.maxLevel);
    assert h[34..38] == U32(|x.nodes|);
  }

  /** Everything but the lookup comes back as written, and the lookup is rebuilt from the live nodes. */
  lemma RoundTrip(x: Image)
    requires Fits(x)
    ensures Decode(Encode(x)) == Ok(x.(lookup := Rebuilt(x.nodes)))
  {
    var data := Encode(x);
    assert data[..38] == Header(x) && data[38..] == Concat(NodeParts(x.nodes));
    HeaderBack(x);
    var read := (bytes: seq<byte>) => ReadNode(x.dim, bytes);
    forall i, t | 0 <= i < |x.nodes| ensures read(NodeParts(x.nodes)[i] + t) == Some((x.nodes[i], t)) { NodeBack(x.nodes[i], x.dim, t); }
    ManyBack(x.nodes, NodeParts(x.nodes), [], read);
    assert Concat(NodeParts(x.nodes)) + [] == Concat(NodeParts(x.nodes));
  }

  lemma {:induction false} RebuiltIs(nodes: seq<Node>)
    ensures forall id :: id in Rebuilt(nodes) ==> Rebuilt(nodes)[id] < |nodes| && !nodes[Rebuilt(nodes)[id]].deleted && nodes[Rebuilt(nodes)[id]].id == id
    ensures forall i :: 0 <= i < |nodes| && !nodes[i].deleted ==> nodes[i].id in Rebuilt(nodes)
  {
    if nodes != [] { RebuiltIs(nodes[..|nodes| - 1]); }
  }

  /** On a sound index the rebuilt lookup is the one it had. */
  lemma RebuiltLookup(nodes: seq<Node>, lookup: map<str, nat>)
    requires LookupOk(nodes, lookup) && LiveUnique(nodes, lookup)
    ensures Rebuilt(nodes) == lookup
  {
    RebuiltIs(nodes);
    forall id | id in lookup ensures id in Rebuilt(nodes) { assert nodes[lookup[id]].id == id; }
    forall id | id in Rebuilt(nodes) ensures id in lookup && lookup[id] == Rebuilt(nodes)[id] { assert nodes[Rebuilt(nodes)[id]].id == id; }
  }

  // -------------------------------------------------------------------------
  // Snapshots of an index
  // -------------------------------------------------------------------------

  function ImageOf(index: HnswIndex): Image
    reads index
  {
    Image(index.config, index.metric, index.dim, index.entryPoint, index.maxLevel, index.nodes, index.nodeLookup)
  }

  /** The sizes and names a snapshot can hold. */
  ghost predicate SizesFit(index: HnswIndex)
    reads index
  {
    && index.config.m < U32_LIMIT && index.config.efConstruction < U32_LIMIT && index.config.maxLayers < U32_LIMIT
    && index.dim < U32_LIMIT && |index.nodes| < U32_LIMIT
    && forall i :: 0 <= i < |index.nodes| ==> |index.nodes[i].id| < U32_LIMIT && Unicode.IsText(index.nodes[i].id)
  }

  lemma {:induction false} DistinctBounded(list: seq<nat>, k: nat)
    requires k <= |list| && Distinct(list)
    ensures |set j | 0 <= j < k :: list[j]| == k
  {
    if k > 0 {
      DistinctBounded(list, k - 1);
      assert (set j | 0 <= j < k :: list[j]) == (set j | 0 <= j < k - 1 :: list[j]) + {list[k - 1]};
    }
  }

  lemma SoundListFits(nodes: seq<Node>, m: nat, i: nat, layer: nat, list: seq<nat>)
    requires ListOk(nodes, m, i, layer, list) && |nodes| < U32_LIMIT
    ensures ListFits(list)
  {
    var values := set j | 0 <= j < |list| :: list[j];
    DistinctBounded(list, |list|);
    var all := Below(|nodes|);
    forall k | 0 <= k < |list| ensures list[k] < |nodes| { assert At(nodes, list[k], layer); }
    assert values <= all && all == values + (all - values);
  }

  /** A valid index whose sizes fit 32 bits is representable. */
  lemma SoundFits(index: HnswIndex)
    requires index.Valid() && index.Dimensioned() && SizesFit(index)
    ensures Fits(ImageOf(index))
  {
    var nodes := index.nodes;
    forall i | 0 <= i < |nodes| ensures NodeFits(nodes[i], index.dim) {
      Unicode.Utf8Iff(nodes[i].id);
      assert NodeOk(nodes, index.config.m, i);
      forall l | 0 <= l < |nodes[i].neighbors| ensures ListFits(nodes[i].neighbors[l]) {
        SoundListFits(nodes, index.config.m, i, l, nodes[i].neighbors[l]);
      }
    }
  }

  /** Serializing and deserializing restores every field, the rebuilt lookup included. */
  lemma SnapshotRestores(index: HnswIndex)
    requires index.Valid() && index.Unique() && index.Dimensioned() && SizesFit(index)
    ensures Decode(Encode(ImageOf(index))) == Ok(ImageOf(index))
  {
    SoundFits(index);
    RoundTrip(ImageOf(index));
    RebuiltLookup(index.nodes, index.nodeLookup);
  }

  // -------------------------------------------------------------------------
  // The program
  // -------------------------------------------------------------------------

  method AppendAll(buf: seq<byte>, parts: seq<seq<byte>>) returns (buf': seq<byte>)
    ensures buf' == buf + Concat(parts)
  {
    buf' := buf;
    for i := 0 to |parts|
      invariant buf' == buf + Concat(parts[..i])
    {
      ConcatNext(buf, parts, i);
      buf' := buf' + parts[i];
    }
    assert parts[..|parts|] == parts;
  }

  method WriteNode(n: Node) returns (bytes: seq<byte>)
    ensures bytes == NodeBytes(n)
  {
    bytes := U32(|n.id|) + n.id + [if n.deleted then 1 else 0] + U32(n.level);
    bytes := AppendAll(bytes, Numbers(n.vector));
    bytes := AppendAll(bytes + U32(|n.neighbors|), Layers(n.neighbors));
  }

  lemma ConcatNext(start: seq<byte>, parts: seq<seq<byte>>, i: nat)
    requires i < |parts|
    ensures start + Concat(parts[..i + 1]) == start + Concat(parts[..i]) + parts[i]
  {
    assert parts[..i + 1][..i] == parts[..i];
  }

  method WriteNodes(start: seq<byte>, nodes: seq<Node>) returns (buf: seq<byte>)
    ensures buf == start + Concat(NodeParts(nodes))
  {
    buf := start;
    ghost var parts := NodeParts(nodes);
    for i := 0 to |nodes|
      invariant buf == start + Concat(parts[..i])
    {
      var bytes := WriteNode(nodes[i]);
      ConcatNext(start, parts, i);
      buf := buf + bytes;
    }
    assert parts[..|parts|] == parts;
  }

  method Serialize(index: HnswIndex) returns (buf: seq<byte>)
    ensures buf == Encode(ImageOf(index))
  {
    buf := Header(ImageOf(index));
    buf := WriteNodes(buf, index.nodes);
  }

  lemma {:induction false} NumbersSize(ns: seq<nat>)
    ensures |Concat(Numbers(ns))| == 4 * |ns|
  {
    if ns != [] {
      NumbersSize(ns[..|ns| - 1]);
      assert Numbers(ns)[..|ns| - 1] == Numbers(ns[..|ns| - 1]);
    }
  }

  /** The size of the snapshot, computed without writing it. */
  method SnapshotSize(index: HnswIndex) returns (size: nat)
    ensures size == |Encode(ImageOf(index))|
  {
    size := 5;
    size := size + 12;
    size := size + 21;
    ghost var parts := NodeParts(index.nodes);
    for i := 0 to |index.nodes|
      invariant size == 38 + |Concat(parts[..i])|
    {
      var n := index.nodes[i];
      size := size + (4 + |n.id|) + 5 + |n.vector| * 4 + 4;
      NumbersSize(n.vector);
      ghost var before, lists := size, Layers(n.neighbors);
      for l := 0 to |n.neighbors|
        invariant size == before + |Concat(lists[..l])|
      {
        NumbersSize(n.neighbors[l]);
        assert lists[..l + 1][..l] == lists[..l];
        size := size + (4 + |n.neighbors[l]| * 4);
      }
      assert lists[..|lists|] == lists;
      assert parts[..i + 1][..i] == parts[..i];
    }
    assert parts[..|parts|] == parts;
  }

  function Prepend<T>(items: seq<T>, r: Option<(seq<T>, seq<byte>)>): Option<(seq<T>, seq<byte>)> {
    match r
    case None => None
    case Some((xs, end)) => Some((items + xs, end))
  }

  lemma PrependMore<T>(items: seq<T>, x: T, r: Option<(seq<T>, seq<byte>)>)
    ensures Prepend(items + [x], r) == Prepend(items, Prepend([x], r))
  {
    if r.Some? {
      assert items + ([x] + r.value.0) == items + [x] + r.value.0;
    }
  }

  lemma PrependNothing<T>(r: Option<(seq<T>, seq<byte>)>)
    ensures Prepend([], r) == r
  {
    if r.Some? { assert [] + r.value.0 == r.value.0; }
  }

  /** Reads `n` items with a cursor. */
  method ReadLoop<T>(n: nat, data: seq<byte>, read: Reader<T>) returns (r: Option<(seq<T>, seq<byte>)>)
    ensures r == ReadMany(n, data, read)
  {
    var items: seq<T>, rest := [], data;
    PrependNothing(ReadMany(n, data, read));
    for i := 0 to n
      invariant |items| == i && Prepend(items, ReadMany(n - i, rest, read)) == ReadMany(n, data, read)
    {
      var next := read(rest);
      if next.None? {
        return None;
      }
      PrependMore(items, next.value.0, ReadMany(n - i - 1, next.value.1, read));
      items, rest := items + [next.value.0], next.value.1;
    }
    r := Some((items, rest));
    assert items + [] == items;
  }

  method Rebuild(nodes: seq<Node>) returns (lookup: map<str, nat>)
    ensures lookup == Rebuilt(nodes)
  {
    lookup := map[];
    for idx := 0 to |nodes|
      invariant lookup == Rebuilt(nodes[..idx])
    {
      assert nodes[..idx + 1][..idx] == nodes[..idx];
      if !nodes[idx].deleted {
        lookup := lookup[nodes[idx].id := idx];
      }
    }
    assert nodes[..|nodes|] == nodes;
  }

  method Deserialize(data: seq<byte>) returns (r: Result<Image>)
    ensures r == Decode(data)
  {
    if |data| < 38 {
      return Err(Corrupt);
    }
    var header := DecodeHeader(data[..38]);
    if header.None? {
      return Err(Corrupt);
    }
    var (config, metric, dim, entryPoint, maxLevel, count) := header.value;
    var read := ReadLoop(count, data[38..], bytes => ReadNode(dim, bytes));
    if read.None? {
      return Err(Corrupt);
    }
    var lookup := Rebuild(read.value.0);
    return Ok(Image(config, metric, dim, entryPoint, maxLevel, read.value.0, lookup));
  }
}
