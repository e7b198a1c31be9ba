/** Text as sequences of Unicode scalar values, and its UTF-8 encoding (section 3 of RFC 3629). */
module Unicode {
  import opened Bytes

  /** A code point that is not a surrogate. */
  type scalar = c: int | 0 <= c < 0xD800 || 0xE000 <= c < 0x11_0000

  /** Continuation byte holding the six low bits of `x`. */
  function Continuation(x: nat): byte {
    0x80 + x % 64
  }

  function EncodeScalar(c: scalar): (s: seq<byte>)
    ensures 1 <= |s| <= 4
  {
    if c < 0x80 then [c]
    else if c < 0x800 then [0xC0 + c / 64, Continuation(c)]
    else if c < 0x1_0000 then [0xE0 + c / 64 / 64, Continuation(c / 64), Continuation(c)]
    else [0xF0 + c / 64 / 64 / 64, Continuation(c / 64 / 64), Continuation(c / 64), Continuation(c)]
  }

  function Encode(text: seq<scalar>): seq<byte> {
    if text == [] then [] else EncodeScalar(text[0]) + Encode(text[1..])
  }

  /** The bytes are the encoding of some text. */
  ghost predicate IsText(s: seq<byte>) {
    exists text :: Encode(text) == s
  }

  /** The encoding of a character announces its own length, whatever follows. */
  lemma ScalarLength(c: scalar, rest: seq<byte>)
    ensures CharLen(EncodeScalar(c) + rest) == |EncodeScalar(c)|
  {
    var s := EncodeScalar(c) + rest;
    assert s[..|EncodeScalar(c)|] == EncodeScalar(c);
    forall i | 0 <= i < |EncodeScalar(c)| ensures s[i] == EncodeScalar(c)[i] {}
  }

  /** The character a well-formed front encodes. */
  function DecodeScalar(s: seq<byte>): (c: scalar)
    requires CharLen(s) > 0
    ensures EncodeScalar(c) == s[..CharLen(s)]
  {
    if CharLen(s) == 1 then s[0]
    else if CharLen(s) == 2 then (s[0] - 0xC0) * 64 + (s[1] - 0x80)
    else if CharLen(s) == 3 then ThreeBytes(s[0], s[1], s[2])
    else FourBytes(s[0], s[1], s[2], s[3])
  }

  lemma SixBits(high: nat, low: nat)
    requires low < 64
    ensures (high * 64 + low) / 64 == high && (high * 64 + low) % 64 == low
  {
  }

  function ThreeBytes(a: byte, b: byte, c: byte): (r: scalar)
    requires 0xE0 <= a <= 0xEF && 0x80 <= b <= 0xBF && 0x80 <= c <= 0xBF && (a == 0xE0 ==> b >= 0xA0) && (a == 0xED ==> b <= 0x9F)
    ensures EncodeScalar(r) == [a, b, c]
  {
    var x := (a - 0xE0) * 64 + (b - 0x80);
    SixBits(a - 0xE0, b - 0x80);
    SixBits(x, c - 0x80);
    x * 64 + (c - 0x80)
  }

  function FourBytes(a: byte, b: byte, c: byte, d: byte): (r: scalar)
    requires 0xF0 <= a <= 0xF4 && 0x80 <= b <= 0xBF && 0x80 <= c <= 0xBF && 0x80 <= d <= 0xBF && (a == 0xF0 ==> b >= 0x90) && (a == 0xF4 ==> b <= 0x8F)
    ensures EncodeScalar(r) == [a, b, c, d]
  {
    var x := (a - 0xF0) * 64 + (b - 0x80);
    var y := x * 64 + (c - 0x80);
    SixBits(a - 0xF0, b - 0x80);
    SixBits(x, c - 0x80);
    SixBits(y, d - 0x80);
    y * 64 + (d - 0x80)
  }

  lemma {:induction false} EncodedIsUtf8(text: seq<scalar>)
    ensures Utf8(Encode(text))
  {
    if text != [] {
      var first, rest := EncodeScalar(text[0]), Encode(text[1..]);
      ScalarLength(text[0], rest);
      EncodedIsUtf8(text[1..]);
      assert (first + rest)[|first|..] == rest;
    }
  }

  lemma EncodeNext(c: scalar, rest: seq<scalar>)
    ensures Encode([c] + rest) == EncodeScalar(c) + Encode(rest)
  {
    assert ([c] + rest)[1..] == rest;
  }

  /** The text that well-formed bytes encode. */
  function Decode(s: seq<byte>): (text: seq<scalar>)
    requires Utf8(s)
    ensures Encode(text) == s
  {
    if s == [] then []
    else
      var n := CharLen(s);
      var c, rest := DecodeScalar(s), Decode(s[n..]);
      EncodeNext(c, rest);
      assert s == s[..n] + s[n..];
      [c] + rest
  }

  /** The bytes the program accepts as text are exactly the encodings of texts. */
  lemma Utf8Iff(s: seq<byte>)
    ensures Utf8(s) <==> IsText(s)
  {
    if Utf8(s) { assert Encode(Decode(s)) == s; }
    if text :| Encode(text) == s { EncodedIsUtf8(text); }
  }

  /** No two texts have the same encoding. */
  lemma {:induction false} EncodeInjective(a: seq<scalar>, b: seq<scalar>)
    requires Encode(a) == Encode(b)
    ensures a == b
  {
    if a != [] && b != [] {
      ScalarLength(a[0], Encode(a[1..]));
      ScalarLength(b[0], Encode(b[1..]));
      var n := |EncodeScalar(a[0])|;
      assert EncodeScalar(a[0]) == Encode(a)[..n] && EncodeScalar(b[0]) == Encode(b)[..n];
      ScalarInjective(a[0], b[0]);
      assert Encode(a[1..]) == Encode(a)[n..] && Encode(b[1..]) == Encode(b)[n..];
      EncodeInjective(a[1..], b[1..]);
      assert a == [a[0]] + a[1..] && b == [b[0]] + b[1..];
    }
  }

  lemma ScalarInjective(c: scalar, d: scalar)
    requires EncodeScalar(c) == EncodeScalar(d)
    ensures c == d
  {
    assert forall i :: 0 <= i < |EncodeScalar(c)| ==> EncodeScalar(c)[i] == EncodeScalar(d)[i];
  }
}
