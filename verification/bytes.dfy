/**
 Byte strings and their lexicographic order, the order of the shared keyspace.

 A Rust `str` is modelled by its UTF-8 bytes, so `str` comparison and byte
 comparison are the same relation here.
 */
module Bytes {
  type byte = b: int | 0 <= b < 256

  /** `a` sorts strictly before `b`: first differing byte decides, a proper prefix comes first. */
  predicate Lt(a: seq<byte>, b: seq<byte>) {
    b != [] && (a == [] || a[0] < b[0] || (a[0] == b[0] && Lt(a[1..], b[1..])))
  }

  predicate Le(a: seq<byte>, b: seq<byte>) {
    a == b || Lt(a, b)
  }

  lemma {:induction false} LtIrreflexive(a: seq<byte>)
    ensures !Lt(a, a)
  {
    if a != [] { LtIrreflexive(a[1..]); }
  }

  lemma {:induction false} LtTotal(a: seq<byte>, b: seq<byte>)
    ensures Lt(a, b) || a == b || Lt(b, a)
  {
    if a != [] && b != [] && a[0] == b[0] {
      LtTotal(a[1..], b[1..]);
      assert a[1..] == b[1..] ==> a == [a[0]] + a[1..] == b;
    }
  }

  lemma {:induction false} LtTransitive(a: seq<byte>, b: seq<byte>, c: seq<byte>)
    requires Lt(a, b) && Lt(b, c)
    ensures Lt(a, c)
  {
    if a != [] && a[0] == b[0] && b[0] == c[0] { LtTransitive(a[1..], b[1..], c[1..]); }
  }

  /** The order is a strict total order, so exactly one of the three cases holds. */
  lemma LtTrichotomy(a: seq<byte>, b: seq<byte>)
    ensures Lt(a, b) || a == b || Lt(b, a)
    ensures !(Lt(a, b) && Lt(b, a)) && !(a == b && Lt(a, b)) && !(a == b && Lt(b, a))
  {
    LtTotal(a, b);
    LtIrreflexive(a);
    if Lt(a, b) && Lt(b, a) { LtTransitive(a, b, a); }
  }

  lemma LeLtTransitive(a: seq<byte>, b: seq<byte>, c: seq<byte>)
    requires Le(a, b) && Le(b, c)
    ensures Le(a, c) && (Lt(a, b) || Lt(b, c) ==> Lt(a, c))
  {
    if Lt(a, b) && Lt(b, c) { LtTransitive(a, b, c); }
  }

  /** A common prefix does not influence the order. */
  lemma {:induction false} LtCommonPrefix(p: seq<byte>, a: seq<byte>, b: seq<byte>)
    ensures Lt(p + a, p + b) <==> Lt(a, b)
  {
    if p == [] {
      assert p + a == a && p + b == b;
    } else {
      assert (p + a)[1..] == p[1..] + a && (p + b)[1..] == p[1..] + b;
      LtCommonPrefix(p[1..], a, b);
    }
  }

  /** Every extension of `p` sorts at or after `p`. */
  lemma PrefixLe(p: seq<byte>, k: seq<byte>)
    requires p <= k
    ensures Le(p, k)
  {
    var s := k[|p|..];
    assert k == p + s && p + [] == p;
    LtCommonPrefix(p, [], s);
  }

  /** Keys from `p` up to some extension of `p` all have `p` as a prefix. */
  lemma {:induction false} BetweenHasPrefix(p: seq<byte>, s: seq<byte>, k: seq<byte>)
    requires Le(p, k) && Lt(k, p + s)
    ensures p <= k
  {
    if p != [] {
      if k == p {
      } else {
        assert (p + s)[0] == p[0] && (p + s)[1..] == p[1..] + s;
        BetweenHasPrefix(p[1..], s, k[1..]);
        assert p == [p[0]] + p[1..] && k == [k[0]] + k[1..];
      }
    }
  }

  /** A non-empty finite set of keys has a least element. */
  lemma {:induction false} LeastExists(s: set<seq<byte>>) returns (m: seq<byte>)
    requires s != {}
    ensures m in s && forall k :: k in s ==> Le(m, k)
  {
    var x :| x in s;
    if s == {x} {
      m := x;
    } else {
      var m' := LeastExists(s - {x});
      LtTotal(x, m');
      m := if Lt(x, m') then x else m';
      forall k | k in s ensures Le(m, k) {
        if k != x && m == x { LeLtTransitive(x, m', k); }
      }
    }
  }

  /** Strictly increasing sequence of keys. */
  predicate Increasing(ks: seq<seq<byte>>) {
    forall i, j :: 0 <= i < j < |ks| ==> Lt(ks[i], ks[j])
  }

  // -------------------------------------------------------------------------
  // UTF-8 (section 4 of RFC 3629): the byte strings `str::from_utf8` accepts.
  // -------------------------------------------------------------------------

  predicate Tail(s: seq<byte>, i: nat) {
    i < |s| && 0x80 <= s[i] <= 0xBF
  }

  /** Length of the well-formed UTF-8 sequence at the front of `s`, 0 when there is none. */
  function CharLen(s: seq<byte>): (n: nat)
    ensures n <= |s|
  {
    if s == [] then 0
    else if s[0] <= 0x7F then 1
    else if 0xC2 <= s[0] <= 0xDF then if Tail(s, 1) then 2 else 0
    else if 0xE0 <= s[0] <= 0xEF then
      if Tail(s, 1) && Tail(s, 2) && (s[0] == 0xE0 ==> s[1] >= 0xA0) && (s[0] == 0xED ==> s[1] <= 0x9F)
      then 3 else 0
    else if 0xF0 <= s[0] <= 0xF4 then
      if Tail(s, 1) && Tail(s, 2) && Tail(s, 3) && (s[0] == 0xF0 ==> s[1] >= 0x90) && (s[0] == 0xF4 ==> s[1] <= 0x8F)
      then 4 else 0
    else 0
  }

  predicate Utf8(s: seq<byte>) {
    s == [] || (CharLen(s) > 0 && Utf8(s[CharLen(s)..]))
  }

  /** A Rust `str`; where code re-checks well-formedness, `Utf8` is stated explicitly. */
  type str = seq<byte>
}
