/** Dynamically-typed values (crates/core/src/value.rs) and their comparison. */
module Values {
  import opened Bytes
  import opened Wrappers

  type i64 = n: int | -0x8000_0000_0000_0000 <= n < 0x8000_0000_0000_0000
  type u64 = n: int | 0 <= n < 0x1_0000_0000_0000_0000

  const TWO52: int := 0x10_0000_0000_0000
  const TWO53: int := 0x20_0000_0000_0000
  const TWO63: int := 0x8000_0000_0000_0000

  /**
   A float is its 64-bit pattern. Byte strings, objects, record ids and vectors
   are one case: none of them is indexable or ordered.
   */
  datatype Value =
    | NoneValue
    | Bool(b: bool)
    | Int(n: i64)
    | Float(bits: u64)
    | String(s: str)
    | Array(items: seq<Value>)
    | Composite(repr: seq<byte>)

  // -------------------------------------------------------------------------
  // IEEE 754 binary64
  // -------------------------------------------------------------------------

  function Pow2(e: nat): (p: int)
    ensures p > 0
  {
    if e == 0 then 1 else 2 * Pow2(e - 1)
  }

  predicate SignNegative(bits: u64) { bits >= TWO63 }

  function Exponent(bits: u64): nat { (bits / TWO52) % 2048 }

  function Fraction(bits: u64): nat { bits % TWO52 }

  predicate NaN(bits: u64) { Exponent(bits) == 2047 && Fraction(bits) != 0 }

  /** Absolute value in units of 2^-1074; infinities sit above every finite value. */
  function Magnitude(bits: u64): nat {
    Scaled(Exponent(bits), Fraction(bits))
  }

  function Scaled(e: nat, f: nat): nat {
    if e == 0 then f else (TWO52 + f) * Pow2(e - 1)
  }

  function Signed(bits: u64): int {
    if SignNegative(bits) then 0 - Magnitude(bits) else Magnitude(bits)
  }

  /** Distance between consecutive doubles around `m`, starting from `unit`. */
  function Ulp(m: nat, unit: int): (u: int)
    requires unit > 0
    ensures u > 0
    decreases m / unit
  {
    if m / unit < TWO53 then unit
    else
      assert m / (2 * unit) < m / unit by { HalfQuotient(m, unit); }
      Ulp(m, 2 * unit)
  }

  lemma HalfQuotient(m: nat, unit: int)
    requires unit > 0 && m / unit >= 1
    ensures m / (2 * unit) < m / unit
  {
    var q := m / (2 * unit);
    assert m == 2 * unit * q + m % (2 * unit);
    assert unit * (2 * q) == 2 * unit * q;
    QuotientAtLeast(m, unit, 2 * q);
  }

  /** A multiple of `unit` up to `m` has a factor up to the quotient. */
  lemma QuotientAtLeast(m: nat, unit: int, x: int)
    requires unit > 0 && unit * x <= m
    ensures x <= m / unit
  {
    var p := m / unit;
    if x > p { MultiplyMonotone(unit, p + 1, x); }
  }

  lemma MultiplyMonotone(u: int, a: int, b: int)
    requires u > 0 && a <= b
    ensures u * a <= u * b
  {
  }

  /** Rounding to the nearest double, ties to even: the value of `m as f64`. */
  function RoundNat(m: nat): int {
    var u := Ulp(m, 1);
    var q, r := m / u, m % u;
    if 2 * r < u || (2 * r == u && q % 2 == 0) then q * u else (q + 1) * u
  }

  function RoundInt(n: i64): int {
    if n < 0 then 0 - RoundNat(0 - n) else RoundNat(n)
  }

  // -------------------------------------------------------------------------
  // Equality and order of values
  // -------------------------------------------------------------------------

  /** Rust's derived `==`: floats compare numerically, so NaN differs from itself. */
  predicate ValueEq(a: Value, b: Value) {
    match (a, b)
    case (Float(x), Float(y)) => !NaN(x) && !NaN(y) && Signed(x) == Signed(y)
    case (Array(xs), Array(ys)) => |xs| == |ys| && forall i :: 0 <= i < |xs| ==> ValueEq(xs[i], ys[i])
    case (_, _) => a == b
  }

  datatype Ordering = Less | Equal | Greater

  function CompareInt(x: int, y: int): Ordering {
    if x < y then Less else if x == y then Equal else Greater
  }

  function CompareBytes(x: seq<byte>, y: seq<byte>): Ordering {
    if Lt(x, y) then Less else if x == y then Equal else Greater
  }

  /** Order used by WHERE and ORDER BY; `None` for types that do not compare. */
  function CmpValues(a: Value, b: Value): Option<Ordering> {
    match (a, b)
    case (Int(x), Int(y)) => Some(CompareInt(x, y))
    case (Float(x), Float(y)) => if NaN(x) || NaN(y) then None else Some(CompareInt(Signed(x), Signed(y)))
    case (Int(x), Float(y)) => if NaN(y) then None else Some(CompareInt(RoundInt(x) * Pow2(1074), Signed(y)))
    case (Float(x), Int(y)) => if NaN(x) then None else Some(CompareInt(Signed(x), RoundInt(y) * Pow2(1074)))
    case (String(x), String(y)) => Some(CompareBytes(x, y))
    case (_, _) => None
  }

  // -------------------------------------------------------------------------
  // Magnitude is strictly increasing in the bit pattern below the sign bit
  // -------------------------------------------------------------------------

  lemma Pow2Monotone(a: nat, b: nat)
    requires a <= b
    ensures Pow2(a) <= Pow2(b)
    decreases b
  {
    if a < b { Pow2Monotone(a, b - 1); }
  }

  lemma ProductsOrdered(t: int, f: int, g: int, p: int, q: int)
    requires 0 <= f < t && 0 <= g && 0 < p && 2 * p <= q
    ensures (t + f) * p < (t + g) * q
  {
    assert (t + f) * p < (2 * t) * p;
    assert (2 * t) * p == t * (2 * p) <= t * q <= (t + g) * q;
  }

  lemma ScaledIncreases(e: nat, f: nat, e': nat, f': nat)
    requires f < TWO52 && f' < TWO52
    requires e < e' || (e == e' && f < f')
    ensures Scaled(e, f) < Scaled(e', f')
  {
    if e < e' {
      if e > 0 {
        Pow2Monotone(e, e' - 1);
        ProductsOrdered(TWO52, f, f', Pow2(e - 1), Pow2(e' - 1));
      } else {
        assert TWO52 + f' <= (TWO52 + f') * Pow2(e' - 1);
      }
    } else if e > 0 {
      ProductIncreases(TWO52 + f, TWO52 + f', Pow2(e - 1));
    }
  }

  lemma ProductIncreases(a: int, b: int, p: int)
    requires a < b && p > 0
    ensures a * p < b * p
  {
  }

  lemma QuotientOrder(x: int, y: int, d: int)
    requires 0 <= x < y && d > 0
    ensures x / d < y / d || (x / d == y / d && x % d < y % d)
  {
    assert x == d * (x / d) + x % d && y == d * (y / d) + y % d;
    if !(x / d <= y / d) { FactorOrder(d, y / d + 1, x / d); assert false; }
  }

  lemma FactorOrder(d: int, a: int, b: int)
    requires d > 0 && a <= b
    ensures d * a <= d * b
  {
  }

  lemma MagnitudeIncreases(x: u64, y: u64)
    requires x < y < TWO63
    ensures Magnitude(x) < Magnitude(y)
  {
    QuotientOrder(x, y, TWO52);
    ScaledIncreases(Exponent(x), Fraction(x), Exponent(y), Fraction(y));
  }

  /** The order-preserving image of a bit pattern: negatives flipped, others with the sign bit set. */
  function OrderBits(bits: u64): u64 {
    if SignNegative(bits) then 0xFFFF_FFFF_FFFF_FFFF - bits else bits + TWO63
  }

  lemma SignBitDropped(x: u64)
    requires SignNegative(x)
    ensures Magnitude(x) == Magnitude(x - TWO63)
  {
    assert x / TWO52 == (x - TWO63) / TWO52 + 2048;
    assert x % TWO52 == (x - TWO63) % TWO52;
  }

  /** Numeric order of doubles other than -0.0 read off their bit patterns. */
  lemma SignedOrder(x: u64, y: u64)
    requires x != TWO63 && y != TWO63
    ensures Signed(x) < Signed(y) <==> OrderBits(x) < OrderBits(y)
    ensures Signed(x) == Signed(y) <==> x == y
  {
    var mx := if SignNegative(x) then x - TWO63 else x;
    var my := if SignNegative(y) then y - TWO63 else y;
    if SignNegative(x) { SignBitDropped(x); MagnitudeIncreases(0, mx); }
    if SignNegative(y) { SignBitDropped(y); MagnitudeIncreases(0, my); }
    if mx < my { MagnitudeIncreases(mx, my); }
    if my < mx { MagnitudeIncreases(my, mx); }
  }
}
