/** What comparing values means: mirror images, and integers against floats (`cmp_values`, crates/query/src/executor.rs). */
module Comparisons {
  import opened Bytes
  import opened Wrappers
  import opened Values

  function Flip(o: Ordering): Ordering {
    match o
    case Less => Greater
    case Equal => Equal
    case Greater => Less
  }

  /** Swapping the operands mirrors the result. */
  lemma CmpMirrored(a: Value, b: Value)
    ensures CmpValues(b, a) == match CmpValues(a, b)
      case None => None
      case Some(o) => Some(Flip(o))
  {
    if a.String? && b.String? { LtTrichotomy(a.s, b.s); }
  }

  /** Values that compare are equal exactly when they are of one type and compare as equal; an integer never equals a float. */
  lemma EqualIff(a: Value, b: Value)
    requires CmpValues(a, b).Some?
    ensures ValueEq(a, b) <==> CmpValues(a, b) == Some(Equal) && (a.Int? <==> b.Int?)
  {
    if a.String? && b.String? { LtTrichotomy(a.s, b.s); }
  }

  /** The bit pattern of infinity. */
  const INFINITY: int := 0x7FF0_0000_0000_0000

  /** A float compares with floats, itself included, exactly when its pattern without the sign is at most that of infinity. */
  lemma NumberIff(x: u64)
    ensures x % TWO63 <= INFINITY <==> ValueEq(Float(x), Float(x))
    ensures x % TWO63 <= INFINITY <==> CmpValues(Float(x), Float(x)) == Some(Equal)
    ensures x % TWO63 > INFINITY ==> forall y :: CmpValues(Float(x), y).None? && CmpValues(y, Float(x)).None?
  {
    Unsigned(x);
  }

  lemma Unsigned(x: u64)
    ensures x % TWO63 == Exponent(x) * TWO52 + Fraction(x)
  {
  }

  // -------------------------------------------------------------------------
  // Powers of two
  // -------------------------------------------------------------------------

  lemma {:induction false} Pow2Sum(a: nat, b: nat)
    ensures Pow2(a + b) == Pow2(a) * Pow2(b)
  {
    if a > 0 {
      Pow2Sum(a - 1, b);
      Doubled(Pow2(a - 1), Pow2(b));
    }
  }

  lemma Doubled(p: int, q: int)
    ensures 2 * (p * q) == (2 * p) * q
  {
  }

  lemma Pow2Thirteen()
    ensures Pow2(0) == 1 && Pow2(1) == 2 && Pow2(13) == 8192
  {
    assert Pow2(4) == 16;
    assert Pow2(8) == 256;
  }

  lemma Pow2Small()
    ensures Pow2(52) == TWO52 && Pow2(53) == TWO53
  {
    Pow2Thirteen();
    Pow2Sum(13, 13);
    Pow2Sum(26, 26);
    Pow2Sum(1, 52);
  }

  lemma Cancel(p: int, x: int, y: int)
    requires p > 0 && p * x == p * y
    ensures x == y
  {
    if x < y { FactorLess(p, x, y); }
    if y < x { FactorLess(p, y, x); }
  }

  lemma FactorLess(p: int, x: int, y: int)
    requires p > 0 && x < y
    ensures p * x < p * y
  {
    assert p * (y - x) > 0;
  }

  // -------------------------------------------------------------------------
  // Rounding an integer to a double
  // -------------------------------------------------------------------------

  /** The unit of rounding is a power of two that leaves at most 53 bits, and all 53 unless it is one. */
  lemma {:induction false} UlpIs(m: nat, i: nat) returns (j: nat)
    requires i == 0 || m / Pow2(i) >= TWO52
    ensures j >= i && Ulp(m, Pow2(i)) == Pow2(j) && m / Pow2(j) < TWO53 && (j > 0 ==> m / Pow2(j) >= TWO52)
    decreases m / Pow2(i)
  {
    var unit := Pow2(i);
    if m / unit < TWO53 {
      j := i;
    } else {
      HalfQuotient(m, unit);
      QuotientAtLeast(m, 2 * unit, TWO52) by {
        assert unit * (m / unit) <= m;
        MultiplyMonotone(unit, TWO53, m / unit);
        assert unit * TWO53 == 2 * unit * TWO52;
      }
      j := UlpIs(m, i + 1);
    }
  }

  /** At most 53 bits and trailing zeros need no coarser unit than the zeros allow. */
  lemma {:induction false} UlpWithin(m: nat, q: nat, k: nat, i: nat) returns (j: nat)
    requires m == q * Pow2(k) && q < TWO53 && i <= k
    ensures i <= j <= k && Ulp(m, Pow2(i)) == Pow2(j)
    decreases k - i
  {
    var unit := Pow2(i);
    if m / unit < TWO53 {
      j := i;
    } else {
      if i == k { ExactQuotient(q, unit); }
      j := UlpWithin(m, q, k, i + 1);
    }
  }

  lemma ExactQuotient(q: nat, u: int)
    requires u > 0
    ensures (q * u) / u == q && (q * u) % u == 0
  {
    var p, r := (q * u) / u, (q * u) % u;
    assert q * u == u * p + r;
    if p < q { MultiplyMonotone(u, p + 1, q); }
    if p > q { MultiplyMonotone(u, q + 1, p); }
  }

  lemma MultiplesRound(m: nat, t: nat, u: int)
    requires u > 0 && m == t * u && Ulp(m, 1) == u
    ensures RoundNat(m) == m
  {
    ExactQuotient(t, u);
  }

  /** An integer of at most 53 significant bits is not rounded. */
  lemma RoundExact(m: nat, q: nat, k: nat)
    requires m == q * Pow2(k) && q < TWO53
    ensures RoundNat(m) == m
  {
    var j := UlpWithin(m, q, k, 0);
    Pow2Sum(k - j, j);
    Regroup(q, Pow2(k - j), Pow2(j));
    MultiplesRound(m, q * Pow2(k - j), Pow2(j));
  }

  lemma Regroup(a: int, b: int, c: int)
    ensures a * (b * c) == a * b * c
  {
  }

  /** An integer that some double equals is not rounded. */
  lemma ExactInteger(n: i64, x: u64)
    requires Signed(x) == n * Pow2(1074)
    ensures RoundInt(n) == n
  {
    var k: int := n;
    var m: nat := if k < 0 then 0 - k else k;
    SignApart(k, Pow2(1074));
    ExactMagnitude(m, Exponent(x), Fraction(x));
  }

  lemma SignApart(n: int, p: int)
    requires p > 0
    ensures n < 0 ==> n * p < 0 && (-n) * p == -(n * p)
    ensures n >= 0 ==> n * p >= 0
  {
  }

  lemma ExactMagnitude(m: nat, e: nat, f: nat)
    requires f < TWO52 && Scaled(e, f) == m * Pow2(1074)
    ensures RoundNat(m) == m
  {
    Pow2Small();
    if e == 0 {
      Pow2Monotone(52, 1074);
      NoSmaller(m, f, Pow2(1074));
      RoundExact(m, 0, 0);
    } else if e - 1 >= 1074 {
      ExactLarge(m, e - 1 - 1074, TWO52 + f, 1074);
      RoundExact(m, TWO52 + f, e - 1 - 1074);
    } else {
      ExactSmall(m, 1074 - (e - 1), TWO52 + f, e - 1);
      assert Pow2(0) == 1;
      RoundExact(m, m, 0);
    }
  }

  lemma NoSmaller(m: nat, f: nat, p: int)
    requires f < p && f == m * p
    ensures m == 0
  {
    if m > 0 { MultiplyMonotone(p, 1, m); }
  }

  lemma ExactLarge(m: nat, k: nat, q: nat, c: nat)
    requires q * Pow2(k + c) == m * Pow2(c)
    ensures m == q * Pow2(k)
  {
    Pow2Sum(k, c);
    Regroup(q, Pow2(k), Pow2(c));
    Cancel(Pow2(c), m, q * Pow2(k));
  }

  lemma ExactSmall(m: nat, k: nat, q: nat, c: nat)
    requires q * Pow2(c) == m * Pow2(k + c)
    ensures m <= q
  {
    ExactLarge(q, k, m, c);
    MultiplyMonotone(Pow2(k), 0, m);
    if m > 0 { MultiplyMonotone(m, 1, Pow2(k)); }
  }

  /** Against any float, an integer that is exactly a double compares as that double. */
  lemma IntegerAsFloat(n: i64, x: u64, y: u64)
    requires !NaN(x) && Signed(x) == n * Pow2(1074)
    ensures CmpValues(Int(n), Float(y)) == CmpValues(Float(x), Float(y))
    ensures CmpValues(Float(y), Int(n)) == CmpValues(Float(y), Float(x))
  {
    ExactInteger(n, x);
  }

  /** The pattern of an integer below 2^53: sign and exponent first, then the bits after the leading one. */
  function PatternOf(n: nat, k: nat): u64
    requires k <= 52 && Pow2(k) <= n < Pow2(k + 1)
  {
    FractionFits(n, k);
    (1023 + k) * TWO52 + (n - Pow2(k)) * Pow2(52 - k)
  }

  lemma FractionFits(n: nat, k: nat)
    requires k <= 52 && Pow2(k) <= n < Pow2(k + 1)
    ensures 0 <= (n - Pow2(k)) * Pow2(52 - k) < TWO52
    ensures TWO52 + (n - Pow2(k)) * Pow2(52 - k) == n * Pow2(52 - k)
  {
    Pow2Small();
    Pow2Sum(k, 52 - k);
    PartFits(n, Pow2(k), Pow2(52 - k), TWO52);
  }

  lemma PartFits(n: nat, p: int, q: int, t: int)
    requires p > 0 && q > 0 && p * q == t && p <= n < 2 * p
    ensures 0 <= (n - p) * q < t && t + (n - p) * q == n * q
  {
    FactorLess(q, n - p, p);
    MultiplyMonotone(q, 0, n - p);
    assert q * (n - p) == q * n - q * p;
  }

  lemma IntegerPattern(n: nat, k: nat)
    requires k <= 52 && Pow2(k) <= n < Pow2(k + 1)
    ensures PatternOf(n, k) < TWO63 && !NaN(PatternOf(n, k)) && Signed(PatternOf(n, k)) == n * Pow2(1074)
  {
    FractionFits(n, k);
    var f := (n - Pow2(k)) * Pow2(52 - k);
    Composed(1023 + k, f);
    Pow2Sum(52 - k, 1022 + k);
    Regroup(n, Pow2(52 - k), Pow2(1022 + k));
  }

  /** Exponent and fraction of a composed pattern. */
  lemma Fields(e: nat, f: nat)
    requires e < 2048 && f < TWO52
    ensures 0 <= e * TWO52 + f < TWO63 && Exponent(e * TWO52 + f) == e && Fraction(e * TWO52 + f) == f
  {
  }

  lemma Composed(e: nat, f: nat)
    requires e < 2047 && f < TWO52
    ensures 0 <= e * TWO52 + f < TWO63 && !NaN(e * TWO52 + f) && Signed(e * TWO52 + f) == Scaled(e, f)
  {
    Fields(e, f);
  }

  /** So an integer from 1 up to 2^53 equals its own pattern. */
  lemma IntegerEqualsPattern(n: nat, k: nat)
    requires k <= 52 && Pow2(k) <= n < Pow2(k + 1) && n <= TWO53
    ensures CmpValues(Int(n), Float(PatternOf(n, k))) == Some(Equal)
  {
    IntegerPattern(n, k);
    ExactInteger(n, PatternOf(n, k));
  }

  // -------------------------------------------------------------------------
  // Rounding goes to the nearest double
  // -------------------------------------------------------------------------

  function Gap(a: int, b: int): (g: nat) {
    if a < b then b - a else a - b
  }

  lemma NearestMultiple(m: nat, u: int, t: int)
    requires u > 0 && Ulp(m, 1) == u
    ensures Gap(RoundNat(m), m) <= Gap(t * u, m)
    ensures 2 * (m % u) == u ==> exists h :: RoundNat(m) == 2 * h * u
  {
    var q, r := m / u, m % u;
    Quotient(m, u);
    assert (q + 1) * u == q * u + u;
    OutsideGap(q, u, t);
    if 2 * r == u {
      if q % 2 == 0 { assert RoundNat(m) == 2 * (q / 2) * u; } else { assert RoundNat(m) == 2 * ((q + 1) / 2) * u; }
    }
  }

  lemma Quotient(m: nat, u: int)
    requires u > 0
    ensures m == (m / u) * u + m % u
  {
  }

  lemma OutsideGap(q: int, u: int, t: int)
    requires u > 0
    ensures t * u <= q * u || q * u + u <= t * u
  {
    if t <= q { MultiplyMonotone(u, t, q); } else { MultiplyMonotone(u, q + 1, t); }
  }

  /** No double is closer to the integer than the one it is rounded to, in units of 2^-1074. */
  lemma RoundNearest(m: nat, x: u64)
    ensures Gap(RoundNat(m) * Pow2(1074), m * Pow2(1074)) <= Gap(Magnitude(x), m * Pow2(1074))
  {
    assert Pow2(0) == 1;
    var j := UlpIs(m, 0);
    var u := Pow2(j);
    if j == 0 {
      assert m == m * 1;
      MultiplesRound(m, m, 1);
    } else {
      var t := NotBetween(m, j, Exponent(x), Fraction(x));
      NearestMultiple(m, u, t);
      GapScaled(RoundNat(m), m, Pow2(1074));
      GapScaled(t * u, m, Pow2(1074));
      MultiplyMonotone(Pow2(1074), Gap(RoundNat(m), m), Gap(t * u, m));
    }
  }

  lemma GapScaled(a: int, b: int, p: int)
    requires p > 0
    ensures Gap(a * p, b * p) == p * Gap(a, b)
  {
    if a < b { FactorLess(p, a, b); } else { MultiplyMonotone(p, b, a); }
  }

  /** Every double is at least as far from `m` as some multiple of the unit of rounding. */
  lemma NotBetween(m: nat, j: nat, e: nat, f: nat) returns (t: int)
    requires j > 0 && f < TWO52 && m / Pow2(j) >= TWO52
    ensures Gap(t * Pow2(j) * Pow2(1074), m * Pow2(1074)) <= Gap(Scaled(e, f), m * Pow2(1074))
  {
    Pow2Small();
    var u, p := Pow2(j), Pow2(1074);
    Pow2Sum(j, 1074);
    if e > 0 && e - 1 >= j + 1074 {
      var k := e - 1 - (j + 1074);
      Pow2Sum(k, j + 1074);
      t := (TWO52 + f) * Pow2(k);
      Regroup(TWO52 + f, Pow2(k), Pow2(j + 1074));
      Regroup(t, u, p);
    } else {
      t := TWO52;
      Regroup(t, u, p);
      BelowNormal(e, f, j + 1074);
      assert m >= TWO52 * u by { assert u * (m / u) <= m; MultiplyMonotone(u, TWO52, m / u); }
      MultiplyMonotone(p, TWO52 * u, m);
    }
  }

  lemma BelowNormal(e: nat, f: nat, k: nat)
    requires f < TWO52 && k > 0 && (e == 0 || e - 1 < k)
    ensures Scaled(e, f) <= TWO52 * Pow2(k)
  {
    if e == 0 {
      MultiplyMonotone(TWO52, 1, Pow2(k));
    } else {
      Pow2Monotone(e - 1, k - 1);
      MultiplyMonotone(TWO52 + f, Pow2(e - 1), Pow2(k - 1));
      MultiplyMonotone(Pow2(k - 1), TWO52 + f, TWO53);
    }
  }

  lemma NearestSigned(n: i64, y: u64)
    ensures Gap(RoundInt(n) * Pow2(1074), n * Pow2(1074)) <= Gap(Signed(y), n * Pow2(1074))
  {
    var k: int := n;
    var m: nat := if k < 0 then 0 - k else k;
    var p := Pow2(1074);
    RoundNearest(m, y);
    MultiplyMonotone(p, 0, m);
    NegatedProduct(m, p);
    NegatedProduct(RoundNat(m), p);
    EitherSign(RoundNat(m) * p, m * p, Magnitude(y));
  }

  lemma EitherSign(r: int, k: nat, s: nat)
    requires Gap(r, k) <= Gap(s, k)
    ensures Gap(r, k) <= Gap(0 - s, k) && Gap(0 - r, 0 - k) <= Gap(s, 0 - k) && Gap(0 - r, 0 - k) <= Gap(0 - s, 0 - k)
  {
  }

  lemma NegatedProduct(a: int, p: int)
    ensures (0 - a) * p == 0 - a * p
  {
  }

  /**
   An integer and a float compare as the two numbers do, with one exception: an
   integer that is no double passes for the double nearest to it.
   */
  lemma NumericIff(n: i64, y: u64)
    requires !NaN(y)
    ensures CmpValues(Int(n), Float(y)) == Some(CompareInt(n * Pow2(1074), Signed(y)))
      <==> RoundInt(n) == n || Signed(y) != RoundInt(n) * Pow2(1074)
  {
    NearestSigned(n, y);
    if Signed(y) == n * Pow2(1074) { ExactInteger(n, y); }
    if Signed(y) == RoundInt(n) * Pow2(1074) && RoundInt(n) != n { Distinct(Pow2(1074), RoundInt(n), n); }
  }

  lemma Distinct(p: int, x: int, y: int)
    requires p > 0 && x != y
    ensures x * p != y * p
  {
    if x * p == y * p { Cancel(p, x, y); }
  }

  /** What an integer is rounded to is a double. */
  lemma RoundIsDouble(m: nat) returns (x: u64)
    requires m < 0x1_0000_0000_0000_0000
    ensures !NaN(x) && Signed(x) == RoundNat(m) * Pow2(1074)
  {
    Pow2Small();
    assert Pow2(0) == 1;
    var j := UlpIs(m, 0);
    var u := Pow2(j);
    if j == 0 {
      MultiplesRound(m, m, 1);
      if m == 0 {
        x := 0;
      } else {
        var k := LeadingBit(m, 52);
        IntegerPattern(m, k);
        x := PatternOf(m, k);
      }
    } else {
      ShortUnit(m, j);
      var q := if RoundNat(m) == (m / u) * u then m / u else m / u + 1;
      x := MultiplePattern(q, j);
    }
  }

  lemma {:induction false} LeadingBit(m: nat, b: nat) returns (k: nat)
    requires 0 < m < Pow2(b + 1)
    ensures k <= b && Pow2(k) <= m < Pow2(k + 1)
  {
    if m >= Pow2(b) { k := b; } else { assert Pow2(0) == 1; k := LeadingBit(m, b - 1); }
  }

  /** 64-bit integers need a unit of at most 2^11. */
  lemma ShortUnit(m: nat, j: nat)
    requires m < 0x1_0000_0000_0000_0000 && m / Pow2(j) >= TWO52
    ensures j <= 12
  {
    Pow2Thirteen();
    if 13 <= j { Pow2Monotone(13, j); }
    QuotientBound(m, Pow2(j), 8192);
  }

  lemma QuotientBound(m: nat, u: int, b: int)
    requires u > 0 && m / u >= TWO52
    ensures b <= u ==> m >= TWO52 * b
  {
    Quotient(m, u);
    MultiplyMonotone(u, TWO52, m / u);
  }

  lemma MultiplePattern(q: nat, j: nat) returns (x: u64)
    requires TWO52 <= q <= TWO53 && j <= 12
    ensures !NaN(x) && Signed(x) == q * Pow2(j) * Pow2(1074)
  {
    Pow2Sum(j, 1074);
    Regroup(q, Pow2(j), Pow2(1074));
    if q < TWO53 {
      Composed(j + 1075, q - TWO52);
      x := (j + 1075) * TWO52 + (q - TWO52);
    } else {
      Composed(j + 1076, 0);
      assert q * Pow2(j + 1074) == TWO52 * (2 * Pow2(j + 1074));
      x := (j + 1076) * TWO52;
    }
  }
}
