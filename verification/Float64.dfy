/** binary64 values (section 3.4 of IEEE 754-2019) and Go's conversions to and from integers. */
module Float64 {
  const TWO52 := 0x10_0000_0000_0000
  const TWO53 := 0x20_0000_0000_0000
  const TWO63 := 0x8000_0000_0000_0000
  const TWO64 := 0x1_0000_0000_0000_0000

  datatype Raw = NaN | Infinity(negative: bool) | Finite(negative: bool, mantissa: nat, exponent: int)

  /** Every finite binary64 value is a 53-bit mantissa scaled by a power of two. */
  type Float = f: Raw
    | f.Finite? ==> f.mantissa < TWO53 && -1074 <= f.exponent <= 971
    witness NaN

  function Pow2(k: nat): (p: nat)
    ensures p > 0
  {
    if k == 0 then 1 else 2 * Pow2(k - 1)
  }

  function Magnitude(f: Float): (v: real)
    requires f.Finite?
    ensures v >= 0.0
  {
    if f.exponent >= 0 then (f.mantissa * Pow2(f.exponent)) as real
    else f.mantissa as real / Pow2(-f.exponent) as real
  }

  function Val(f: Float): real
    requires f.Finite?
  {
    if f.negative then -Magnitude(f) else Magnitude(f)
  }

  /** The value of a double: its mantissa at exponent 0, twice as much at every next exponent, and
      the opposite when it is negative. */
  lemma ValMeaning(m: nat, e: int, negative: bool)
    requires m < TWO53 && -1074 <= e <= 971
    ensures Val(Finite(negative, m, 0)) == if negative then -(m as real) else m as real
    ensures e < 971 ==> Val(Finite(negative, m, e + 1)) == 2.0 * Val(Finite(negative, m, e))
  {
    if 0 <= e < 971 {
      DoublesAbove(m, e);
    } else if e < 0 {
      DoublesBelow(m, -e - 1);
    }
  }

  lemma DoublesAbove(m: nat, k: nat)
    ensures (m * Pow2(k + 1)) as real == 2.0 * (m * Pow2(k)) as real
  {
    assert Pow2(k + 1) == 2 * Pow2(k);
    MulAssociates(2, m, Pow2(k));
    MulAssociates(m, 2, Pow2(k));
  }

  lemma DoublesBelow(m: nat, k: nat)
    ensures m as real / Pow2(k) as real == 2.0 * (m as real / Pow2(k + 1) as real)
  {
    assert Pow2(k + 1) == 2 * Pow2(k);
    Halves(m as real, Pow2(k) as real);
  }

  lemma Halves(a: real, p: real)
    requires p > 0.0
    ensures a / p == 2.0 * (a / (2.0 * p))
  {}

  predicate Integral(v: real) {
    v == v.Floor as real
  }

  /** Go's conversion of a float to an integer type that can hold it: truncation. */
  function Truncate(v: real): int {
    if v >= 0.0 then v.Floor else -((-v).Floor)
  }

  /** How many low bits of n do not fit a 53-bit mantissa. */
  function ExcessBits(n: nat): nat {
    if n < TWO53 then 0 else 1 + ExcessBits(n / 2)
  }

  /** n rounded to 53 significant bits, ties to even. */
  function RoundTo53(n: nat): nat {
    var k := ExcessBits(n);
    if k == 0 then n
    else
      var q, r, half := n / Pow2(k), n % Pow2(k), Pow2(k - 1);
      (if r > half || (r == half && q % 2 == 1) then q + 1 else q) * Pow2(k)
  }

  /** The result is the multiple m * 2^k nearest to n, the even one of two at the same distance, where
      k is the least for which n has at most 53 bits above its k lowest. */
  lemma RoundingMeaning(n: nat) returns (m: nat)
    ensures var k := ExcessBits(n);
      && RoundTo53(n) == m * Pow2(k) && IsNearest(n, m, Pow2(k))
      && n / Pow2(k) < TWO53 && (k > 0 ==> n / Pow2(k - 1) >= TWO53)
  {
    var k := ExcessBits(n);
    ExcessMeaning(n);
    DivisionFacts(n, Pow2(k));
    m := Rounded(n, k);
    HalfUnit(n, k);
    hide *;
    if k > 0 {
      NearestMultiple(n, n / Pow2(k), n % Pow2(k), Pow2(k - 1), m);
    }
  }

  lemma Rounded(n: nat, k: nat) returns (m: nat)
    requires k == ExcessBits(n)
    ensures RoundTo53(n) == m * Pow2(k)
    ensures k > 0 ==>
      var q, r, half := n / Pow2(k), n % Pow2(k), Pow2(k - 1);
      m == if r > half || (r == half && q % 2 == 1) then q + 1 else q
    ensures k == 0 ==> m == n
  {
    hide ExcessBits;
    if k == 0 {
      m := n;
    } else {
      var q, r, half := n / Pow2(k), n % Pow2(k), Pow2(k - 1);
      m := if r > half || (r == half && q % 2 == 1) then q + 1 else q;
    }
  }

  lemma HalfUnit(n: nat, k: nat)
    ensures k > 0 ==> Pow2(k) == 2 * Pow2(k - 1)
    ensures k == 0 ==> Pow2(k) == 1 && IsNearest(n, n, 1)
  {}

  lemma DivisionFacts(n: nat, p: nat)
    requires p > 0
    ensures n == n / p * p + n % p && n % p < p
  {}

  /** No multiple of the unit is nearer to n than m * unit; between two equally near ones m is even. */
  predicate IsNearest(n: int, m: int, unit: int) {
    var distance: int := n - m * unit;
    && -unit <= 2 * distance <= unit
    && (unit > 1 && (2 * distance == unit || 2 * distance == -unit) ==> m % 2 == 0)
  }

  lemma NearestMultiple(n: nat, q: nat, r: nat, half: nat, m: nat)
    requires half > 0 && r < 2 * half && n == q * (2 * half) + r
    requires m == if r > half || (r == half && q % 2 == 1) then q + 1 else q
    ensures IsNearest(n, m, 2 * half)
  {
    assert (q + 1) * (2 * half) == q * (2 * half) + 2 * half;
  }

  lemma {:induction false} ExcessMeaning(n: nat)
    ensures var k := ExcessBits(n); n / Pow2(k) < TWO53 && (k > 0 ==> n / Pow2(k - 1) >= TWO53)
  {
    if n >= TWO53 {
      ExcessMeaning(n / 2);
      var k := ExcessBits(n);
      QuotientOfHalf(n, Pow2(k - 1));
      if k > 1 {
        QuotientOfHalf(n, Pow2(k - 2));
      }
    }
  }

  lemma QuotientOfHalf(n: nat, p: nat)
    requires p > 0
    ensures n / (2 * p) == n / 2 / p
  {
    var q, r := n / 2 / p, n / 2 % p;
    assert n / 2 == q * p + r;
    var low := n - q * (2 * p);
    assert 2 * (q * p) == q * (2 * p);
    assert 0 <= low < 2 * p;
    QuotientUnique(n, 2 * p, q, low);
  }

  lemma QuotientUnique(n: nat, p: nat, q: nat, r: nat)
    requires p > 0 && r < p && n == q * p + r
    ensures n / p == q
  {
    var d := n / p - q;
    assert d * p == r - n % p;
    MultipleLeavesGap(d, p);
  }

  /** Go's float64(i). */
  function ToFloat(i: int): int {
    if i >= 0 then RoundTo53(i) else var r: int := RoundTo53(-i); -r
  }

  lemma {:induction false} ScaledFitsExcess(m: nat, j: nat)
    requires m < TWO53
    ensures ExcessBits(m * Pow2(j)) <= j
  {
    var n := m * Pow2(j);
    if j > 0 && n >= TWO53 {
      assert n == 2 * (m * Pow2(j - 1));
      ScaledFitsExcess(m, j - 1);
    }
  }

  lemma {:induction false} Pow2Adds(a: nat, b: nat)
    ensures Pow2(a + b) == Pow2(a) * Pow2(b)
  {
    if a > 0 {
      Pow2Adds(a - 1, b);
      assert 2 * Pow2(a - 1) * Pow2(b) == 2 * (Pow2(a - 1) * Pow2(b));
    }
  }

  lemma MultipleLeavesGap(x: int, p: nat)
    ensures x >= 1 ==> x * p >= p
    ensures x <= -1 ==> x * p + p <= 0
  {}

  lemma DivisibleByFactor(a: nat, p: nat)
    requires p > 0
    ensures a * p % p == 0 && a * p / p == a
  {
    var q, r := a * p / p, a * p % p;
    assert (a - q) * p == r;
    MultipleLeavesGap(a - q, p);
  }

  lemma MultipleRoundsToItself(n: nat, a: nat)
    requires n == a * Pow2(ExcessBits(n))
    ensures RoundTo53(n) == n
  {
    DivisibleByFactor(a, Pow2(ExcessBits(n)));
  }

  /** An integer with a 53-bit mantissa survives float64 unchanged. */
  lemma RepresentableIsExact(m: nat, j: nat)
    requires m < TWO53
    ensures RoundTo53(m * Pow2(j)) == m * Pow2(j)
  {
    var n := m * Pow2(j);
    var k := ExcessBits(n);
    ScaledFitsExcess(m, j);
    var high := Pow2(j - k);
    assert n == (m * high) * Pow2(k) by {
      Pow2Adds(j - k, k);
      MulAssociates(m, high, Pow2(k));
    }
    MultipleRoundsToItself(n, m * high);
  }

  lemma MulAssociates(a: int, b: int, c: int)
    ensures a * (b * c) == (a * b) * c
  {}

  /** The round-trip test is exact: truncating a finite double and converting it back gives
      the same double if and only if the double is an integer. */
  lemma RoundTripTest(f: Float)
    requires f.Finite?
    ensures ToFloat(Truncate(Val(f))) as real == Val(f) <==> Integral(Val(f))
    ensures Integral(Val(f)) ==> Truncate(Val(f)) as real == Val(f)
  {
    if Integral(Magnitude(f)) {
      MagnitudeIsExact(f);
    }
    RoundTripOfReal(Magnitude(f), f.negative);
  }

  lemma RoundTripOfReal(m: real, negative: bool)
    requires m >= 0.0
    requires Integral(m) ==> RoundTo53(m.Floor) == m.Floor
    ensures var v := if negative then -m else m;
            && (ToFloat(Truncate(v)) as real == v <==> Integral(v))
            && (Integral(v) ==> Truncate(v) as real == v)
  {
    IntegralNegates(m);
  }

  lemma IntegralNegates(m: real)
    ensures Integral(-m) <==> Integral(m)
  {
    if Integral(m) {
      assert (-(m.Floor)) as real == -m;
    }
    if Integral(-m) {
      assert (-((-m).Floor)) as real == m;
    }
  }

  lemma MagnitudeIsExact(f: Float)
    requires f.Finite? && Integral(Magnitude(f))
    ensures RoundTo53(Magnitude(f).Floor) == Magnitude(f).Floor
  {
    var n: nat := Magnitude(f).Floor;
    if f.exponent >= 0 {
      RepresentableIsExact(f.mantissa, f.exponent);
    } else {
      MagnitudeBelowMantissa(f);
      assert Pow2(0) == 1 && n < TWO53;
      RepresentableIsExact(n, 0);
    }
  }

  lemma MagnitudeBelowMantissa(f: Float)
    requires f.Finite? && f.exponent < 0
    ensures Magnitude(f) <= f.mantissa as real / 2.0
  {
    QuotientHalves(f.mantissa as real, Pow2(-f.exponent) as real);
  }

  lemma QuotientHalves(a: real, p: real)
    requires a >= 0.0 && p >= 2.0
    ensures 0.0 <= a / p <= a / 2.0
  {
    var v := a / p;
    assert v * p == a;
    assert v < 0.0 ==> v * p < 0.0;
    assert v * (p - 2.0) >= 0.0;
  }

  lemma WholeIsIntegral(n: int, negative: bool)
    ensures Integral(if negative then -(n as real) else n as real)
  {
    assert (-n) as real == -(n as real);
  }

  /** Every double that is not an integer has a magnitude below 2^52. */
  lemma NonIntegralIsSmall(f: Float)
    requires f.Finite? && !Integral(Val(f))
    ensures Magnitude(f) < TWO52 as real
  {
    if f.exponent < 0 {
      MagnitudeBelowMantissa(f);
    } else {
      WholeIsIntegral(f.mantissa * Pow2(f.exponent), f.negative);
    }
  }
}
