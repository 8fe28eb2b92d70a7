/**
 Conversion of an integer to a binary format, rounding to nearest with ties to even
 (IEEE 754-2008, sections 4.3.1 and 5.4.1): the function the conversions compute,
 and the proof that it is the correctly rounded result among all finite values of
 the format. Everything here holds for any format wide enough for the integer.
 */
module Rounding {
  import opened Bits
  import opened Ieee754

  // a / 2^k to the nearest integer, halves to the even one.
  function RoundTiesToEven(a: nat, k: nat): nat {
    var q, r := Shr(a, k), Low(a, k);
    if 2 * r < Pow2(k) || (2 * r == Pow2(k) && q % 2 == 0) then q else q + 1
  }

  // The significand of a rounded to the precision of the format, before a carry out of
  // it is moved into the exponent.
  function RoundedSignificand(f: Format, a: nat): nat {
    var p, sd := f.significandBits + 1, BitLength(a);
    if sd <= p then
      ShlNat(a, p - sd);
      Shl(a, p - sd)
    else RoundTiesToEven(a, sd - p)
  }

  // The integer that the conversion denotes.
  function Rounded(f: Format, a: nat): nat {
    var p, sd := f.significandBits + 1, BitLength(a);
    if sd <= p then a
    else
      ShlNat(RoundedSignificand(f, a), sd - p);
      Shl(RoundedSignificand(f, a), sd - p)
  }

  // The pattern. Adding the significand with its leading one to the exponent field, one
  // less than the biased exponent, lets a carry out of the significand land there.
  function FloatBits(f: Format, a: nat): nat
    requires ExponentBias(f) >= 1
  {
    if a == 0 then 0
    else
      var e := BitLength(a) - 2 + ExponentBias(f);
      ShlNat(e, f.significandBits);
      Shl(e, f.significandBits) + RoundedSignificand(f, a)
  }

  // Signed integers are converted by magnitude.
  function FloatBitsSigned(f: Format, a: int): nat
    requires ExponentBias(f) >= 1
  {
    if a < 0 then FloatBits(f, -a) + SignBit(f) else FloatBits(f, a)
  }

  // ----- correct rounding -----

  function Distance(x: int, y: int): nat {
    if x < y then y - x else x - y
  }

  // No finite value of the format is nearer to x / 2^UnitBits than r is, and if another
  // one is as near then the significand of r is even.
  predicate NoNearer(f: Format, x: int, r: nat, d: nat) {
    && Distance(Value(f, r), x) <= Distance(Value(f, d), x)
    && (Distance(Value(f, r), x) == Distance(Value(f, d), x) && Value(f, r) != Value(f, d)
        ==> Fraction(f, r) % 2 == 0)
  }

  ghost predicate CorrectlyRounded(f: Format, x: int, r: nat) {
    Finite(f, r) && forall d: nat :: Finite(f, d) ==> NoNearer(f, x, r, d)
  }

  // The format can hold a: its exponent range covers every integer below 2^sd.
  predicate InRange(f: Format, a: nat) {
    && f.significandBits >= 1 && ExponentBias(f) >= 1
    && MaxExponent(f) == 2 * ExponentBias(f) + 1
    && BitLength(a) <= ExponentBias(f)
  }

  // ----- rounding the significand -----

  lemma ShrOfLength(a: nat, k: nat)
    requires k < BitLength(a)
    ensures var p := BitLength(a) - k; Pow2(p - 1) <= Shr(a, k) < Pow2(p)
  {
    var p := BitLength(a) - k;
    BitLengthBounds(a);
    Split(a, k);
    ShlPow2(p, k);
    ShlPow2(p - 1, k);
    ShlOne(k);
    var q := Shr(a, k);
    ShlAdd(q, 1, k);
    ShlOrder(q, Pow2(p), k);
    ShlOrder(q + 1, Pow2(p - 1), k);
    ShlOrder(Pow2(p - 1), q + 1, k);
  }

  // Shifting up to the precision puts the leading one in place.
  lemma ShlToLength(a: nat, p: nat)
    requires 0 < BitLength(a) <= p
    ensures Pow2(p - 1) <= Shl(a, p - BitLength(a)) < Pow2(p)
  {
    var sd := BitLength(a);
    BitLengthBounds(a);
    ShlPow2(sd, p - sd);
    ShlPow2(sd - 1, p - sd);
    ShlOrder(a, Pow2(sd), p - sd);
    ShlOrder(a, Pow2(sd - 1), p - sd);
  }

  lemma SignificandBounds(f: Format, a: nat)
    requires a > 0
    ensures Pow2(f.significandBits) <= RoundedSignificand(f, a) <= Pow2(f.significandBits + 1)
    ensures BitLength(a) <= f.significandBits + 1 ==> RoundedSignificand(f, a) < Pow2(f.significandBits + 1)
  {
    var p, sd := f.significandBits + 1, BitLength(a);
    if sd <= p {
      ShlToLength(a, p);
    } else {
      ShrOfLength(a, sd - p);
    }
  }

  // Of x and x + p, the one chosen for x + r is nearest among x, x + p and everything
  // at least p away from both.
  lemma NearerEnd(x: int, p: nat, r: nat, up: bool, y: int)
    requires r < p && (2 * r < p ==> !up) && (2 * r > p ==> up)
    requires y <= x - p || y == x || y == x + p || y >= x + 2 * p
    ensures var c := if up then x + p else x;
            && Distance(c, x + r) <= Distance(y, x + r)
            && (Distance(c, x + r) == Distance(y, x + r) && y != c ==> 2 * r == p)
  {
  }

  // Among all multiples of 2^k the rounded one is nearest to a, ties to even.
  lemma NearestMultiple(a: nat, k: nat, j: int)
    ensures var q := RoundTiesToEven(a, k);
            && Distance(Shl(q, k), a) <= Distance(Shl(j, k), a)
            && (Distance(Shl(q, k), a) == Distance(Shl(j, k), a) && j != q ==> q % 2 == 0)
  {
    var t, q := Shr(a, k), RoundTiesToEven(a, k);
    Split(a, k);
    MultiplesApart(t, j, k);
    ShlOrder(j, q, k);
    NearerEnd(Shl(t, k), Pow2(k), Low(a, k), q == t + 1, Shl(j, k));
  }

  lemma MultiplesApart(t: int, j: int, k: nat)
    ensures var x, y, p := Shl(t, k), Shl(j, k), Pow2(k);
            && Shl(t + 1, k) == x + p
            && (y <= x - p || y == x || y == x + p || y >= x + 2 * p)
  {
    ShlOne(k);
    ShlAdd(t, 1, k);
    ShlAdd(t - 1, 1, k);
    ShlAdd(t + 1, 1, k);
    if j < t {
      ShlOrder(t - 1, j, k);
    } else if j > t + 1 {
      ShlOrder(j, t + 2, k);
    }
  }

  // ----- fields and value of the pattern -----

  lemma FloatFields(f: Format, a: nat)
    requires a > 0 && InRange(f, a)
    ensures var r, m := FloatBits(f, a), RoundedSignificand(f, a);
            var e := BitLength(a) - 1 + ExponentBias(f);
            var carry := m == Pow2(f.significandBits + 1);
            && Finite(f, r) && !Negative(f, r)
            && BiasedExponent(f, r) == (if carry then e + 1 else e)
            && Fraction(f, r) == (if carry then 0 else m - Pow2(f.significandBits))
  {
    var s, m := f.significandBits, RoundedSignificand(f, a);
    var e := BitLength(a) - 1 + ExponentBias(f);
    SignificandBounds(f, a);
    ShlAdd(e - 1, 1, s);
    ShlAdd(e, 1, s);
    ShlOne(s);
    if m == Pow2(s + 1) {
      Pack(f, false, e + 1, 0);
    } else {
      Pack(f, false, e, m - Pow2(s));
    }
  }

  lemma FloatMagnitude(f: Format, a: nat)
    requires a > 0 && InRange(f, a)
    ensures UnitBits(f) >= 0
    ensures Value(f, FloatBits(f, a)) == Shl(Rounded(f, a), UnitBits(f))
  {
    FloatFields(f, a);
    var s, sd, m := f.significandBits, BitLength(a), RoundedSignificand(f, a);
    var e := sd - 2 + ExponentBias(f);
    ShlShl(Pow2(s), 1, e);
    assert Shl(Pow2(s), 1) == Pow2(s + 1);
    assert Magnitude(f, FloatBits(f, a)) == Shl(m, e);
    if sd <= s + 1 {
      ShlShl(a, s + 1 - sd, e);
    } else {
      ShlShl(m, sd - s - 1, UnitBits(f));
    }
  }

  // ----- correct rounding of unsigned integers -----

  // From 2^(sd - 1) up, every value of the format is a multiple of the last place of a.
  lemma ValuesAreMultiples(f: Format, a: nat, d: nat) returns (j: int)
    requires a > 0 && InRange(f, a) && UnitBits(f) >= 0 && Finite(f, d)
    requires f.significandBits + 1 < BitLength(a)
    requires Value(f, d) >= Shl(Pow2(BitLength(a) - 1), UnitBits(f))
    ensures Value(f, d) == Shl(Shl(j, BitLength(a) - f.significandBits - 1), UnitBits(f))
  {
    var s, sd, u := f.significandBits, BitLength(a), UnitBits(f);
    var k := sd - s - 1;
    ShlPow2(sd - 1, u);
    Pow2Monotone(s, sd - 1 + u);
    Binade(f, d);
    var e := BiasedExponent(f, d);
    if e <= sd + ExponentBias(f) - 2 {
      Pow2Monotone(s + e, sd - 1 + u);
    }
    j := Shl(Significand(f, d), e - 1 - k - u);
    ShlShl(Significand(f, d), e - 1 - k - u, k + u);
    ShlShl(j, k, u);
  }

  lemma ScaledDistance(x: int, y: int, u: nat)
    ensures Distance(Shl(x, u), Shl(y, u)) == Shl(Distance(x, y), u)
  {
    ShlAdd(x, -y, u);
    ShlAdd(y, -x, u);
    ShlNegate(x, u);
    ShlNegate(y, u);
    ShlOrder(x, y, u);
  }

  lemma FloatNoNearer(f: Format, a: nat, d: nat)
    requires a > 0 && InRange(f, a) && UnitBits(f) >= 0 && Finite(f, d)
    ensures NoNearer(f, Shl(a, UnitBits(f)), FloatBits(f, a), d)
  {
    FloatMagnitude(f, a);
    var s, sd, u := f.significandBits, BitLength(a), UnitBits(f);
    if sd > s + 1 {
      if Value(f, d) >= Shl(Pow2(sd - 1), u) {
        var j := ValuesAreMultiples(f, a, d);
        NearMultiple(f, a, d, j);
      } else {
        LeadingPowerBound(f, a);
      }
    }
  }

  // NearestMultiple on the scale of the format.
  lemma NearestScaled(a: nat, k: nat, u: nat, j: int)
    ensures var q := RoundTiesToEven(a, k);
            var x, y := Distance(Shl(Shl(q, k), u), Shl(a, u)), Distance(Shl(Shl(j, k), u), Shl(a, u));
            x <= y && (x == y && j != q ==> q % 2 == 0)
  {
    var q := RoundTiesToEven(a, k);
    NearestMultiple(a, k, j);
    ScaledDistance(Shl(q, k), a, u);
    ScaledDistance(Shl(j, k), a, u);
    ShlOrder(Distance(Shl(j, k), a), Distance(Shl(q, k), a), u);
  }

  // The power of two at the head of a is a multiple, so it is no nearer either.
  lemma LeadingPowerBound(f: Format, a: nat)
    requires a > 0 && f.significandBits + 1 < BitLength(a) && UnitBits(f) >= 0
    ensures var h, u := Pow2(BitLength(a) - 1), UnitBits(f);
            && Shl(h, u) <= Shl(a, u)
            && Distance(Shl(Rounded(f, a), u), Shl(a, u)) <= Shl(a, u) - Shl(h, u)
  {
    var s, sd, u := f.significandBits, BitLength(a), UnitBits(f);
    BitLengthBounds(a);
    ShlOrder(a, Pow2(sd - 1), u);
    LeadingPowerNear(a, sd - s - 1, s, u);
  }

  lemma LeadingPowerNear(a: nat, k: nat, s: nat, u: nat)
    requires Shl(Pow2(s + k), u) <= Shl(a, u)
    ensures Distance(Shl(Shl(RoundTiesToEven(a, k), k), u), Shl(a, u)) <= Shl(a, u) - Shl(Pow2(s + k), u)
  {
    ShlPow2(s, k);
    NearestScaled(a, k, u, Pow2(s));
  }

  lemma NearMultiple(f: Format, a: nat, d: nat, j: int)
    requires a > 0 && InRange(f, a) && UnitBits(f) >= 0 && Finite(f, d)
    requires f.significandBits + 1 < BitLength(a)
    requires Value(f, d) == Shl(Shl(j, BitLength(a) - f.significandBits - 1), UnitBits(f))
    ensures NoNearer(f, Shl(a, UnitBits(f)), FloatBits(f, a), d)
  {
    FloatMagnitude(f, a);
    EvenFraction(f, a);
    NearestScaled(a, BitLength(a) - f.significandBits - 1, UnitBits(f), j);
  }

  // The pattern has an even fraction when the rounded significand is even.
  lemma EvenFraction(f: Format, a: nat)
    requires a > 0 && InRange(f, a)
    ensures RoundedSignificand(f, a) % 2 == 0 ==> Fraction(f, FloatBits(f, a)) % 2 == 0
  {
    FloatFields(f, a);
    SignificandBounds(f, a);
    assert Pow2(f.significandBits) == 2 * Pow2(f.significandBits - 1);
  }

  // The pattern is the correctly rounded one, for every integer the format can hold.
  lemma FloatIsCorrectlyRounded(f: Format, a: nat)
    requires InRange(f, a)
    ensures UnitBits(f) >= 0
    ensures CorrectlyRounded(f, Shl(a, UnitBits(f)), FloatBits(f, a))
  {
    var u := UnitBits(f);
    if a == 0 {
      ZeroFields(f);
      ShlNegate(0, u);
    } else {
      FloatFields(f, a);
      forall d: nat | Finite(f, d)
        ensures NoNearer(f, Shl(a, u), FloatBits(f, a), d)
      {
        FloatNoNearer(f, a, d);
      }
    }
  }

  lemma ZeroFields(f: Format)
    requires ExponentBias(f) >= 1
    ensures Finite(f, 0) && !Negative(f, 0) && Value(f, 0) == 0 && Fraction(f, 0) == 0
  {
    ShlNegate(0, f.significandBits);
    Pack(f, false, 0, 0);
  }

  // ----- the correctly rounded pattern is unique -----

  // Patterns with a clear sign bit are ordered as the numbers they denote.
  lemma PatternOrder(f: Format, r: nat, d: nat)
    requires r < d < SignBit(f)
    ensures Magnitude(f, r) < Magnitude(f, d)
  {
    FieldBounds(f, r);
    FieldBounds(f, d);
    Binade(f, r);
    Binade(f, d);
    var s, e, e' := f.significandBits, BiasedExponent(f, r), BiasedExponent(f, d);
    if e < e' {
      Pow2Monotone(s + e, s + e' - 1);
    } else if e == e' {
      ShlOrder(Significand(f, r), Significand(f, d), Scale(f, r));
    } else {
      ShlAdd(e', 1, s);
      ShlOne(s);
      ShlOrder(e, e' + 1, s);
    }
  }

  lemma FractionParity(f: Format, r: nat)
    requires f.significandBits >= 1
    ensures Fraction(f, r) % 2 == r % 2
  {
  }

  // The next pattern up is between two patterns of even significand.
  lemma PatternBetween(f: Format, r: nat, d: nat)
    requires f.significandBits >= 1 && r < d && Finite(f, d) && !Negative(f, d)
    requires Fraction(f, r) % 2 == 0 && Fraction(f, d) % 2 == 0
    ensures Finite(f, r + 1) && !Negative(f, r + 1)
    ensures Magnitude(f, r) < Magnitude(f, r + 1) < Magnitude(f, d)
  {
    FractionParity(f, r);
    FractionParity(f, d);
    PatternOrder(f, r, r + 1);
    PatternOrder(f, r + 1, d);
    FiniteBelow(f, r + 1, d);
  }

  lemma FiniteBelow(f: Format, r: nat, d: nat)
    requires r < d && Finite(f, d) && !Negative(f, d)
    ensures Finite(f, r)
  {
    FieldBounds(f, r);
    FieldBounds(f, d);
    if BiasedExponent(f, r) == MaxExponent(f) {
      ShlAdd(BiasedExponent(f, d), 1, f.significandBits);
      ShlOne(f.significandBits);
      ShlOrder(MaxExponent(f), BiasedExponent(f, d) + 1, f.significandBits);
    }
  }

  lemma CorrectRoundingUnique(f: Format, x: nat, r: nat, d: nat)
    requires f.significandBits >= 1 && ExponentBias(f) >= 1
    requires CorrectlyRounded(f, x, r) && CorrectlyRounded(f, x, d) && !Negative(f, r) && !Negative(f, d)
    ensures r == d
  {
    assert NoNearer(f, x, r, d) && NoNearer(f, x, d, r);
    if r < d {
      PatternOrder(f, r, d);
      PatternBetween(f, r, d);
    } else if d < r {
      PatternOrder(f, d, r);
      PatternBetween(f, d, r);
    }
  }

  // Among patterns with a clear sign bit, being correctly rounded singles out FloatBits.
  lemma FloatIsTheCorrectRounding(f: Format, a: nat, d: nat)
    requires InRange(f, a) && !Negative(f, d)
    ensures UnitBits(f) >= 0
    ensures CorrectlyRounded(f, Shl(a, UnitBits(f)), d) <==> d == FloatBits(f, a)
  {
    FloatIsCorrectlyRounded(f, a);
    FloatIsNotNegative(f, a);
    ShlNat(a, UnitBits(f));
    if CorrectlyRounded(f, Shl(a, UnitBits(f)), d) {
      CorrectRoundingUnique(f, Shl(a, UnitBits(f)), FloatBits(f, a), d);
    }
  }

  lemma FloatIsNotNegative(f: Format, a: nat)
    requires InRange(f, a)
    ensures Finite(f, FloatBits(f, a)) && !Negative(f, FloatBits(f, a))
  {
    if a == 0 {
      ZeroFields(f);
    } else {
      FloatFields(f, a);
    }
  }

  // ----- signed integers -----

  // The pattern with the opposite sign.
  function Flip(f: Format, d: nat): nat {
    if Negative(f, d) then d - SignBit(f) else d + SignBit(f)
  }

  lemma FlipNegates(f: Format, d: nat)
    requires Finite(f, d)
    ensures Finite(f, Flip(f, d)) && Negative(f, Flip(f, d)) == !Negative(f, d)
    ensures Value(f, Flip(f, d)) == -Value(f, d) && Fraction(f, Flip(f, d)) == Fraction(f, d)
    ensures Flip(f, Flip(f, d)) == d
  {
    FieldBounds(f, d);
    Pack(f, !Negative(f, d), BiasedExponent(f, d), Fraction(f, d));
  }

  lemma FlipNoNearer(f: Format, x: int, r: nat, d: nat)
    requires Finite(f, r) && Finite(f, d) && NoNearer(f, x, r, Flip(f, d))
    ensures NoNearer(f, -x, Flip(f, r), d)
  {
    FlipNegates(f, r);
    FlipNegates(f, d);
  }

  lemma FlipCorrectlyRounded(f: Format, x: int, r: nat)
    requires CorrectlyRounded(f, x, r)
    ensures CorrectlyRounded(f, -x, Flip(f, r))
  {
    FlipNegates(f, r);
    forall d: nat | Finite(f, d)
      ensures NoNearer(f, -x, Flip(f, r), d)
    {
      FlipNegates(f, d);
      assert NoNearer(f, x, r, Flip(f, d));
      FlipNoNearer(f, x, r, d);
    }
  }

  function Abs(a: int): nat {
    if a < 0 then -a else a
  }

  lemma FloatSignedIsCorrectlyRounded(f: Format, a: int)
    requires InRange(f, Abs(a))
    ensures UnitBits(f) >= 0
    ensures CorrectlyRounded(f, Shl(a, UnitBits(f)), FloatBitsSigned(f, a))
  {
    FloatIsCorrectlyRounded(f, Abs(a));
    FloatIsNotNegative(f, Abs(a));
    if a < 0 {
      ShlNegate(-a, UnitBits(f));
      FlipCorrectlyRounded(f, Shl(-a, UnitBits(f)), FloatBits(f, -a));
    }
  }

  // ----- monotonicity -----

  lemma CorrectRoundingMonotone(f: Format, x: int, y: int, r: nat, d: nat)
    requires x < y && CorrectlyRounded(f, x, r) && CorrectlyRounded(f, y, d)
    ensures Value(f, r) <= Value(f, d)
  {
    assert NoNearer(f, x, r, d) && NoNearer(f, y, d, r);
  }

  // A larger integer never converts to a smaller number.
  lemma FloatSignedMonotone(f: Format, a: int, b: int)
    requires InRange(f, Abs(a)) && InRange(f, Abs(b)) && a <= b
    ensures Value(f, FloatBitsSigned(f, a)) <= Value(f, FloatBitsSigned(f, b))
  {
    if a < b {
      FloatSignedIsCorrectlyRounded(f, a);
      FloatSignedIsCorrectlyRounded(f, b);
      ShlOrder(a, b, UnitBits(f));
      CorrectRoundingMonotone(f, Shl(a, UnitBits(f)), Shl(b, UnitBits(f)), FloatBitsSigned(f, a),
                              FloatBitsSigned(f, b));
    }
  }
}
