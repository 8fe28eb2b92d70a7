/**
 The two directions of conversion composed: integer to floating point and back, and
 floating point to integer and back. The sources do this between binary64 and 128 bits;
 that instance is given by Binary64Suits.
 */
module RoundTrips {
  import opened Bits
  import opened Ieee754
  import opened Rounding
  import opened FixToInt

  // The format can hold every w-bit integer, and 2^w.
  predicate Holds(f: Format, w: nat) {
    Suits(f, w) && w + 1 <= ExponentBias(f)
  }

  lemma Binary64Suits()
    ensures Holds(BINARY64, 128) && BINARY64.significandBits + 1 == 53
  {
    FormatConstants(BINARY64);
  }

  lemma HoldsIntegers(f: Format, w: nat, a: nat)
    requires Holds(f, w) && a <= Pow2(w)
    ensures InRange(f, a)
  {
    if a > 0 {
      BitLengthBounds(a);
      if BitLength(a) > w + 1 {
        Pow2Monotone(w + 1, BitLength(a) - 1);
      }
    }
  }

  // ----- properties of the rounded integer -----

  lemma RoundedBound(f: Format, a: nat)
    ensures Rounded(f, a) <= Pow2(BitLength(a))
  {
    var s, sd := f.significandBits, BitLength(a);
    if a > 0 {
      BitLengthBounds(a);
      if sd > s + 1 {
        SignificandBounds(f, a);
        ShlPow2(s + 1, sd - s - 1);
        ShlOrder(Pow2(s + 1), RoundedSignificand(f, a), sd - s - 1);
      }
    }
  }

  // Rounding leaves exactly the integers whose bits past the precision are zero.
  lemma RoundedExactly(f: Format, a: nat)
    ensures Rounded(f, a) == a <==>
            (BitLength(a) <= f.significandBits + 1 || Low(a, BitLength(a) - f.significandBits - 1) == 0)
  {
    if BitLength(a) > f.significandBits + 1 {
      RoundExactly(a, BitLength(a) - f.significandBits - 1);
    }
  }

  lemma RoundExactly(a: nat, k: nat)
    ensures Shl(RoundTiesToEven(a, k), k) == a <==> Low(a, k) == 0
  {
    Split(a, k);
    ShlOne(k);
    ShlAdd(Shr(a, k), 1, k);
  }

  // Rounding does not pass a power of two.
  lemma RoundedWithin(f: Format, a: nat, w: nat)
    requires a <= Pow2(w)
    ensures Rounded(f, a) <= Pow2(w)
  {
    if a == Pow2(w) {
      PowerIsExact(f, w);
    } else if a > 0 {
      RoundedBound(f, a);
      BitLengthBounds(a);
      if BitLength(a) > w {
        Pow2Monotone(w, BitLength(a) - 1);
      } else {
        Pow2Monotone(BitLength(a), w);
      }
    }
  }

  lemma PowerIsExact(f: Format, w: nat)
    ensures Rounded(f, Pow2(w)) == Pow2(w)
  {
    var a, s := Pow2(w), f.significandBits;
    BitLengthUnique(a, w + 1);
    RoundedExactly(f, a);
    if w > s {
      ShlPow2(s, w - s);
      SplitUnique(a, w - s, Pow2(s), 0);
    }
  }

  // Which integers below 2^w round up to it: those within half a last place.
  lemma ReachesPower(f: Format, a: nat, w: nat)
    requires a < Pow2(w) && w > f.significandBits + 1
    ensures Rounded(f, a) == Pow2(w) <==> a >= Pow2(w) - Pow2(w - f.significandBits - 2)
  {
    var p := f.significandBits + 1;
    Pow2Monotone(w - p - 1, w - 1);
    if a < Pow2(w - 1) {
      RoundedWithin(f, a, w - 1);
    } else {
      BitLengthUnique(a, w);
      RoundsToPower(a, p, w - p);
      ShlPow2(p, w - p);
      ShlOrder(RoundedSignificand(f, a), Pow2(p), w - p);
    }
  }

  lemma RoundsToPower(a: nat, p: nat, k: nat)
    requires a < Pow2(p + k) && k >= 1 && p >= 1
    ensures RoundTiesToEven(a, k) == Pow2(p) <==> a >= Pow2(p + k) - Pow2(k - 1)
  {
    var q := Shr(a, k);
    Split(a, k);
    ShlPow2(p, k);
    ShlOne(k);
    ShlAdd(q, 1, k);
    ShlOrder(q, Pow2(p), k);
    ShlAdd(Pow2(p) - 1, 1, k);
    ShlOrder(Pow2(p) - 1, q + 1, k);
    assert Pow2(k) == 2 * Pow2(k - 1) && Pow2(p) == 2 * Pow2(p - 1);
  }

  // ----- values of converted integers -----

  lemma FloatValue(f: Format, a: nat)
    requires InRange(f, a) && UnitBits(f) >= 0
    ensures Finite(f, FloatBits(f, a)) && !Negative(f, FloatBits(f, a))
    ensures Value(f, FloatBits(f, a)) == Shl(Rounded(f, a), UnitBits(f))
  {
    FloatIsNotNegative(f, a);
    if a == 0 {
      ZeroFields(f);
      ShlNegate(0, UnitBits(f));
    } else {
      FloatMagnitude(f, a);
    }
  }

  lemma FloatSignedFields(f: Format, a: int)
    requires InRange(f, Abs(a)) && UnitBits(f) >= 0
    ensures var d := FloatBitsSigned(f, a);
            && Finite(f, d) && (Negative(f, d) <==> a < 0)
            && Shr(Magnitude(f, d), UnitBits(f)) == Rounded(f, Abs(a))
  {
    var r := FloatBits(f, Abs(a));
    FloatValue(f, Abs(a));
    FlipNegates(f, r);
    SplitUnique(Magnitude(f, r), UnitBits(f), Rounded(f, Abs(a)), 0);
  }

  // A pattern that denotes the integer n exactly is the conversion of n.
  lemma ExactIsFixed(f: Format, n: nat, d: nat)
    requires InRange(f, n) && UnitBits(f) >= 0 && Denotes(f, d, n)
    ensures FloatBits(f, n) == d
  {
    FloatIsCorrectlyRounded(f, n);
    FloatIsNotNegative(f, n);
    assert NoNearer(f, Shl(n, UnitBits(f)), FloatBits(f, n), d);
    ValueInjective(f, FloatBits(f, n), d);
  }

  // The pattern denotes the integer n.
  predicate Denotes(f: Format, d: nat, n: nat)
    requires UnitBits(f) >= 0
  {
    Finite(f, d) && !Negative(f, d) && Value(f, d) == Shl(n, UnitBits(f))
  }

  // ----- integer, floating point, integer -----

  // Back comes the argument rounded to the precision of the format, capped.
  lemma FloatThenFix(f: Format, w: nat, a: nat)
    requires Holds(f, w) && a < Pow2(w)
    ensures IsRep(f, FloatBits(f, a))
    ensures FixUnsigned(f, w, FloatBits(f, a)) == Clamp(Rounded(f, a), 0, UnsignedMax(w))
  {
    HoldsIntegers(f, w, a);
    FloatSignedFields(f, a);
    FixUnsignedIsClampedTruncation(f, w, FloatBits(f, a));
  }

  // An integer survives exactly when it has no more significant bits than the precision,
  // or is the largest one, which comes back by saturation.
  lemma IntegerSurvives(f: Format, w: nat, a: nat)
    requires Holds(f, w) && a < Pow2(w)
    ensures FixUnsigned(f, w, FloatBits(f, a)) == a
       <==> (|| BitLength(a) <= f.significandBits + 1
             || Low(a, BitLength(a) - f.significandBits - 1) == 0
             || a == UnsignedMax(w))
  {
    FloatThenFix(f, w, a);
    RoundedExactly(f, a);
    RoundedWithin(f, a, w);
    ReachesPower(f, UnsignedMax(w), w);
    Pow2Monotone(0, w - f.significandBits - 2);
  }

  // Converting again gives back the same bits, also when the integer was capped.
  lemma FloatFixFloat(f: Format, w: nat, a: nat)
    requires Holds(f, w) && a < Pow2(w)
    ensures FloatBits(f, FixUnsigned(f, w, FloatBits(f, a))) == FloatBits(f, a)
  {
    FloatThenFix(f, w, a);
    HoldsIntegers(f, w, a);
    FloatValue(f, a);
    RoundedWithin(f, a, w);
    FixThenFloatBits(f, w, FloatBits(f, a), Rounded(f, a));
  }

  // ----- floating point, integer, floating point -----

  lemma FixThenFloatBits(f: Format, w: nat, d: nat, n: nat)
    requires Holds(f, w) && n <= Pow2(w) && Denotes(f, d, n)
    ensures FloatBits(f, FixUnsigned(f, w, d)) == d
  {
    FixUnsignedIsClampedTruncation(f, w, d);
    SplitUnique(Magnitude(f, d), UnitBits(f), n, 0);
    HoldsIntegers(f, w, n);
    if n == Pow2(w) {
      CapIsPower(f, w, d);
    } else {
      ExactIsFixed(f, n, d);
    }
  }

  // The largest integer rounds up to 2^w.
  lemma CapIsPower(f: Format, w: nat, d: nat)
    requires Holds(f, w) && Denotes(f, d, Pow2(w))
    ensures FloatBits(f, UnsignedMax(w)) == d
  {
    var cap := UnsignedMax(w);
    HoldsIntegers(f, w, cap);
    FloatValue(f, cap);
    ReachesPower(f, cap, w);
    Pow2Monotone(0, w - f.significandBits - 2);
    ValueInjective(f, FloatBits(f, cap), d);
  }

  // A pattern survives exactly when it denotes an integer up to 2^w and its sign bit is clear.
  lemma FixThenFloat(f: Format, w: nat, d: nat)
    requires Holds(f, w) && IsRep(f, d)
    ensures FloatBits(f, FixUnsigned(f, w, d)) == d <==> exists n: nat :: n <= Pow2(w) && Denotes(f, d, n)
  {
    var m := FixUnsigned(f, w, d);
    FixUnsignedIsClampedTruncation(f, w, d);
    HoldsIntegers(f, w, m);
    if FloatBits(f, m) == d {
      FloatValue(f, m);
      RoundedWithin(f, m, w);
      assert Denotes(f, d, Rounded(f, m));
    }
    if exists n: nat :: n <= Pow2(w) && Denotes(f, d, n) {
      var n: nat :| n <= Pow2(w) && Denotes(f, d, n);
      FixThenFloatBits(f, w, d, n);
    }
  }

  // ----- signed integer, floating point, signed integer -----

  // The signed trip rounds to the precision of the format, modulo 2^w.
  lemma {:induction false} FloatThenFixSigned(f: Format, w: nat, a: int)
    requires Holds(f, w) && SignedMin(w) <= a <= SignedMax(w)
    ensures FixSigned(f, w, FloatBitsSigned(f, a)) == WrapSigned(Times(if a < 0 then -1 else 1, Rounded(f, Abs(a))), w)
  {
    Pow2Monotone(w - 1, w);
    HoldsIntegers(f, w, Abs(a));
    var d := FloatBitsSigned(f, a);
    FloatSignedFields(f, a);
    RoundedWithin(f, Abs(a), w - 1);
    WrapsWhenSmall(f, w, d);
    FixSignedIsWrappedTruncation(f, w, d);
  }

  lemma WrapOfBound(sign: int, n: nat, w: nat)
    requires w >= 1 && n <= Pow2(w - 1)
    ensures WrapSigned(Times(sign, n), w) == Times(sign, n) <==> !(sign == 1 && n == Pow2(w - 1))
  {
    assert Pow2(w) == 2 * Pow2(w - 1);
    WrapInRange(Times(sign, n), w);
  }

  // Only rounding up to 2^(w - 1) itself is lost to wrapping.
  lemma WrapIsExact(f: Format, w: nat, a: int)
    requires f.significandBits + 2 < w && SignedMin(w) <= a <= SignedMax(w)
    ensures var x := Times(if a < 0 then -1 else 1, Rounded(f, Abs(a)));
            WrapSigned(x, w) == x <==> a < Pow2(w - 1) - Pow2(w - f.significandBits - 3)
  {
    RoundedWithin(f, Abs(a), w - 1);
    WrapOfBound(if a < 0 then -1 else 1, Rounded(f, Abs(a)), w);
    Pow2Monotone(w - f.significandBits - 3, w - 1);
    if a >= 0 {
      ReachesPower(f, a, w - 1);
    }
  }

  // So it is exact rounding below 2^(w - 1) - 2^(w - p - 2), p the precision, and from there
  // on the result has wrapped to a negative number. For binary64 and 128 bits: 2^127 - 2^73.
  lemma SignedSurvives(f: Format, w: nat, a: int)
    requires Holds(f, w) && f.significandBits + 2 < w && SignedMin(w) <= a <= SignedMax(w)
    ensures FixSigned(f, w, FloatBitsSigned(f, a)) == Times(if a < 0 then -1 else 1, Rounded(f, Abs(a)))
       <==> a < Pow2(w - 1) - Pow2(w - f.significandBits - 3)
  {
    FloatThenFixSigned(f, w, a);
    WrapIsExact(f, w, a);
  }
}
