/**
 The six conversions from a binary32, binary64 or binary128 pattern to a signed or
 unsigned 128-bit integer. The C files share one text and differ in the header they
 include (fp32.h, fp64.h, fp128.h), which only sets the format constants, so there is
 one function per signedness with the format as a parameter. The width of the integer
 type, sizeof(fixint_t) * CHAR_BIT in the sources, is a parameter as well; it is 128 in
 all six, and the results hold for every width that suits the format.
 */
module FixToInt {
  import opened Bits
  import opened Ieee754

  function UnsignedMax(w: nat): int { Pow2(w) - 1 }

  function SignedMax(w: nat): int
    requires w >= 1
  {
    Pow2(w - 1) - 1
  }

  function SignedMin(w: nat): int
    requires w >= 1
  {
    -SignedMax(w) - 1
  }

  // ----- the locals at the top of every conversion -----

  function AbsRep(f: Format, a: nat): nat {
    BitAnd(a, SignBit(f) - 1)
  }

  function Sign(f: Format, a: nat): int {
    if BitAnd(a, SignBit(f)) != 0 then -1 else 1
  }

  function Exponent(f: Format, a: nat): int {
    Shr(AbsRep(f, a), f.significandBits) - ExponentBias(f)
  }

  function FullSignificand(f: Format, a: nat): nat {
    BitOr(BitAnd(AbsRep(f, a), ImplicitBit(f) - 1), ImplicitBit(f))
  }

  // ----- the conversions -----

  function FixUnsigned(f: Format, w: nat, a: nat): (r: nat) {
    var exponent := Exponent(f, a);
    if Sign(f, a) == -1 || exponent < 0 then 0
    else if exponent >= w then UnsignedMax(w)
    else if exponent < f.significandBits then Shr(FullSignificand(f, a), f.significandBits - exponent)
    else ShlWord(FullSignificand(f, a), exponent - f.significandBits, w)
  }

  // The two's complement pattern of x in w bits.
  function Pattern(x: int, w: nat): nat {
    if x >= 0 then Low(x, w)
    else
      Split(-x, w);
      Low(Pow2(w) - Low(-x, w), w)
  }

  // That pattern read back: x brought into the signed range modulo 2^w.
  function WrapSigned(x: int, w: nat): int
    requires w >= 1
  {
    if Pattern(x, w) >= Pow2(w - 1) then Pattern(x, w) - Pow2(w) else Pattern(x, w)
  }

  // sign * x, where sign is 1 or -1.
  function Times(sign: int, x: int): int {
    if sign == 1 then x else -x
  }

  function FixSigned(f: Format, w: nat, a: nat): (r: int)
    requires w >= 1
  {
    var exponent := Exponent(f, a);
    var sign := Sign(f, a);
    if exponent < 0 then 0
    else if exponent >= w then if sign == 1 then SignedMax(w) else SignedMin(w)
    else if exponent < f.significandBits then Times(sign, Shr(FullSignificand(f, a), f.significandBits - exponent))
    else WrapSigned(Times(sign, WrapSigned(Shl(FullSignificand(f, a), exponent - f.significandBits), w)), w)
  }

  // ----- the locals are the fields of the pattern -----

  lemma Locals(f: Format, a: nat)
    requires IsRep(f, a)
    ensures Sign(f, a) == if Negative(f, a) then -1 else 1
    ensures Exponent(f, a) == BiasedExponent(f, a) - ExponentBias(f)
    ensures FullSignificand(f, a) == ImplicitBit(f) + Fraction(f, a)
  {
    var s, x := f.significandBits, f.exponentBits;
    FieldBounds(f, a);
    var t := AbsWithoutSign(a, s + x);
    var e, m := BiasedExponent(f, a), Fraction(f, a);
    SplitUnique(t, s, e, m);
    ImplicitJoin(t, s);
  }

  // Clearing and testing the top bit of a word of k + 1 bits.
  lemma AbsWithoutSign(a: nat, k: nat) returns (t: nat)
    requires a < 2 * Pow2(k)
    ensures t == (if a >= Pow2(k) then a - Pow2(k) else a) == BitAnd(a, Pow2(k) - 1)
    ensures BitAnd(a, Pow2(k)) != 0 <==> a >= Pow2(k)
  {
    t := if a >= Pow2(k) then a - Pow2(k) else a;
    ShlOne(k);
    ShlNegate(0, k);
    SplitUnique(a, k, if a >= Pow2(k) then 1 else 0, t);
    AndBit(a, k);
    AndLow(a, k);
  }

  // Or-ing in the implicit bit adds it to the fraction.
  lemma ImplicitJoin(t: nat, s: nat)
    ensures BitOr(BitAnd(t, Pow2(s) - 1), Pow2(s)) == Pow2(s) + Low(t, s)
  {
    AndLow(t, s);
    Split(t, s);
    OrSwap(Low(t, s), Pow2(s));
    ShlOne(s);
    SplitUnique(Pow2(s), s, 1, 0);
    OrDisjoint(Pow2(s), Low(t, s), s);
  }

  lemma {:induction false} OrSwap(a: nat, b: nat)
    ensures BitOr(a, b) == BitOr(b, a)
    decreases a + b
  {
    if a != 0 || b != 0 {
      OrSwap(a / 2, b / 2);
    }
  }

  // What a conversion needs of a format and an integer width.
  predicate Suits(f: Format, w: nat) {
    && 0 < ExponentBias(f) && MaxExponent(f) == 2 * ExponentBias(f) + 1
    && 1 <= f.significandBits && f.significandBits + 1 < w <= ExponentBias(f) + 1
    && UnitBits(f) >= 0
  }

  lemma Int128Suits(f: Format)
    requires Supported(f)
    ensures Suits(f, 128)
  {
    FormatConstants(f);
  }

  // ----- the integer part of the magnitude -----

  // For a value of at least one, the two shifts of the sources are one truncation.
  lemma ShiftsTruncate(f: Format, a: nat)
    requires IsRep(f, a) && UnitBits(f) >= 0
    requires ExponentBias(f) > 0 && BiasedExponent(f, a) >= ExponentBias(f)
    ensures var e, s := BiasedExponent(f, a) - ExponentBias(f), f.significandBits;
            var m := ImplicitBit(f) + Fraction(f, a);
            Shr(Magnitude(f, a), UnitBits(f)) == if e < s then Shr(m, s - e) else Shl(m, e - s)
  {
    var e, s, u := BiasedExponent(f, a) - ExponentBias(f), f.significandBits, UnitBits(f);
    var m := ImplicitBit(f) + Fraction(f, a);
    var g := Magnitude(f, a);
    assert g == Shl(m, u - s + e);
    if e < s {
      var k := u - s + e;
      SplitUnique(g, k, m, 0);
      ShrShr(g, k, s - e);
    } else {
      ShlShl(m, e - s, u);
      SplitUnique(g, u, Shl(m, e - s), 0);
    }
  }

  // The integer part of a number in the binade from 2^(e + u) lies between powers of two.
  lemma IntegerPartBounds(g: nat, e: nat, u: nat)
    requires Pow2(e + u) <= g < Pow2(e + 1 + u)
    ensures Pow2(e) <= Shr(g, u) < Pow2(e + 1)
  {
    var n := Shr(g, u);
    Split(g, u);
    ShlPow2(e, u);
    ShlPow2(e + 1, u);
    ShlOrder(n, Pow2(e + 1), u);
    ShlOrder(Pow2(e), n + 1, u);
    ShlAdd(n, 1, u);
    ShlOne(u);
  }

  // Below one, truncation gives zero.
  lemma SmallTruncates(f: Format, a: nat)
    requires IsRep(f, a) && UnitBits(f) >= 0
    requires ExponentBias(f) > 0 && BiasedExponent(f, a) < ExponentBias(f)
    ensures Shr(Magnitude(f, a), UnitBits(f)) == 0
  {
    Binade(f, a);
    var e, s := BiasedExponent(f, a), f.significandBits;
    Pow2Monotone(if e == 0 then s else s + e, UnitBits(f));
    LowSmall(Magnitude(f, a), UnitBits(f));
  }

  // The integer part, by exponent.
  lemma IntegerPart(f: Format, w: nat, a: nat)
    requires Suits(f, w) && IsRep(f, a)
    ensures var n, e := Shr(Magnitude(f, a), UnitBits(f)), Exponent(f, a);
            && (e < 0 ==> n == 0)
            && (0 <= e < f.significandBits ==> n == Shr(FullSignificand(f, a), f.significandBits - e))
            && (f.significandBits <= e ==> n == Shl(FullSignificand(f, a), e - f.significandBits))
            && (0 <= e < w - 1 ==> n < Pow2(w - 1))
            && (e == w - 1 ==> Pow2(w - 1) <= n < Pow2(w))
            && (e >= w ==> Pow2(w) <= n)
  {
    Locals(f, a);
    var e := Exponent(f, a);
    if e < 0 {
      SmallTruncates(f, a);
    } else {
      ShiftsTruncate(f, a);
      Binade(f, a);
      assert f.significandBits + BiasedExponent(f, a) == e + 1 + UnitBits(f);
      IntegerPartBounds(Magnitude(f, a), e, UnitBits(f));
      if e < w - 1 {
        Pow2Monotone(e + 1, w - 1);
      } else if e >= w {
        Pow2Monotone(w, e);
      }
    }
  }

  // ----- unsigned conversions -----

  // Every finite pattern converts to its value rounded toward zero, brought into range.
  // Infinities and NaNs go to the end of the range on the side of their sign bit.
  lemma FixUnsignedIsClampedTruncation(f: Format, w: nat, a: nat)
    requires Suits(f, w) && IsRep(f, a)
    ensures Finite(f, a) ==> FixUnsigned(f, w, a) == Clamp(Truncate(f, a), 0, UnsignedMax(w))
    ensures !Finite(f, a) ==> FixUnsigned(f, w, a) == if Negative(f, a) then 0 else UnsignedMax(w)
  {
    Locals(f, a);
    IntegerPart(f, w, a);
    var e, s := Exponent(f, a), f.significandBits;
    if s <= e < w {
      Pow2Monotone(w - 1, w);
      LowSmall(Shl(FullSignificand(f, a), e - s), w);
    }
  }

  // ----- signed conversions -----

  lemma WrapInRange(x: int, w: nat)
    requires w >= 1 && 0 - Pow2(w) < x < Pow2(w)
    ensures WrapSigned(x, w) == if x > SignedMax(w) then x - Pow2(w) else if x < SignedMin(w) then x + Pow2(w) else x
  {
    if x >= 0 {
      LowSmall(x, w);
    } else {
      LowSmall(-x, w);
      LowSmall(Pow2(w) + x, w);
    }
  }

  // Wrapping the magnitude before the sign is applied changes nothing.
  lemma WrapTwice(sign: int, n: nat, w: nat)
    requires w >= 1 && n < Pow2(w)
    ensures WrapSigned(Times(sign, WrapSigned(n, w)), w) == WrapSigned(Times(sign, n), w)
  {
    WrapInRange(n, w);
    WrapInRange(Times(sign, n), w);
    WrapInRange(Times(sign, WrapSigned(n, w)), w);
  }

  // Through exponent w - 1 the signed result is the truncated value modulo 2^w.
  lemma FixSignedIsWrappedTruncation(f: Format, w: nat, a: nat)
    requires Suits(f, w) && IsRep(f, a) && Exponent(f, a) < w
    ensures FixSigned(f, w, a) == WrapSigned(Truncate(f, a), w)
  {
    Locals(f, a);
    IntegerPart(f, w, a);
    var n := Shr(Magnitude(f, a), UnitBits(f));
    assert Truncate(f, a) == Times(Sign(f, a), n);
    Pow2Monotone(w - 1, w);
    if Exponent(f, a) < f.significandBits {
      WrapInRange(Times(Sign(f, a), n), w);
    } else {
      WrapTwice(Sign(f, a), n, w);
    }
  }

  lemma WrapVersusClamp(sign: int, n: nat, w: nat)
    requires w >= 1 && n < Pow2(w)
    ensures WrapSigned(Times(sign, n), w) == Clamp(Times(sign, n), SignedMin(w), SignedMax(w))
       <==> (n < Pow2(w - 1) || (sign != 1 && n == Pow2(w - 1)))
  {
    WrapInRange(Times(sign, n), w);
  }

  // In the top binade the integer part is 2^(w - 1) exactly when the fraction is zero.
  lemma TopBinade(f: Format, w: nat, a: nat)
    requires Suits(f, w) && IsRep(f, a) && Exponent(f, a) == w - 1
    ensures Shr(Magnitude(f, a), UnitBits(f)) == Pow2(w - 1) <==> Fraction(f, a) == 0
  {
    Locals(f, a);
    IntegerPart(f, w, a);
    var s := f.significandBits;
    ShlPow2(s, w - 1 - s);
    ShlOrder(Pow2(s), FullSignificand(f, a), w - 1 - s);
  }

  // Truncation with saturation is what the signed conversions compute on every finite
  // pattern except those of exponent w - 1, where only -2^(w - 1) itself comes out right.
  lemma FixSignedIsClampedTruncation(f: Format, w: nat, a: nat)
    requires Suits(f, w) && Finite(f, a)
    ensures FixSigned(f, w, a) == Clamp(Truncate(f, a), SignedMin(w), SignedMax(w))
       <==> (Exponent(f, a) != w - 1 || (Negative(f, a) && Fraction(f, a) == 0))
  {
    Locals(f, a);
    IntegerPart(f, w, a);
    var n := Shr(Magnitude(f, a), UnitBits(f));
    assert Truncate(f, a) == Times(Sign(f, a), n);
    Pow2Monotone(w - 1, w);
    if Exponent(f, a) < w {
      FixSignedIsWrappedTruncation(f, w, a);
      WrapVersusClamp(Sign(f, a), n, w);
      if Exponent(f, a) == w - 1 {
        TopBinade(f, w, a);
      }
    }
  }

  // Infinities and NaNs go to the signed extreme on the side of their sign bit.
  lemma FixSignedNonFinite(f: Format, w: nat, a: nat)
    requires Suits(f, w) && IsRep(f, a) && !Finite(f, a)
    ensures FixSigned(f, w, a) == if Negative(f, a) then SignedMin(w) else SignedMax(w)
  {
    Locals(f, a);
  }

  // ----- format independence -----

  // The two patterns denote the same number: Value / 2^UnitBits on each side.
  predicate SameNumber(f: Format, a: nat, g: Format, b: nat)
    requires UnitBits(f) >= 0 && UnitBits(g) >= 0
  {
    Shl(Value(f, a), UnitBits(g)) == Shl(Value(g, b), UnitBits(f))
  }

  lemma SameNumberTruncatesAlike(f: Format, a: nat, g: Format, b: nat)
    requires UnitBits(f) >= 0 && UnitBits(g) >= 0 && SameNumber(f, a, g, b)
    ensures Truncate(f, a) == Truncate(g, b)
  {
    var j, k := UnitBits(f), UnitBits(g);
    var x, y := Magnitude(f, a), Magnitude(g, b);
    ShlNegate(x, k);
    ShlNegate(y, j);
    ShlNegate(0, j);
    ShlNegate(0, k);
    ShlOrder(0, x, k);
    ShlOrder(0, y, j);
    assert Shl(x, k) == Shl(y, j);
    ShlNat(x, k);
    SplitUnique(Shl(x, k), k, x, 0);
    SplitUnique(Shl(y, j), j, y, 0);
    ShrShr(Shl(x, k), k, j);
    ShrShr(Shl(y, j), j, k);
    LowSmall(0, j);
    LowSmall(0, k);
  }

  // Patterns of different formats denoting the same number convert alike, including in the
  // binade where the signed result has wrapped.
  lemma FormatIndependence(f: Format, a: nat, g: Format, b: nat, w: nat)
    requires Suits(f, w) && Suits(g, w) && Finite(f, a) && Finite(g, b)
    requires SameNumber(f, a, g, b)
    ensures FixUnsigned(f, w, a) == FixUnsigned(g, w, b)
    ensures FixSigned(f, w, a) == FixSigned(g, w, b)
  {
    SameNumberTruncatesAlike(f, a, g, b);
    FixUnsignedIsClampedTruncation(f, w, a);
    FixUnsignedIsClampedTruncation(g, w, b);
    WrapsWhenSmall(f, w, a);
    WrapsWhenSmall(g, w, b);
    if Exponent(f, a) < w {
      FixSignedIsWrappedTruncation(f, w, a);
      FixSignedIsWrappedTruncation(g, w, b);
    } else {
      FixSignedIsClampedTruncation(f, w, a);
      FixSignedIsClampedTruncation(g, w, b);
    }
  }

  // Which branch a conversion takes depends only on the integer it denotes.
  lemma WrapsWhenSmall(f: Format, w: nat, a: nat)
    requires Suits(f, w) && IsRep(f, a)
    ensures Exponent(f, a) < w <==> 0 - Pow2(w) < Truncate(f, a) < Pow2(w)
  {
    IntegerPart(f, w, a);
    Pow2Monotone(w - 1, w);
  }
}
