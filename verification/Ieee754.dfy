/**
 Binary interchange formats of IEEE 754-2008, section 3.4: the fields of a bit
 pattern and the number that a finite pattern denotes.

 Every finite value of a format is a whole multiple of its least subnormal, so a
 value is held as that multiple: the pattern denotes Magnitude / 2^UnitBits, negated
 when the sign bit is set. The integer n is n * 2^UnitBits on the same scale.
 */
module Ieee754 {
  import opened Bits

  // The widths of the trailing significand and of the biased exponent.
  datatype Format = Format(significandBits: nat, exponentBits: nat)

  const BINARY32 := Format(23, 8)
  const BINARY64 := Format(52, 11)
  const BINARY128 := Format(112, 15)

  predicate Supported(f: Format) {
    f == BINARY32 || f == BINARY64 || f == BINARY128
  }

  function MaxExponent(f: Format): nat {
    Pow2(f.exponentBits) - 1
  }

  function ExponentBias(f: Format): nat {
    MaxExponent(f) / 2
  }

  function ImplicitBit(f: Format): nat {
    Pow2(f.significandBits)
  }

  function SignBit(f: Format): nat {
    Pow2(f.significandBits + f.exponentBits)
  }

  predicate IsRep(f: Format, rep: nat) {
    rep < 2 * SignBit(f)
  }

  predicate Negative(f: Format, rep: nat) {
    rep >= SignBit(f)
  }

  function BiasedExponent(f: Format, rep: nat): nat {
    Low(Shr(rep, f.significandBits), f.exponentBits)
  }

  function Fraction(f: Format, rep: nat): nat {
    Low(rep, f.significandBits)
  }

  predicate Finite(f: Format, rep: nat) {
    IsRep(f, rep) && BiasedExponent(f, rep) != MaxExponent(f)
  }

  // Subnormals have no implicit bit.
  function Significand(f: Format, rep: nat): nat {
    Fraction(f, rep) + if BiasedExponent(f, rep) == 0 then 0 else ImplicitBit(f)
  }

  // Subnormals share the exponent of the first binade of normal numbers.
  function Scale(f: Format, rep: nat): nat {
    if BiasedExponent(f, rep) == 0 then 0 else BiasedExponent(f, rep) - 1
  }

  function Magnitude(f: Format, rep: nat): nat {
    ShlNat(Significand(f, rep), Scale(f, rep));
    Shl(Significand(f, rep), Scale(f, rep))
  }

  function Value(f: Format, rep: nat): int {
    var m: int := Magnitude(f, rep);
    if Negative(f, rep) then -m else m
  }

  // The least subnormal is 2^-UnitBits.
  function UnitBits(f: Format): int {
    ExponentBias(f) - 1 + f.significandBits
  }

  // Rounding a value toward zero to an integer, section 4.3.2.
  function Truncate(f: Format, rep: nat): int
    requires UnitBits(f) >= 0
  {
    var n: int := Shr(Magnitude(f, rep), UnitBits(f));
    if Negative(f, rep) then -n else n
  }

  function Clamp(x: int, lo: int, hi: int): int {
    if x < lo then lo else if x > hi then hi else x
  }

  lemma FormatConstants(f: Format)
    requires Supported(f)
    ensures f == BINARY32 ==> ExponentBias(f) == 127
    ensures f == BINARY64 ==> ExponentBias(f) == 1023
    ensures f == BINARY128 ==> ExponentBias(f) == 16383
    ensures MaxExponent(f) == 2 * ExponentBias(f) + 1
  {
    assert Pow2(8) == 256;
    assert Pow2(11) == 2048;
    assert Pow2(15) == 32768;
  }

  // ----- fields -----

  // A pattern is the sum of its fields, and each field is within its width.
  lemma FieldBounds(f: Format, rep: nat)
    requires IsRep(f, rep)
    ensures BiasedExponent(f, rep) <= MaxExponent(f)
    ensures Fraction(f, rep) < ImplicitBit(f)
    ensures rep == (if Negative(f, rep) then SignBit(f) else 0) +
                   Shl(BiasedExponent(f, rep), f.significandBits) + Fraction(f, rep)
  {
    var s, x := f.significandBits, f.exponentBits;
    Split(rep, s);
    Split(Shr(rep, s), x);
    LowLow(rep, s, x);
    var h := if Negative(f, rep) then 1 else 0;
    ShlOne(s + x);
    ShlNegate(0, s + x);
    SplitUnique(rep, s + x, h, if Negative(f, rep) then rep - SignBit(f) else rep);
  }

  // Conversely, fields within their widths are packed without overlap.
  lemma Pack(f: Format, negative: bool, e: nat, m: nat)
    requires e <= MaxExponent(f) && m < ImplicitBit(f)
    ensures var rep := (if negative then SignBit(f) else 0) + Shl(e, f.significandBits) + m;
            && rep >= 0
            && IsRep(f, rep) && Negative(f, rep) == negative
            && BiasedExponent(f, rep) == e && Fraction(f, rep) == m
  {
    var s, x := f.significandBits, f.exponentBits;
    ShlNat(e, s);
    ShlPow2(x, s);
    var t := if negative then Pow2(x) + e else e;
    ShlAdd(Pow2(x), e, s);
    SplitUnique(Shl(t, s) + m, s, t, m);
    ShlOne(x);
    ShlNegate(0, x);
    SplitUnique(t, x, if negative then 1 else 0, e);
    ShlAdd(e, 1, s);
    ShlOne(s);
    ShlOrder(Pow2(x), e + 1, s);
  }

  // A normal number lies in the binade its exponent names; a subnormal below the first.
  lemma Binade(f: Format, rep: nat)
    requires IsRep(f, rep)
    ensures var e, s := BiasedExponent(f, rep), f.significandBits;
            && (e == 0 ==> Magnitude(f, rep) < Pow2(s))
            && (e > 0 ==> Pow2(s + e - 1) <= Magnitude(f, rep) < Pow2(s + e))
  {
    FieldBounds(f, rep);
    var e, s := BiasedExponent(f, rep), f.significandBits;
    if e > 0 {
      ShlPow2(s, e - 1);
      ShlPow2(s + 1, e - 1);
      ShlOrder(Significand(f, rep), Pow2(s), e - 1);
      ShlOrder(Significand(f, rep), Pow2(s + 1), e - 1);
    }
  }

  // Equal magnitudes come from equal fields.
  lemma MagnitudeInjective(f: Format, r: nat, d: nat)
    requires IsRep(f, r) && IsRep(f, d)
    requires Magnitude(f, r) == Magnitude(f, d)
    ensures BiasedExponent(f, r) == BiasedExponent(f, d) && Fraction(f, r) == Fraction(f, d)
  {
    Binade(f, r);
    Binade(f, d);
    var e, e', s := BiasedExponent(f, r), BiasedExponent(f, d), f.significandBits;
    if e < e' {
      Pow2Monotone(s + e, s + e' - 1);
    } else if e' < e {
      Pow2Monotone(s + e', s + e - 1);
    } else {
      ShlOrder(Significand(f, r), Significand(f, d), Scale(f, r));
    }
  }

  // A pattern with a clear sign bit is determined by the number it denotes.
  lemma ValueInjective(f: Format, r: nat, d: nat)
    requires IsRep(f, r) && IsRep(f, d) && !Negative(f, r) && !Negative(f, d)
    requires Value(f, r) == Value(f, d)
    ensures r == d
  {
    MagnitudeInjective(f, r, d);
    FieldBounds(f, r);
    FieldBounds(f, d);
  }
}
