/**
 The conversions from a 128-bit integer to binary64: leading-zero normalisation, a
 sticky bit, rounding by an increment, carry renormalisation and packing into two
 32-bit words. Both methods are proved to return the pattern of Rounding.FloatBits.
 */
module FloatFromInt {
  import opened Bits
  import opened Ieee754
  import opened Rounding

  // Bits in ti_int and tu_int; DBL_MANT_DIG is BINARY64.significandBits + 1.
  const N: nat := 128

  // ----- counting leading zeros -----

  // __builtin_clzll, for words of a given width.
  function Clz(x: nat, width: nat): int {
    width - BitLength(x)
  }

  // The word __clzti2 counts in: the high half of a, or the low half when that is zero.
  function ClzWord(a: nat, half: nat): nat {
    var high, low := Shr(a, half), Low(a, half);
    var f := if high == 0 then Pow2(half) - 1 else 0;
    BitOr(BitAnd(high, Pow2(half) - 1 - f), BitAnd(low, f))
  }

  // __clzti2, for words of twice half bits. The flag is 32 bits wide.
  function ClzTi2(a: nat, half: nat): int {
    var f := if Shr(a, half) == 0 then 0xFFFF_FFFF else 0;
    Clz(ClzWord(a, half), half) + BitAnd(f, half)
  }

  lemma FlagMask(zero: bool)
    ensures BitAnd(if zero then 0xFFFF_FFFF else 0, 64) == if zero then 64 else 0
  {
    assert BitAnd(0xFFFF_FFFF, 64) == 64;
  }

  lemma BitLengthAtMost(x: nat, k: nat)
    requires x < Pow2(k)
    ensures BitLength(x) <= k
  {
    if x > 0 {
      BitLengthBounds(x);
      if BitLength(x) > k {
        Pow2Monotone(k, BitLength(x) - 1);
      }
    }
  }

  // Masking with all ones or nothing and joining picks one of two words.
  lemma SelectWord(high: nat, low: nat, k: nat)
    requires high < Pow2(k) && low < Pow2(k)
    ensures var f := if high == 0 then Pow2(k) - 1 else 0;
            BitOr(BitAnd(high, Pow2(k) - 1 - f), BitAnd(low, f)) == if high == 0 then low else high
  {
    if high == 0 {
      AndLow(low, k);
      LowSmall(low, k);
      OrZeroLeft(low);
    } else {
      AndLow(high, k);
      LowSmall(high, k);
      OrZero(high);
    }
  }

  lemma ClzWordSelects(a: nat, half: nat)
    requires 0 < a < Pow2(half + half)
    ensures ClzWord(a, half) == (if Shr(a, half) == 0 then a else Shr(a, half))
    ensures 0 < ClzWord(a, half) < Pow2(half)
  {
    Split(a, half);
    ShlPow2(half, half);
    ShlOrder(Shr(a, half), Pow2(half), half);
    ShlNegate(0, half);
    SelectWord(Shr(a, half), Low(a, half), half);
  }

  lemma {:induction false} OrZeroLeft(a: nat)
    ensures BitOr(0, a) == a
  {
    if a > 0 {
      OrZeroLeft(a / 2);
    }
  }

  lemma {:induction false} BitLengthShr(a: nat, k: nat)
    requires Shr(a, k) > 0
    ensures BitLength(a) == BitLength(Shr(a, k)) + k
    decreases k
  {
    if k > 0 {
      BitLengthShr(a / 2, k - 1);
      if a == 0 {
        LowSmall(0, k);
      }
    }
  }

  lemma ClzTi2Counts(a: nat, half: nat)
    requires 0 < a < Pow2(half + half)
    requires BitAnd(if Shr(a, half) == 0 then 0xFFFF_FFFF else 0, half) == if Shr(a, half) == 0 then half else 0
    ensures ClzTi2(a, half) == half + half - BitLength(a) && BitLength(a) <= half + half
  {
    ClzWordSelects(a, half);
    BitLengthAtMost(a, half + half);
    if Shr(a, half) != 0 {
      BitLengthShr(a, half);
    }
  }

  // sd = N - __clzti2(a) is the number of significant digits, as the sources say it is.
  method SignificantDigits(a: nat) returns (sd: nat)
    requires 0 < a < Pow2(64 + 64)
    ensures sd == BitLength(a) <= N
  {
    FlagMask(Shr(a, 64) == 0);
    ClzTi2Counts(a, 64);
    sd := N - ClzTi2(a, 64);
  }

  // ----- rounding -----

  // The three statements after the switch: P into R, increment, drop Q and R.
  function Finish(a: nat): nat {
    Shr(BitOr(a, if BitAnd(a, 4) != 0 then 1 else 0) + 1, 2)
  }

  lemma ShrTwo(x: nat)
    ensures Shr(x, 2) == x / 4
  {
    assert Shr(x / 2, 1) == x / 2 / 2;
  }

  lemma FinishRounds(y: nat, sticky: bool)
    ensures var up := y % 4 == 3 || (y % 4 == 2 && (sticky || y / 4 % 2 == 1));
            Finish(BitOr(y, if sticky then 1 else 0)) == y / 4 + if up then 1 else 0
  {
    OrFlag(y, sticky);
    var x := BitOr(y, if sticky then 1 else 0);
    assert x / 4 == y / 4;
    AndBit(x, 2);
    assert Pow2(2) == 4;
    ShrTwo(x);
    OrFlag(x, BitAnd(x, 4) != 0);
    ShrTwo(BitOr(x, if BitAnd(x, 4) != 0 then 1 else 0) + 1);
  }

  // t quarters of a last place, for the two bits t that are kept.
  lemma QuarterBits(y: nat, k: nat)
    ensures Shr(y, 2) == y / 4 && Low(y, 2) == y % 4
    ensures Pow2(k + 2) == 4 * Pow2(k)
    ensures Shl(Low(y, 2), k) ==
            if y % 4 == 0 then 0 else if y % 4 == 1 then Pow2(k) else if y % 4 == 2 then 2 * Pow2(k) else 3 * Pow2(k)
  {
    ShrTwo(y);
    assert Low(y / 2 / 2, 0) == 0 && Low(y / 2, 1) == y / 2 % 2;
    assert Low(y, 2) == 2 * (y / 2 % 2) + y % 2 == y % 4;
    ShlNegate(0, k);
    ShlOne(k);
    ShlAdd(1, 1, k);
    ShlAdd(2, 1, k);
  }

  // What is cut off, from the two bits kept below the last place and the rest.
  lemma CutOff(a: nat, k: nat)
    requires k >= 2
    ensures var y, p, low := Shr(a, k - 2), Pow2(k - 2), Low(a, k - 2);
            && Shr(a, k) == y / 4 && Pow2(k) == 4 * p && low < p
            && Low(a, k) ==
                 low + if y % 4 == 0 then 0 else if y % 4 == 1 then p else if y % 4 == 2 then 2 * p else 3 * p
  {
    var y := Shr(a, k - 2);
    ShrShr(a, k - 2, 2);
    LowLow(a, k - 2, 2);
    Split(a, k - 2);
    QuarterBits(y, k - 2);
  }

  // With two bits kept below the last place and the rest folded into a sticky bit, that is
  // rounding to nearest, ties to even.
  lemma StickyRoundsToEven(a: nat, k: nat)
    requires k >= 2
    ensures Finish(BitOr(Shr(a, k - 2), if Low(a, k - 2) != 0 then 1 else 0)) == RoundTiesToEven(a, k)
  {
    FinishRounds(Shr(a, k - 2), Low(a, k - 2) != 0);
    CutOff(a, k);
  }

  // With one bit below the last place a zero is shifted in first.
  lemma ShiftedRoundsToEven(a: nat)
    ensures Finish(2 * a) == RoundTiesToEven(a, 1)
  {
    FinishRounds(2 * a, false);
    OrZero(2 * a);
    LastBit(a);
  }

  lemma LastBit(a: nat)
    ensures Shr(a, 1) == a / 2 && Low(a, 1) == a % 2
  {
    assert Shr(a / 2, 0) == a / 2;
    assert Low(a / 2, 0) == 0;
  }

  // After the switch the word has bits to spare, so the increment cannot overflow it.
  lemma IncrementFits(x: nat, k: nat, n: nat)
    requires x < Pow2(k) && k + 2 <= n
    ensures var y := BitOr(x, if BitAnd(x, 4) != 0 then 1 else 0) + 1;
            Low(y, n) == y
  {
    OrFlag(x, BitAnd(x, 4) != 0);
    Pow2Monotone(k + 2, n);
    LowSmall(BitOr(x, if BitAnd(x, 4) != 0 then 1 else 0) + 1, n);
  }

  // Testing bit p finds the carry.
  lemma CarryTest(m: nat, p: nat, n: nat)
    requires m <= Pow2(p) && 0 < p < n
    ensures BitAnd(m, ShlWord(1, p, n)) != 0 <==> m == Pow2(p)
    ensures m == Pow2(p) ==> Shr(m, 1) == Pow2(p - 1)
  {
    ShlOne(p);
    Pow2Monotone(p, n);
    LowSmall(Pow2(p), n);
    AndBit(m, p);
    if m == Pow2(p) {
      SplitUnique(m, p, 1, 0);
      assert Shr(m, 1) == m / 2;
    } else {
      LowSmall(m, p);
    }
  }

  // A shift that stays within the word loses nothing.
  lemma ShiftFits(a: nat, k: nat, n: nat)
    requires BitLength(a) + k <= n
    ensures ShlWord(a, k, n) == Shl(a, k)
  {
    ShlNat(a, k);
    if a == 0 {
      ShlNegate(0, k);
    } else {
      ShlToLength(a, BitLength(a) + k);
      Pow2Monotone(BitLength(a) + k, n);
    }
    LowSmall(Shl(a, k), n);
  }

  // The mask of the default case keeps the k bits shifted out.
  lemma StickyMask(a: nat, k: nat, n: nat)
    requires k <= n
    ensures BitAnd(a, Shr(Pow2(n) - 1, n - k)) == Low(a, k)
  {
    OnesSplit(n, n - k);
    AndLow(a, k);
  }

  lemma FlagFits(y: nat, flag: bool, k: nat)
    requires k >= 1 && y < Pow2(k)
    ensures BitOr(y, if flag then 1 else 0) < Pow2(k)
  {
    var p := Pow2(k - 1);
    assert y / 2 < p;
    OrFlag(y, flag);
    if flag && y % 2 == 0 {
      assert BitOr(y, 1) == 2 * (y / 2) + 1;
    }
  }

  // What the three cases of the switch leave for the lines after it.
  lemma SwitchOne(f: Format, a: nat, n: nat)
    requires BitLength(a) == f.significandBits + 2 < n
    ensures ShlWord(a, 1, n) < Pow2(f.significandBits + 3)
    ensures Finish(ShlWord(a, 1, n)) == RoundedSignificand(f, a)
  {
    ShiftFits(a, 1, n);
    assert Shl(a, 1) == 2 * a;
    ShiftedRoundsToEven(a);
    BitLengthBounds(a);
  }

  lemma SwitchTwo(f: Format, a: nat)
    requires BitLength(a) == f.significandBits + 3
    ensures a < Pow2(f.significandBits + 3)
    ensures Finish(a) == RoundedSignificand(f, a)
  {
    StickyRoundsToEven(a, 2);
    OrZero(a);
    BitLengthBounds(a);
  }

  lemma SwitchDefault(f: Format, a: nat, k: nat, n: nat)
    requires k == BitLength(a) - f.significandBits - 3 && BitLength(a) <= n
    ensures var x := BitOr(Shr(a, k), if BitAnd(a, Shr(Pow2(n) - 1, n - k)) != 0 then 1 else 0);
            x < Pow2(f.significandBits + 3) && Finish(x) == RoundedSignificand(f, a)
  {
    StickyMask(a, k, n);
    StickyRoundsToEven(a, k + 2);
    assert RoundedSignificand(f, a) == RoundTiesToEven(a, k + 2);
    ShrOfLength(a, k);
    FlagFits(Shr(a, k), Low(a, k) != 0, f.significandBits + 3);
  }

  // The switch, for an argument of sd > mantDig significant digits: the leading mantDig
  // bits followed by Q and R.
  method KeepTwoExtraBits(f: Format, arg: nat, sd: nat, n: nat) returns (a: nat)
    requires f.significandBits + 3 < n
    requires 0 < arg && sd == BitLength(arg) && f.significandBits + 1 < sd <= n
    ensures a < Pow2(f.significandBits + 3)
    ensures Finish(a) == RoundedSignificand(f, arg)
  {
    var mantDig := f.significandBits + 1;
    if sd == mantDig + 1 {
      SwitchOne(f, arg, n);
      a := ShlWord(arg, 1, n);
    } else if sd == mantDig + 2 {
      SwitchTwo(f, arg);
      a := arg;
    } else {
      SwitchDefault(f, arg, sd - (mantDig + 2), n);
      a := BitOr(Shr(arg, sd - (mantDig + 2)),
                 if BitAnd(arg, Shr(Pow2(n) - 1, n + mantDig + 2 - sd)) != 0 then 1 else 0);
    }
  }

  // After the switch: round, and move a carry out of the significand into the exponent.
  method RoundAndCarry(mantDig: nat, n: nat, x: nat, exponent: int) returns (a: nat, e: int)
    requires 0 < mantDig && mantDig + 4 <= n
    requires x < Pow2(mantDig + 2) && Finish(x) <= Pow2(mantDig)
    ensures Finish(x) == Pow2(mantDig) ==> a == Pow2(mantDig - 1) && e == exponent + 1
    ensures Finish(x) < Pow2(mantDig) ==> a == Finish(x) && e == exponent
  {
    IncrementFits(x, mantDig + 2, n);
    a := BitOr(x, if BitAnd(x, 4) != 0 then 1 else 0);
    a := Low(a + 1, n);
    a := Shr(a, 2);
    e := exponent;
    CarryTest(a, mantDig, n);
    if BitAnd(a, ShlWord(1, mantDig, n)) != 0 {
      a := Shr(a, 1);
      e := e + 1;
    }
  }

  // A significand with its leading one in place, and the exponent that goes with it.
  ghost predicate Normalised(f: Format, arg: nat, a: nat, e: int) {
    var m, s := RoundedSignificand(f, arg), f.significandBits;
    && Pow2(s) <= a < Pow2(s + 1)
    && (if m == Pow2(s + 1) then a == Pow2(s) && e == BitLength(arg) else a == m && e == BitLength(arg) - 1)
  }

  // The lines shared by the two conversions: a reduced to mantDig significant bits and
  // the exponent of the result.
  method Normalise(f: Format, arg: nat, sd: nat, n: nat) returns (a: nat, e: int)
    requires f.significandBits + 5 <= n && 0 < arg && sd == BitLength(arg) <= n
    ensures Normalised(f, arg, a, e)
  {
    var mantDig := f.significandBits + 1;
    SignificandBounds(f, arg);
    if sd > mantDig {
      a := KeepTwoExtraBits(f, arg, sd, n);
      a, e := RoundAndCarry(mantDig, n, a, sd - 1);
    } else {
      a := ShlWord(arg, mantDig - sd, n);
      e := sd - 1;
      ShiftFits(arg, mantDig - sd, n);
    }
  }

  // ----- packing -----

  // A sign bit at w and an exponent below it do not overlap.
  lemma SignAndExponent(s: nat, x: nat, w: nat)
    requires (s == 0 || s == Pow2(w)) && x < Pow2(w)
    ensures BitOr(s, x) == s + x
  {
    if s == 0 {
      OrZeroLeft(x);
    } else {
      ShlOne(w);
      SplitUnique(s, w, 1, 0);
      OrDisjoint(s, x, w);
    }
  }

  // Nor does a fraction below bit j overlap what lies above it.
  lemma AboveBit(t: nat, m: nat, j: nat)
    ensures Shl(t, j) >= 0 && BitOr(Shl(t, j), BitAnd(m, Pow2(j) - 1)) == Shl(t, j) + Low(m, j)
  {
    ShlNat(t, j);
    AndLow(m, j);
    Split(m, j);
    SplitUnique(Shl(t, j), j, t, 0);
    OrDisjoint(Shl(t, j), Low(m, j), j);
  }

  lemma SignShift(s: nat, e: nat, j: nat, w: nat) returns (t: nat)
    requires (s == 0 || s == Pow2(w)) && j <= w
    ensures s + Shl(e, j) == Shl(t, j)
  {
    ShlPow2(w - j, j);
    ShlAdd(Pow2(w - j), e, j);
    t := if s == 0 then e else Pow2(w - j) + e;
  }

  lemma HighWord(s: nat, e: nat, m: nat, j: nat, w: nat)
    requires (s == 0 || s == Pow2(w)) && 0 <= Shl(e, j) < Pow2(w) && j <= w
    ensures BitOr(BitOr(s, Shl(e, j)), BitAnd(m, Pow2(j) - 1)) == s + Shl(e, j) + Low(m, j)
  {
    SignAndExponent(s, Shl(e, j), w);
    var t := SignShift(s, e, j, w);
    AboveBit(t, m, j);
  }

  // Joining a high word with the low word of a, whose leading one is at c + j.
  lemma JoinWords(s: nat, e: nat, a: nat, j: nat, c: nat)
    requires Pow2(c + j) <= a < 2 * Pow2(c + j)
    ensures Shl(s + Shl(e, j) + Low(Shr(a, c), j), c) + Low(a, c) == Shl(s, c) + Shl(e, j + c) + a - Pow2(c + j)
  {
    ShlShl(e, j, c);
    ShlAdd(s, Shl(e, j), c);
    ShlAdd(s + Shl(e, j), Low(Shr(a, c), j), c);
    LowLow(a, c, j);
    ShlOne(c + j);
    SplitUnique(a, c + j, 1, a - Pow2(c + j));
  }

  lemma LowOfLow(a: nat, j: nat, k: nat)
    requires j <= k
    ensures Low(Low(a, k), j) == Low(a, j)
  {
    LowLow(a, j, k - j);
    Split(a, j);
    SplitUnique(Low(a, k), j, Low(Shr(a, j), k - j), Low(a, j));
  }

  lemma {:induction false} PackedFields(sign: nat, e: nat, a: nat, j: nat, c: nat)
    requires j < c && e < Pow2(c - 1 - j) && (sign == 0 || sign == Pow2(c - 1))
    requires Pow2(c + j) <= a < 2 * Pow2(c + j)
    ensures var high := BitOr(BitOr(sign, ShlWord(e, j, c)), BitAnd(Low(Shr(a, c), c), Pow2(j) - 1));
            Shl(high, c) + Low(a, c) == Shl(sign, c) + Shl(e, j + c) + a - Pow2(c + j)
  {
    ShlNat(e, j);
    ShlPow2(c - 1 - j, j);
    ShlOrder(e, Pow2(c - 1 - j), j);
    LowSmall(Shl(e, j), c);
    HighWord(sign, e, Low(Shr(a, c), c), j, c - 1);
    LowOfLow(Shr(a, c), j, c);
    JoinWords(sign, e, a, j, c);
  }

  // Packing a normalised significand with its biased exponent gives FloatBits.
  lemma NormalisedBits(f: Format, arg: nat, a: nat, e: int)
    requires 0 < arg && ExponentBias(f) >= 1 && Normalised(f, arg, a, e)
    ensures e >= 0
    ensures FloatBits(f, arg) == Shl(e + ExponentBias(f), f.significandBits) + a - Pow2(f.significandBits)
  {
    var s := f.significandBits;
    var x: int := BitLength(arg) + ExponentBias(f);
    ShlOne(s);
    ShlAdd(x - 2, 1, s);
    ShlAdd(x - 1, 1, s);
  }

  // Two words of c bits: sign, biased exponent and the top j bits of the fraction in the
  // high one, the rest of the fraction in the low one.
  method PackWords(ghost f: Format, ghost arg: nat, sign: nat, e: nat, a: nat, j: nat, c: nat) returns (bits: int)
    requires j < c && f.significandBits == j + c && f.exponentBits == c - 1 - j
    requires 0 < arg && InRange(f, arg) && Normalised(f, arg, a, e - ExponentBias(f))
    requires sign == 0 || sign == Pow2(c - 1)
    ensures bits == Shl(sign, c) + FloatBits(f, arg)
  {
    PackedFields(sign, e, a, j, c);
    NormalisedBits(f, arg, a, e - ExponentBias(f));
    var high := BitOr(BitOr(sign, ShlWord(e, j, c)), BitAnd(Low(Shr(a, c), c), Pow2(j) - 1));
    var low := Low(a, c);
    bits := Shl(high, c) + low;
  }

  // Everything after the number of significant digits is known.
  method Convert(f: Format, arg: nat, sd: nat, sign: nat, n: nat, bias: nat, j: nat, c: nat) returns (bits: int)
    requires f.significandBits == j + c && f.exponentBits == c - 1 - j && f.significandBits + 5 <= n
    requires 0 < arg && sd == BitLength(arg) <= n && InRange(f, arg) && bias == ExponentBias(f)
    requires sign == 0 || sign == Pow2(c - 1)
    ensures bits == Shl(sign, c) + FloatBits(f, arg)
  {
    var a, e := Normalise(f, arg, sd, n);
    NormalisedBits(f, arg, a, e);
    bits := PackWords(f, arg, sign, e + bias, a, j, c);
  }

  lemma Binary64InRange(a: nat)
    requires BitLength(a) <= N
    ensures InRange(BINARY64, a) && ExponentBias(BINARY64) == 1023
  {
    FormatConstants(BINARY64);
  }

  // Every nonzero integer of N bits becomes a positive normal number.
  lemma AlwaysNormal(a: nat)
    requires 0 < a && BitLength(a) <= N
    ensures Finite(BINARY64, FloatBits(BINARY64, a)) && !Negative(BINARY64, FloatBits(BINARY64, a))
    ensures 1023 <= BiasedExponent(BINARY64, FloatBits(BINARY64, a)) <= 1151
  {
    Binary64InRange(a);
    FloatFields(BINARY64, a);
  }

  // ___floatuntidf
  method FloatUnTiDf(a: nat) returns (bits: nat)
    requires a < Pow2(64 + 64)
    ensures ExponentBias(BINARY64) == 1023
    ensures bits == FloatBits(BINARY64, a)
  {
    BitLengthAtMost(a, 64 + 64);
    Binary64InRange(a);
    if a == 0 {
      return 0;
    }
    var sd := SignificantDigits(a);
    var word := Convert(BINARY64, a, sd, 0, N, 1023, 20, 32);
    ShlNegate(0, 32);
    bits := word;
  }

  // ----- signed -----

  // a >> (N - 1): the sign bit of a, repeated.
  function SignWord(a: int, n: nat): nat {
    if a < 0 then Pow2(n) - 1 else 0
  }

  // (a ^ s) - s in n-bit arithmetic is the absolute value for every a, the least one included.
  method AbsoluteValue(a: int, n: nat) returns (r: nat)
    requires n >= 1 && 0 - Pow2(n - 1) <= a < Pow2(n - 1)
    ensures r == Abs(a) && r < Pow2(n) && BitLength(r) <= n
  {
    var p: nat := if a >= 0 then a else a + Pow2(n);
    var s := SignWord(a, n);
    if a >= 0 {
      XorZero(a);
      ShlOne(n);
      SplitUnique(a + Pow2(n), n, 1, a);
    } else {
      XorOnes(a + Pow2(n), n);
      LowSmall(-a, n);
    }
    BitLengthAtMost(Abs(a), n);
    r := Low(BitXor(p, s) + Pow2(n) - s, n);
  }

  // (uint32_t)s & 0x80000000: testing bit c - 1 of the low c bits of s.
  method SignField(a: int, c: nat, n: nat) returns (sign: nat)
    requires 1 <= c <= n
    ensures sign == if a < 0 then Pow2(c - 1) else 0
  {
    var x := Low(SignWord(a, n), c);
    AndBit(x, c - 1);
    if a < 0 {
      OnesSplit(n, c);
      OnesSplit(c, c - 1);
    } else {
      LowSmall(0, c);
      LowSmall(0, c - 1);
    }
    sign := BitAnd(x, Pow2(c - 1));
  }

  lemma SignPlace(negative: bool)
    ensures Shl(if negative then Pow2(31) else 0, 32) == if negative then SignBit(BINARY64) else 0
  {
    ShlPow2(31, 32);
    ShlNegate(0, 32);
  }

  // ___floattidf
  method FloatTiDf(arg: int) returns (bits: nat)
    requires 0 - Pow2(N - 1) <= arg < Pow2(N - 1)
    ensures ExponentBias(BINARY64) == 1023
    ensures bits == FloatBitsSigned(BINARY64, arg)
  {
    var a := AbsoluteValue(arg, N);
    Binary64InRange(a);
    if arg == 0 {
      return 0;
    }
    var sd := SignificantDigits(a);
    var sign := SignField(arg, 32, N);
    SignPlace(arg < 0);
    var word := Convert(BINARY64, a, sd, sign, N, 1023, 20, 32);
    bits := word;
  }
}
