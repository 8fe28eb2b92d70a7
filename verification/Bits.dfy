/**
 Machine words as natural numbers, and the shifts and bit operators that the C and
 C++ sources apply to them. Every operator is defined one bit at a time, which keeps
 the reasoning linear; the last section says what they are as arithmetic.
 */
module Bits {

  // a * 2^k, without loss.
  function Shl(a: int, k: nat): int
    decreases k, a
  {
    if k == 0 then a else Shl(2 * a, k - 1)
  }

  // a / 2^k, rounded down.
  function Shr(a: nat, k: nat): nat
    decreases k, a
  {
    if k == 0 then a else Shr(a / 2, k - 1)
  }

  // a mod 2^k, the low k bits.
  function Low(a: nat, k: nat): nat
    decreases k, a
  {
    if k == 0 then 0 else 2 * Low(a / 2, k - 1) + a % 2
  }

  function Pow2(k: nat): (p: nat)
    ensures p >= 1
  {
    if k == 0 then 1 else 2 * Pow2(k - 1)
  }

  // A left shift in a word of the given width drops the bits that leave it.
  function ShlWord(a: nat, k: nat, width: nat): nat {
    ShlNat(a, k);
    Low(Shl(a, k), width)
  }

  function BitAnd(a: nat, b: nat): nat {
    if a == 0 || b == 0 then 0
    else 2 * BitAnd(a / 2, b / 2) + (if a % 2 == 1 && b % 2 == 1 then 1 else 0)
  }

  function BitOr(a: nat, b: nat): nat
    decreases a + b
  {
    if a == 0 && b == 0 then 0
    else 2 * BitOr(a / 2, b / 2) + (if a % 2 == 1 || b % 2 == 1 then 1 else 0)
  }

  function BitXor(a: nat, b: nat): nat
    decreases a + b
  {
    if a == 0 && b == 0 then 0
    else 2 * BitXor(a / 2, b / 2) + (if a % 2 != b % 2 then 1 else 0)
  }

  // The number of significant bits.
  function BitLength(a: nat): (sd: nat)
    ensures sd == 0 <==> a == 0
  {
    if a == 0 then 0 else 1 + BitLength(a / 2)
  }

  // ----- left shift -----

  lemma {:induction false} ShlNat(a: nat, k: nat)
    ensures Shl(a, k) >= a
    decreases k
  {
    if k > 0 {
      ShlNat(2 * a, k - 1);
    }
  }

  lemma {:induction false} ShlAdd(a: int, b: int, k: nat)
    ensures Shl(a + b, k) == Shl(a, k) + Shl(b, k)
    decreases k
  {
    if k > 0 {
      ShlAdd(2 * a, 2 * b, k - 1);
    }
  }

  lemma {:induction false} ShlNegate(a: int, k: nat)
    ensures Shl(-a, k) == -Shl(a, k)
    decreases k
  {
    if k > 0 {
      ShlNegate(2 * a, k - 1);
    }
  }

  // Shifting both sides keeps every comparison.
  lemma {:induction false} ShlOrder(a: int, b: int, k: nat)
    ensures a < b <==> Shl(a, k) < Shl(b, k)
    ensures a == b <==> Shl(a, k) == Shl(b, k)
    decreases k
  {
    if k > 0 {
      ShlOrder(2 * a, 2 * b, k - 1);
    }
  }

  lemma {:induction false} ShlShl(a: int, j: nat, k: nat)
    ensures Shl(Shl(a, j), k) == Shl(a, j + k)
    decreases j
  {
    if j > 0 {
      ShlShl(2 * a, j - 1, k);
    }
  }

  lemma ShlDouble(a: int, k: nat)
    ensures Shl(2 * a, k) == Shl(a, k + 1) == 2 * Shl(a, k)
  {
    ShlAdd(a, a, k);
  }

  lemma {:induction false} ShlOne(k: nat)
    ensures Shl(1, k) == Pow2(k)
  {
    if k > 0 {
      ShlOne(k - 1);
      ShlDouble(1, k - 1);
    }
  }

  lemma ShlPow2(j: nat, k: nat)
    ensures Shl(Pow2(j), k) == Pow2(j + k)
  {
    ShlOne(j);
    ShlShl(1, j, k);
    ShlOne(j + k);
  }

  lemma {:induction false} Pow2Monotone(j: nat, k: nat)
    requires j <= k
    ensures Pow2(j) <= Pow2(k)
    ensures j < k ==> 2 * Pow2(j) <= Pow2(k)
  {
    if j < k {
      Pow2Monotone(j, k - 1);
    }
  }

  // ----- right shift and low bits -----

  // A word is its high part and its low part.
  lemma {:induction false} Split(a: nat, k: nat)
    ensures a == Shl(Shr(a, k), k) + Low(a, k)
    ensures Low(a, k) < Pow2(k)
    decreases k
  {
    if k > 0 {
      Split(a / 2, k - 1);
      ShlDouble(Shr(a / 2, k - 1), k - 1);
    }
  }

  // And only those parts make it up.
  lemma SplitUnique(a: nat, k: nat, q: int, r: int)
    requires a == Shl(q, k) + r && 0 <= r < Pow2(k)
    ensures Shr(a, k) == q && Low(a, k) == r
  {
    Split(a, k);
    var q' := Shr(a, k);
    ShlOne(k);
    ShlAdd(q, 1, k);
    ShlAdd(q', 1, k);
    ShlOrder(q + 1, q', k);
    ShlOrder(q' + 1, q, k);
    ShlOrder(q, q', k);
  }

  lemma LowSmall(a: nat, k: nat)
    requires a < Pow2(k)
    ensures Low(a, k) == a && Shr(a, k) == 0
  {
    ShlOrder(0, 0, k);
    ShlNegate(0, k);
    SplitUnique(a, k, 0, a);
  }

  lemma {:induction false} ShrShr(a: nat, j: nat, k: nat)
    ensures Shr(Shr(a, j), k) == Shr(a, j + k)
    decreases j
  {
    if j > 0 {
      ShrShr(a / 2, j - 1, k);
    }
  }

  // The low j + k bits are k bits above j bits.
  lemma {:induction false} LowLow(a: nat, j: nat, k: nat)
    ensures Low(a, j + k) == Shl(Low(Shr(a, j), k), j) + Low(a, j)
    decreases j
  {
    if j > 0 {
      LowLow(a / 2, j - 1, k);
      ShlDouble(Low(Shr(a, j), k), j - 1);
    }
  }

  lemma {:induction false} ShrMonotone(a: nat, b: nat, k: nat)
    requires a <= b
    ensures Shr(a, k) <= Shr(b, k)
    decreases k
  {
    if k > 0 {
      ShrMonotone(a / 2, b / 2, k - 1);
    }
  }

  // An all-ones word splits into all-ones words.
  lemma OnesSplit(n: nat, k: nat)
    requires k <= n
    ensures Shr(Pow2(n) - 1, k) == Pow2(n - k) - 1
    ensures Low(Pow2(n) - 1, k) == Pow2(k) - 1
  {
    ShlPow2(n - k, k);
    ShlAdd(Pow2(n - k) - 1, 1, k);
    ShlOne(k);
    SplitUnique(Pow2(n) - 1, k, Pow2(n - k) - 1, Pow2(k) - 1);
  }

  // ----- what the operators compute on the masks the sources use -----

  // A run of ones from bit lo up to bit hi selects exactly that field.
  lemma {:induction false} AndField(a: nat, lo: nat, hi: nat)
    requires lo <= hi
    ensures Pow2(lo) <= Pow2(hi)
    ensures BitAnd(a, Pow2(hi) - Pow2(lo)) == Low(a, hi) - Low(a, lo)
    decreases hi
  {
    Pow2Monotone(lo, hi);
    var m := Pow2(hi) - Pow2(lo);
    if lo == hi {
    } else if a == 0 {
      LowSmall(0, hi);
      LowSmall(0, lo);
    } else if lo > 0 {
      assert m / 2 == Pow2(hi - 1) - Pow2(lo - 1) && m % 2 == 0;
      AndField(a / 2, lo - 1, hi - 1);
    } else {
      assert m / 2 == Pow2(hi - 1) - 1 && m % 2 == 1;
      AndField(a / 2, 0, hi - 1);
    }
  }

  // The all-ones mask keeps the low k bits.
  lemma AndLow(a: nat, k: nat)
    ensures BitAnd(a, Pow2(k) - 1) == Low(a, k)
  {
    AndField(a, 0, k);
  }

  // A one-bit mask tests that bit.
  lemma {:induction false} AndBit(a: nat, k: nat)
    ensures BitAnd(a, Pow2(k)) == if Shr(a, k) % 2 == 1 then Pow2(k) else 0
    decreases k
  {
    if a == 0 {
      LowSmall(0, k);
    } else if k > 0 {
      AndBit(a / 2, k - 1);
    }
  }

  // Or of two words whose bits lie on opposite sides of bit k is their sum.
  lemma {:induction false} OrDisjoint(a: nat, b: nat, k: nat)
    requires Low(a, k) == 0 && b < Pow2(k)
    ensures BitOr(a, b) == a + b
    decreases k
  {
    if k == 0 {
      OrZero(a);
    } else if a != 0 || b != 0 {
      OrDisjoint(a / 2, b / 2, k - 1);
    }
  }

  lemma {:induction false} OrZero(a: nat)
    ensures BitOr(a, 0) == a
  {
    if a > 0 {
      OrZero(a / 2);
    }
  }

  // Or-ing in a single truth value sets the lowest bit.
  lemma OrFlag(a: nat, flag: bool)
    ensures BitOr(a, if flag then 1 else 0) == if flag && a % 2 == 0 then a + 1 else a
  {
    OrZero(a);
    OrZero(a / 2);
  }

  // Exclusive or with all ones is the complement.
  lemma {:induction false} XorOnes(a: nat, k: nat)
    requires a < Pow2(k)
    ensures BitXor(a, Pow2(k) - 1) == Pow2(k) - 1 - a
  {
    if k > 0 {
      var m := Pow2(k) - 1;
      assert m / 2 == Pow2(k - 1) - 1 && m % 2 == 1;
      XorOnes(a / 2, k - 1);
    }
  }

  lemma {:induction false} XorZero(a: nat)
    ensures BitXor(a, 0) == a
  {
    if a > 0 {
      XorZero(a / 2);
    }
  }

  // ----- number of significant bits -----

  lemma {:induction false} BitLengthBounds(a: nat)
    requires a > 0
    ensures Pow2(BitLength(a) - 1) <= a < Pow2(BitLength(a))
  {
    if a > 1 {
      BitLengthBounds(a / 2);
    }
  }

  // The bounds determine the length.
  lemma BitLengthUnique(a: nat, sd: nat)
    requires sd > 0 && Pow2(sd - 1) <= a < Pow2(sd)
    ensures BitLength(a) == sd
  {
    var n := BitLength(a);
    BitLengthBounds(a);
    if n < sd {
      Pow2Monotone(n, sd - 1);
    } else if n > sd {
      Pow2Monotone(sd, n - 1);
    }
  }

  // ----- the operators as arithmetic -----

  lemma {:induction false} ShlIsProduct(a: int, k: nat)
    ensures Shl(a, k) == a * Pow2(k)
    decreases k
  {
    if k > 0 {
      ShlIsProduct(2 * a, k - 1);
    }
  }

  lemma ShrIsQuotient(a: nat, k: nat)
    ensures Shr(a, k) == a / Pow2(k) && Low(a, k) == a % Pow2(k)
  {
    var p := Pow2(k);
    Split(a, k);
    ShlIsProduct(Shr(a, k), k);
    QuotientUnique(a, p, Shr(a, k), Low(a, k));
  }

  lemma MulMonotone(a: int, b: int, d: int)
    requires a <= b && d >= 0
    ensures a * d <= b * d
  {
    assert 0 <= (b - a) * d;
  }

  lemma QuotientUnique(a: int, d: int, q: int, r: int)
    requires d > 0 && a == q * d + r && 0 <= r < d
    ensures a / d == q && a % d == r
  {
    var q', r' := a / d, a % d;
    assert (q - q') * d == r' - r;
    assert (q' - q) * d == r - r';
    if q > q' {
      MulMonotone(1, q - q', d);
    } else if q < q' {
      MulMonotone(1, q' - q, d);
    }
  }
}
