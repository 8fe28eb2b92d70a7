/**
 The bit tricks that size the incremental merkle tree: the next power of two, the
 exponent of a power of two, and from them the depth of the tree.
 */
module MerkleDepth {
  import opened Bits

  // value |= value >> j
  function Smear(v: nat, j: nat): nat {
    BitOr(v, Shr(v, j))
  }

  // The first i of the lines that smear by 1, 2, 4, 8, 16 and 32.
  function Smeared(v: nat, i: nat): nat
    decreases i, v
  {
    if i == 0 then v else Smear(Smeared(v, i - 1), Pow2(i - 1))
  }

  // next_power_of_2, in words of 2^i bits.
  function NextPowerOf2(value: nat, i: nat): nat
    requires value >= 1
  {
    Low(Smeared(value - 1, i) + 1, Pow2(i))
  }

  // clz_power_2. Despite its name and comment it counts up from the low end: it gives the
  // exponent of a power of two.
  function ClzPower2(value: nat): int {
    64 - (if value != 0 then 1 else 0)
    - Taken(value, 0x00000000FFFFFFFF, 32)
    - Taken(value, 0x0000FFFF0000FFFF, 16)
    - Taken(value, 0x00FF00FF00FF00FF, 8)
    - Taken(value, 0x0F0F0F0F0F0F0F0F, 4)
    - Taken(value, 0x3333333333333333, 2)
    - Taken(value, 0x5555555555555555, 1)
  }

  // if (value & mask) lz -= n;
  function Taken(value: nat, mask: nat, n: nat): nat {
    if BitAnd(value, mask) != 0 then n else 0
  }

  // calcluate_max_depth
  function MaxDepth(nodeCount: nat): int {
    if nodeCount == 0 then 0 else ClzPower2(NextPowerOf2(nodeCount, 6)) + 1
  }

  // ----- smearing the leading one downward -----

  // v has k bits and the top j of them, or all, are ones.
  predicate TopOnes(v: nat, k: nat, j: nat) {
    v < Pow2(k) && if j <= k then Shr(v, k - j) == Pow2(j) - 1 else v == Pow2(k) - 1
  }

  lemma {:induction false} OrShr(a: nat, b: nat, m: nat)
    ensures Shr(BitOr(a, b), m) == BitOr(Shr(a, m), Shr(b, m))
    decreases m
  {
    if m > 0 {
      OrShr(a / 2, b / 2, m - 1);
      assert BitOr(a, b) / 2 == BitOr(a / 2, b / 2);
    }
  }

  // Or with j low ones fills the low j bits.
  lemma {:induction false} OrLowOnes(a: nat, j: nat)
    ensures BitOr(a, Pow2(j) - 1) == Shl(Shr(a, j), j) + Pow2(j) - 1
    decreases j
  {
    if j == 0 {
      OrZero(a);
    } else {
      var m := Pow2(j) - 1;
      assert m / 2 == Pow2(j - 1) - 1 && m % 2 == 1;
      OrLowOnes(a / 2, j - 1);
      ShlDouble(Shr(a, j), j - 1);
    }
  }

  lemma {:induction false} OrBound(a: nat, b: nat, k: nat)
    requires a < Pow2(k) && b < Pow2(k)
    ensures BitOr(a, b) < Pow2(k)
    decreases k
  {
    if k > 0 && (a != 0 || b != 0) {
      OrBound(a / 2, b / 2, k - 1);
    }
  }

  // j ones above j or fewer ones are ones throughout.
  lemma OnesJoin(v: nat, j: nat, i: nat)
    requires Shr(v, i) == Pow2(j) - 1
    ensures BitOr(v, Pow2(i) - 1) == Pow2(i + j) - 1
  {
    OrLowOnes(v, i);
    ShlAdd(Pow2(j) - 1, 1, i);
    ShlOne(i);
    ShlPow2(j, i);
  }

  // Each step doubles the number of leading ones.
  lemma SmearStep(v: nat, k: nat, j: nat)
    requires j >= 1 && TopOnes(v, k, j)
    ensures TopOnes(Smear(v, j), k, 2 * j)
  {
    if j >= k {
      SmearDone(v, k, j);
    } else {
      Split(v, j);
      ShlNat(Shr(v, j), j);
      OrBound(v, Shr(v, j), k);
      if 2 * j <= k {
        SmearDoubles(v, k, j);
      } else {
        SmearFills(v, k, j);
      }
    }
  }

  lemma SmearDone(v: nat, k: nat, j: nat)
    requires j >= k && TopOnes(v, k, j)
    ensures Smear(v, j) == v == Pow2(k) - 1
  {
    Pow2Monotone(k, j);
    LowSmall(v, j);
    OrZero(v);
    if j == k {
      assert Shr(v, 0) == v;
    }
  }

  lemma SmearDoubles(v: nat, k: nat, j: nat)
    requires j >= 1 && 2 * j <= k && Shr(v, k - j) == Pow2(j) - 1
    ensures Shr(Smear(v, j), k - 2 * j) == Pow2(2 * j) - 1
  {
    var m := k - 2 * j;
    OrShr(v, Shr(v, j), m);
    ShrShr(v, j, m);
    ShrShr(v, m, j);
    OnesJoin(Shr(v, m), j, j);
  }

  lemma SmearFills(v: nat, k: nat, j: nat)
    requires j < k < 2 * j && Shr(v, k - j) == Pow2(j) - 1
    ensures Smear(v, j) == Pow2(k) - 1
  {
    var i := k - j;
    ShrShr(v, i, j - i);
    OnesSplit(j, j - i);
    OnesJoin(v, j, i);
  }

  lemma {:induction false} SmearAll(v: nat, k: nat, i: nat)
    requires TopOnes(v, k, 1)
    ensures TopOnes(Smeared(v, i), k, Pow2(i))
    decreases i
  {
    if i > 0 {
      SmearAll(v, k, i - 1);
      SmearStep(Smeared(v, i - 1), k, Pow2(i - 1));
    }
  }

  // Smearing fills all bits below the leading one.
  lemma SmearedIsOnes(n: nat, i: nat)
    requires 1 <= n && BitLength(n - 1) <= Pow2(i)
    ensures var k := BitLength(n - 1);
            && Smeared(n - 1, i) == Pow2(k) - 1
            && n <= Pow2(k) && (n > 1 ==> Pow2(k - 1) < n)
  {
    var v, k := n - 1, BitLength(n - 1);
    if v > 0 {
      BitLengthBounds(v);
      ShlOne(k - 1);
      SplitUnique(v, k - 1, 1, v - Pow2(k - 1));
    }
    SmearAll(v, k, i);
    SmearDone(Smeared(v, i), k, Pow2(i));
  }

  // The result is the least power of two that is not below the argument, or 0 where that
  // does not fit the word.
  lemma NextPowerOf2IsNext(n: nat, i: nat)
    requires 1 <= n && BitLength(n - 1) <= Pow2(i)
    ensures var k := BitLength(n - 1);
            && NextPowerOf2(n, i) == (if k < Pow2(i) then Pow2(k) else 0)
            && n <= Pow2(k) && (n > 1 ==> Pow2(k - 1) < n)
  {
    SmearedIsOnes(n, i);
    WordOf(BitLength(n - 1), Pow2(i));
  }

  // A power of two in a word.
  lemma WordOf(k: nat, width: nat)
    requires k <= width
    ensures Low(Pow2(k), width) == if k < width then Pow2(k) else 0
  {
    if k < width {
      Pow2Monotone(k, width);
      LowSmall(Pow2(k), width);
    } else {
      ShlOne(k);
      SplitUnique(Pow2(k), k, 1, 0);
    }
  }

  // ----- the exponent of a power of two -----

  // A bit below m is a bit of the low m bits.
  lemma {:induction false} LowBitOf(a: nat, m: nat, k: nat)
    requires k < m
    ensures Shr(a, k) % 2 == Shr(Low(a, m), k) % 2
    decreases k
  {
    var x := Low(a / 2, m - 1);
    assert Low(a, m) == 2 * x + a % 2;
    if k > 0 {
      assert Low(a, m) / 2 == x;
      LowBitOf(a / 2, m - 1, k - 1);
    }
  }

  // A stretch of w ones.
  lemma OnesBit(w: nat, k: nat)
    ensures Shr(Pow2(w) - 1, k) % 2 == if k < w then 1 else 0
  {
    if k < w {
      OnesSplit(w, k);
    } else {
      Pow2Monotone(w, k);
      LowSmall(Pow2(w) - 1, k);
    }
  }

  function Fold(k: nat, s: nat): nat {
    if k >= s then k - s else k
  }

  // The masks are built by writing a pattern of s bits twice.
  lemma TwiceBit(x: nat, y: nat, s: nat, k: nat)
    requires x < Pow2(s) && y == x * Pow2(s) + x && k < 2 * s
    ensures Shr(y, k) % 2 == Shr(x, Fold(k, s)) % 2
  {
    ShlIsProduct(x, s);
    SplitUnique(y, s, x, x);
    if k >= s {
      ShrShr(y, s, k - s);
    } else {
      LowBitOf(y, s, k);
    }
  }

  lemma Powers()
    ensures Pow2(1) == 2 && Pow2(2) == 4 && Pow2(4) == 16 && Pow2(8) == 0x100
    ensures Pow2(16) == 0x1_0000 && Pow2(32) == 0x1_0000_0000
  {
    ShlPow2(8, 8);
    ShlIsProduct(Pow2(8), 8);
    ShlPow2(16, 16);
    ShlIsProduct(Pow2(16), 16);
  }

  lemma {:induction false} PowAnd(k: nat, m: nat)
    ensures BitAnd(Pow2(k), m) != 0 <==> Shr(m, k) % 2 == 1
    decreases k
  {
    if m == 0 {
      LowSmall(0, k);
    } else if k == 0 {
      assert BitAnd(0, m / 2) == 0;
    } else {
      PowAnd(k - 1, m / 2);
    }
  }

  // A mask takes effect when the bit it repeats falls into a stretch of ones.
  lemma TakenIf(k: nat, mask: nat, n: nat, w: nat, r: nat)
    requires Shr(mask, k) % 2 == Shr(Pow2(w) - 1, r) % 2
    ensures Taken(Pow2(k), mask, n) == if r < w then n else 0
  {
    PowAnd(k, mask);
    OnesBit(w, r);
  }

  lemma Mask32(k: nat)
    requires k < 64
    ensures Taken(Pow2(k), 0x00000000FFFFFFFF, 32) == if k < 32 then 32 else 0
  {
    Powers();
    TakenIf(k, 0x00000000FFFFFFFF, 32, 32, k);
  }

  lemma Mask16(k: nat, a: nat)
    requires k < 64 && a == Fold(k, 32)
    ensures Taken(Pow2(k), 0x0000FFFF0000FFFF, 16) == if a < 16 then 16 else 0
  {
    Powers();
    TwiceBit(0xFFFF, 0x0000FFFF0000FFFF, 32, k);
    TakenIf(k, 0x0000FFFF0000FFFF, 16, 16, a);
  }

  lemma Mask8(k: nat, a: nat, b: nat)
    requires k < 64 && a == Fold(k, 32) && b == Fold(a, 16)
    ensures Taken(Pow2(k), 0x00FF00FF00FF00FF, 8) == if b < 8 then 8 else 0
  {
    Powers();
    TwiceBit(0x00FF00FF, 0x00FF00FF00FF00FF, 32, k);
    TwiceBit(0xFF, 0x00FF00FF, 16, a);
    TakenIf(k, 0x00FF00FF00FF00FF, 8, 8, b);
  }

  lemma Mask4(k: nat, a: nat, b: nat, c: nat)
    requires k < 64 && a == Fold(k, 32) && b == Fold(a, 16) && c == Fold(b, 8)
    ensures Taken(Pow2(k), 0x0F0F0F0F0F0F0F0F, 4) == if c < 4 then 4 else 0
  {
    Powers();
    TwiceBit(0x0F0F0F0F, 0x0F0F0F0F0F0F0F0F, 32, k);
    TwiceBit(0x0F0F, 0x0F0F0F0F, 16, a);
    TwiceBit(0x0F, 0x0F0F, 8, b);
    TakenIf(k, 0x0F0F0F0F0F0F0F0F, 4, 4, c);
  }

  lemma Mask2(k: nat, a: nat, b: nat, c: nat, d: nat)
    requires k < 64 && a == Fold(k, 32) && b == Fold(a, 16) && c == Fold(b, 8) && d == Fold(c, 4)
    ensures Taken(Pow2(k), 0x3333333333333333, 2) == if d < 2 then 2 else 0
  {
    Powers();
    TwiceBit(0x33333333, 0x3333333333333333, 32, k);
    TwiceBit(0x3333, 0x33333333, 16, a);
    TwiceBit(0x33, 0x3333, 8, b);
    TwiceBit(0x3, 0x33, 4, c);
    TakenIf(k, 0x3333333333333333, 2, 2, d);
  }

  lemma Mask1(k: nat, a: nat, b: nat, c: nat, d: nat, e: nat)
    requires k < 64 && a == Fold(k, 32) && b == Fold(a, 16) && c == Fold(b, 8) && d == Fold(c, 4) && e == Fold(d, 2)
    ensures Taken(Pow2(k), 0x5555555555555555, 1) == if e < 1 then 1 else 0
  {
    Powers();
    TwiceBit(0x55555555, 0x5555555555555555, 32, k);
    TwiceBit(0x5555, 0x55555555, 16, a);
    TwiceBit(0x55, 0x5555, 8, b);
    TwiceBit(0x5, 0x55, 4, c);
    TwiceBit(0x1, 0x5, 2, d);
    TakenIf(k, 0x5555555555555555, 1, 1, e);
  }

  // On a power of two the result is its exponent.
  lemma ClzPower2IsExponent(k: nat)
    requires k < 64
    ensures ClzPower2(Pow2(k)) == k
  {
    var a := Fold(k, 32);
    var b := Fold(a, 16);
    var c := Fold(b, 8);
    var d := Fold(c, 4);
    Mask32(k);
    Mask16(k, a);
    Mask8(k, a, b);
    Mask4(k, a, b, c);
    Mask2(k, a, b, c, d);
    Mask1(k, a, b, c, d, Fold(d, 2));
  }

  // ----- depth -----

  // For every 64-bit count, one less than the depth is the least number of levels that
  // reaches a single node. Where the next power of two does not fit, its exponent is still
  // counted right.
  lemma MaxDepthIsLeast(n: nat)
    requires 1 <= n && BitLength(n - 1) <= 64
    ensures MaxDepth(n) == BitLength(n - 1) + 1
    ensures n <= Pow2(MaxDepth(n) - 1)
    ensures MaxDepth(n) >= 2 ==> Pow2(MaxDepth(n) - 2) < n
  {
    var k := BitLength(n - 1);
    assert Pow2(6) == 64;
    NextPowerOf2IsNext(n, 6);
    if k < 64 {
      ClzPower2IsExponent(k);
    } else {
      NoBits();
    }
  }

  lemma NoBits()
    ensures ClzPower2(0) == 64
  {
  }
}
