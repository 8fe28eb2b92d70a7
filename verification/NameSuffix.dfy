/**
 The part of an account name after its last dot (unittests/misc_tests.cpp). A name is a word
 that packs symbols of five bits and a last one of four; symbol 0 is the dot, and dots at the
 end do not count.
 */
module NameSuffix {
  import opened Bits

  // ----- on symbols -----

  function Zeros(d: nat): (z: seq<nat>)
    ensures |z| == d && forall i :: 0 <= i < d ==> z[i] == 0
  {
    if d == 0 then [] else Zeros(d - 1) + [0]
  }

  // The position after the last dot among the first j symbols, 0 if there is none.
  function LastDot(s: seq<nat>, j: nat): nat
    requires j <= |s|
  {
    if j == 0 then 0 else if s[j - 1] == 0 then j else LastDot(s, j - 1)
  }

  // The position after the last dot that another symbol follows.
  function Cut(s: seq<nat>, j: nat): nat
    requires j <= |s|
  {
    if j == 0 then 0 else if s[j - 1] == 0 then Cut(s, j - 1) else LastDot(s, j - 1)
  }

  // From there on, only dots follow a dot.
  predicate DotFree(s: seq<nat>, from: nat, to: nat)
    requires to <= |s|
  {
    forall i, j :: from <= i < j < to && s[i] == 0 ==> s[j] == 0
  }

  function Suffix(s: seq<nat>): seq<nat> {
    CutMeans(s, |s|);
    s[Cut(s, |s|)..] + Zeros(Cut(s, |s|))
  }

  lemma {:induction false} LastDotMeans(s: seq<nat>, j: nat)
    requires j <= |s|
    ensures LastDot(s, j) <= j && (LastDot(s, j) > 0 ==> s[LastDot(s, j) - 1] == 0)
    ensures forall i :: LastDot(s, j) <= i < j ==> s[i] != 0
  {
    if j > 0 && s[j - 1] != 0 {
      LastDotMeans(s, j - 1);
    }
  }

  // The cut is right after a dot before the last symbol that is not one, and is the last such.
  lemma {:induction false} CutMeans(s: seq<nat>, j: nat)
    requires j <= |s|
    ensures Cut(s, j) <= j && DotFree(s, Cut(s, j), j)
    ensures Cut(s, j) > 0 ==> s[Cut(s, j) - 1] == 0 && exists t :: Cut(s, j) <= t < j && s[t] != 0
  {
    if j > 0 {
      if s[j - 1] == 0 {
        CutMeans(s, j - 1);
      } else {
        LastDotMeans(s, j - 1);
        assert s[j - 1] != 0;
      }
    }
  }

  lemma CutZero(s: seq<nat>)
    ensures Cut(s, |s|) == 0 <==> DotFree(s, 0, |s|)
  {
    CutMeans(s, |s|);
    var d := Cut(s, |s|);
    if d > 0 {
      var t :| d <= t < |s| && s[t] != 0;
      assert s[d - 1] == 0;
    }
  }

  lemma SuffixDotFree(s: seq<nat>)
    ensures |Suffix(s)| == |s| && DotFree(Suffix(s), 0, |s|)
  {
    var d := Cut(s, |s|);
    CutMeans(s, |s|);
    var r := Suffix(s);
    forall i, j | 0 <= i < j < |s| && r[i] == 0
      ensures r[j] == 0
    {
      if j < |s| - d {
        assert r[i] == s[d + i] && r[j] == s[d + j];
      }
    }
  }

  // The suffix is its own suffix.
  lemma Idempotent(s: seq<nat>)
    ensures Suffix(Suffix(s)) == Suffix(s)
  {
    SuffixDotFree(s);
    CutZero(Suffix(s));
  }

  // Exactly the names with no dot before their last other symbol are theirs.
  lemma FixedPoints(s: seq<nat>)
    ensures Suffix(s) == s <==> DotFree(s, 0, |s|)
  {
    SuffixDotFree(s);
    CutZero(s);
  }

  // Only the name of dots has an empty suffix.
  lemma NonzeroKept(s: seq<nat>)
    ensures (exists i :: 0 <= i < |s| && s[i] != 0) <==> (exists i :: 0 <= i < |s| && Suffix(s)[i] != 0)
  {
    var d := Cut(s, |s|);
    CutMeans(s, |s|);
    if d > 0 {
      var t :| d <= t < |s| && s[t] != 0;
      assert Suffix(s)[t - d] == s[t];
    } else {
      assert Suffix(s) == s;
    }
  }

  // ----- symbols in a word -----

  // The last m five-bit symbols of x.
  function Wide(x: nat, m: nat): (s: seq<nat>)
    ensures |s| == m
    decreases m
  {
    if m == 0 then [] else Wide(Shr(x, 5), m - 1) + [Low(x, 5)]
  }

  // A name of m five-bit symbols and a four-bit one.
  function Symbols(n: nat, m: nat): (s: seq<nat>)
    ensures |s| == m + 1
  {
    Wide(Shr(n, 4), m) + [Low(n, 4)]
  }

  lemma {:induction false} WideAt(x: nat, m: nat, i: nat)
    requires i < m
    ensures Wide(x, m)[i] == Low(Shr(x, 5 * (m - 1 - i)), 5)
    decreases m
  {
    if i < m - 1 {
      WideAt(Shr(x, 5), m - 1, i);
      ShrShr(x, 5, 5 * (m - 2 - i));
    }
  }

  lemma WideAppend(y: nat, t: nat, m: nat)
    requires t < Pow2(5)
    ensures Shl(y, 5) >= 0 && Wide(Shl(y, 5) + t, m + 1) == Wide(y, m) + [t]
  {
    ShlNat(y, 5);
    SplitUnique(Shl(y, 5) + t, 5, y, t);
  }

  lemma {:induction false} WideShl(y: nat, z: nat, m: nat)
    ensures Shl(y, 5 * z) >= 0 && Wide(Shl(y, 5 * z), m + z) == Wide(y, m) + Zeros(z)
    decreases z
  {
    ShlNat(y, 5 * z);
    if z > 0 {
      WideShl(y, z - 1, m);
      ShlShl(y, 5 * (z - 1), 5);
      WideAppend(Shl(y, 5 * (z - 1)), 0, m + z - 1);
    }
  }

  lemma {:induction false} WideLow(x: nat, k: nat, m: nat)
    requires k <= m
    ensures Wide(Low(x, 5 * k), k) == Wide(x, m)[m - k..]
    decreases k
  {
    if k > 0 {
      LowLow(x, 5, 5 * (k - 1));
      Split(x, 5);
      WideAppend(Low(Shr(x, 5), 5 * (k - 1)), Low(x, 5), k - 1);
      WideLow(Shr(x, 5), k - 1, m - 1);
    }
  }

  // Distinct words have distinct symbols.
  lemma {:induction false} WideInjective(x: nat, y: nat, m: nat)
    requires x < Pow2(5 * m) && y < Pow2(5 * m) && Wide(x, m) == Wide(y, m)
    ensures x == y
    decreases m
  {
    if m > 0 {
      var u, v := Wide(Shr(x, 5), m - 1), Wide(Shr(y, 5), m - 1);
      assert u == Wide(x, m)[..m - 1] && v == Wide(y, m)[..m - 1];
      assert Wide(x, m)[m - 1] == Low(x, 5) && Wide(y, m)[m - 1] == Low(y, 5);
      Split(x, 5);
      Split(y, 5);
      ShrBound(x, 5, 5 * (m - 1));
      ShrBound(y, 5, 5 * (m - 1));
      WideInjective(Shr(x, 5), Shr(y, 5), m - 1);
    }
  }

  lemma ShrBound(x: nat, j: nat, k: nat)
    requires x < Pow2(j + k)
    ensures Shr(x, j) < Pow2(k)
  {
    Split(x, j);
    ShlPow2(k, j);
    ShlOrder(Shr(x, j), Pow2(k), j);
  }

  lemma SymbolsInjective(n: nat, n': nat, m: nat)
    requires n < Pow2(4 + 5 * m) && n' < Pow2(4 + 5 * m) && Symbols(n, m) == Symbols(n', m)
    ensures n == n'
  {
    assert Wide(Shr(n, 4), m) == Symbols(n, m)[..m] && Wide(Shr(n', 4), m) == Symbols(n', m)[..m];
    assert Symbols(n, m)[m] == Low(n, 4) && Symbols(n', m)[m] == Low(n', 4);
    Split(n, 4);
    Split(n', 4);
    ShrBound(n, 4, 5 * m);
    ShrBound(n', 4, 5 * m);
    WideInjective(Shr(n, 4), Shr(n', 4), m);
  }

  lemma ZeroName(n: nat, m: nat)
    requires n < Pow2(4 + 5 * m)
    ensures n == 0 <==> forall i :: 0 <= i < m + 1 ==> Symbols(n, m)[i] == 0
  {
    ShlAdd(0, 0, 5 * m);
    WideShl(0, m, 0);
    LowSmall(0, 4);
    assert Symbols(0, m) == Zeros(m) + [0];
    if forall i :: 0 <= i < m + 1 ==> Symbols(n, m)[i] == 0 {
      assert Symbols(n, m) == Symbols(0, m);
      SymbolsInjective(n, 0, m);
    }
  }

  // What this means for words: r the suffix of n and r' that of r.
  lemma SuffixLaws(n: nat, r: nat, r': nat, m: nat)
    requires n < Pow2(4 + 5 * m) && r < Pow2(4 + 5 * m) && r' < Pow2(4 + 5 * m)
    requires Symbols(r, m) == Suffix(Symbols(n, m)) && Symbols(r', m) == Suffix(Symbols(r, m))
    ensures r' == r && (r == 0 <==> n == 0)
    ensures r == n <==> DotFree(Symbols(n, m), 0, m + 1)
  {
    Idempotent(Symbols(n, m));
    SymbolsInjective(r, r', m);
    FixedPoints(Symbols(n, m));
    if Symbols(r, m) == Symbols(n, m) {
      SymbolsInjective(r, n, m);
    }
    NonzeroKept(Symbols(n, m));
    ZeroName(n, m);
    ZeroName(r, m);
  }

  // ----- the computation -----

  // Where the symbols after position d begin, as a bit number; 0 for the whole name.
  function BitsAfter(d: nat, m: nat): nat
    requires d <= m
  {
    if d == 0 then 0 else 4 + 5 * (m - d)
  }

  // The last k five-bit symbols and the four-bit one, moved to the front.
  function Moved(n: nat, k: nat, d: nat): nat
    requires d > 0
  {
    ShlNat(Low(Shr(n, 4), 5 * k), 5);
    ShlNat(Shl(Low(Shr(n, 4), 5 * k), 5) + Low(n, 4), 5 * d - 1);
    Shl(Shl(Low(Shr(n, 4), 5 * k), 5) + Low(n, 4), 5 * d - 1)
  }

  // The five-bit symbols of the moved word.
  lemma MovedWide(x: nat, t: nat, m: nat, d: nat)
    requires 0 < d <= m && t < Pow2(4)
    ensures var y := Shl(Low(x, 5 * (m - d)), 5) + t;
            && y >= 0 && Shl(y, 5 * (d - 1)) >= 0
            && Wide(Shl(y, 5 * (d - 1)), m) == Wide(x, m)[d..] + [t] + Zeros(d - 1)
  {
    var k := m - d;
    Pow2Monotone(4, 5);
    WideAppend(Low(x, 5 * k), t, k);
    WideLow(x, k, m);
    WideShl(Shl(Low(x, 5 * k), 5) + t, d - 1, k + 1);
  }

  lemma {:induction false} MovedSymbols(n: nat, m: nat, d: nat)
    requires 0 < d <= m
    ensures Symbols(Moved(n, m - d, d), m) == Symbols(n, m)[d..] + Zeros(d)
  {
    var k, x := m - d, Shr(n, 4);
    Split(n, 4);
    MovedWide(x, Low(n, 4), m, d);
    var y := Shl(Low(x, 5 * k), 5) + Low(n, 4);
    ShlShl(y, 5 * (d - 1), 4);
    SplitUnique(Moved(n, k, d), 4, Shl(y, 5 * (d - 1)), 0);
    assert Wide(x, m)[d..] + [Low(n, 4)] == Symbols(n, m)[d..];
  }

  lemma MovedBound(n: nat, k: nat, d: nat)
    requires d > 0
    ensures Moved(n, k, d) < Pow2(4 + 5 * (k + d))
    ensures Moved(n, k, d) == Shl(Low(Shr(n, 4), 5 * k), 5 * d + 4) + Shl(Low(n, 4), 5 * d - 1)
  {
    var mid, t := Low(Shr(n, 4), 5 * k), Low(n, 4);
    Split(Shr(n, 4), 5 * k);
    Split(n, 4);
    Pow2Monotone(4, 5);
    ShlAdd(Shl(mid, 5), t, 5 * d - 1);
    ShlShl(mid, 5, 5 * d - 1);
    SmallShl(mid, t, 5 * k, 5);
    ShlOrder(Shl(mid, 5) + t, Pow2(5 * k + 5), 5 * d - 1);
    ShlPow2(5 * k + 5, 5 * d - 1);
  }

  lemma SmallShl(a: nat, b: nat, j: nat, k: nat)
    requires a < Pow2(j) && b < Pow2(k)
    ensures Shl(a, k) + b < Pow2(j + k)
  {
    ShlOrder(a + 1, Pow2(j) + 1, k);
    ShlAdd(a, 1, k);
    ShlOne(k);
    ShlPow2(j, k);
    if a + 1 < Pow2(j) {
      ShlOrder(a + 1, Pow2(j), k);
    }
  }

  // The mask selects the last k five-bit symbols.
  lemma Masked(n: nat, k: nat)
    ensures Pow2(4 + 5 * k) >= 16 && BitAnd(n, Pow2(4 + 5 * k) - 16) == Shl(Low(Shr(n, 4), 5 * k), 4)
  {
    Pow2Monotone(4, 4 + 5 * k);
    AndField(n, 4, 4 + 5 * k);
    LowLow(n, 4, 5 * k);
  }

  lemma WordShl(x: nat, k: nat, width: nat)
    requires Shl(x, k) < Pow2(width)
    ensures ShlWord(x, k, width) == Shl(x, k)
  {
    ShlNat(x, k);
    LowSmall(Shl(x, k), width);
  }

  lemma MaskWord(bits: nat, width: nat)
    requires bits < width
    ensures ShlWord(1, bits, width) == Pow2(bits)
  {
    ShlOne(bits);
    Pow2Monotone(bits, width);
    WordShl(1, bits, width);
  }

  // Shifted into place the two parts do not overlap.
  lemma SumIsMoved(n: nat, k: nat, d: nat, width: nat)
    requires d > 0 && width == 4 + 5 * (k + d)
    ensures var mid := Low(Shr(n, 4), 5 * k);
            && Shl(mid, 4) >= 0
            && Low(ShlWord(Shl(mid, 4), 5 * d, width) + ShlWord(Low(n, 4), 5 * d - 1, width), width) == Moved(n, k, d)
  {
    var mid := Low(Shr(n, 4), 5 * k);
    ShlNat(mid, 4);
    ShlShl(mid, 4, 5 * d);
    MovedBound(n, k, d);
    ShlNat(mid, 5 * d + 4);
    ShlNat(Low(n, 4), 5 * d - 1);
    WordShl(Shl(mid, 4), 5 * d, width);
    WordShl(Low(n, 4), 5 * d - 1, width);
    LowSmall(Moved(n, k, d), width);
  }

  // The word the source assembles is that one: mask, two shifts and a sum of a word of
  // 4 + 5 m bits.
  lemma AssembledIsMoved(n: nat, m: nat, d: nat)
    requires 0 < d <= m
    ensures var bits, width := 4 + 5 * (m - d), 4 + 5 * m;
            && ShlWord(1, bits, width) >= 16
            && Low(ShlWord(BitAnd(n, ShlWord(1, bits, width) - 16), width - bits, width)
                   + ShlWord(BitAnd(n, 15), width - bits - 1, width), width) == Moved(n, m - d, d)
  {
    var k, width := m - d, 4 + 5 * m;
    MaskWord(4 + 5 * k, width);
    Masked(n, k);
    AndLow(n, 4);
    SumIsMoved(n, k, d, width);
  }

  lemma SymbolAt(n: nat, m: nat, i: nat)
    requires i < m
    ensures Symbols(n, m)[i] == BitAnd(Shr(n, 4 + 5 * (m - 1 - i)), 31)
  {
    WideAt(Shr(n, 4), m, i);
    ShrShr(n, 4, 5 * (m - 1 - i));
    AndLow(Shr(n, 4 + 5 * (m - 1 - i)), 5);
  }

  // The loop, and the thirteenth symbol: the bits after the last dot that counts.
  method LastActualDot(n: nat, m: nat) returns (remainingAfterLastActualDot: nat)
    requires m > 0
    ensures Cut(Symbols(n, m), m + 1) <= m
    ensures remainingAfterLastActualDot == BitsAfter(Cut(Symbols(n, m), m + 1), m)
  {
    ghost var s := Symbols(n, m);
    ghost var i := 0;
    var tmp := 0;
    remainingAfterLastActualDot := 0;
    var remaining := 5 * m - 1;
    while remaining >= 4
      invariant 0 <= i <= m && remaining == 4 + 5 * (m - 1 - i)
      invariant LastDot(s, i) <= m && Cut(s, i) <= m
      invariant tmp == BitsAfter(LastDot(s, i), m) && remainingAfterLastActualDot == BitsAfter(Cut(s, i), m)
      decreases remaining
    {
      var c := BitAnd(Shr(n, remaining), 31);
      SymbolAt(n, m, i);
      if c == 0 {
        tmp := remaining;
      } else {
        remainingAfterLastActualDot := tmp;
      }
      remaining := remaining - 5;
      i := i + 1;
    }
    AndLow(n, 4);
    if BitAnd(n, 15) != 0 {
      remainingAfterLastActualDot := tmp;
    }
  }

  // The symbols after the cut, moved to the front.
  method MoveToFront(n: nat, m: nat, remaining: nat, ghost d: nat) returns (r: nat)
    requires 0 < d <= m && remaining == BitsAfter(d, m)
    ensures r == Moved(n, m - d, d)
  {
    AssembledIsMoved(n, m, d);
    var width := 4 + 5 * m;
    var mask := ShlWord(1, remaining, width) - 16;
    var shift := width - remaining;
    r := Low(ShlWord(BitAnd(n, mask), shift, width) + ShlWord(BitAnd(n, 15), shift - 1, width), width);
  }

  // name_suffix(), for names of m five-bit symbols.
  method SuffixOf(n: nat, m: nat) returns (r: nat)
    requires m > 0 && n < Pow2(4 + 5 * m)
    ensures r < Pow2(4 + 5 * m) && Symbols(r, m) == Suffix(Symbols(n, m))
  {
    ghost var d := Cut(Symbols(n, m), m + 1);
    var remaining := LastActualDot(n, m);
    if remaining == 0 {
      return n;
    }
    r := MoveToFront(n, m, remaining, d);
    MovedBound(n, m - d, d);
    MovedSymbols(n, m, d);
  }

  // name_suffix() itself: twelve five-bit symbols.
  method Suffix64(n: nat) returns (r: nat)
    requires n < Pow2(4 + 5 * 12)
    ensures r < Pow2(4 + 5 * 12) && Symbols(r, 12) == Suffix(Symbols(n, 12))
  {
    r := SuffixOf(n, 12);
  }
}
