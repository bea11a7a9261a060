/**
 Bitwise operators of the C sources, on natural numbers, and what they compute
 when one operand is a power-of-two mask.
 */
module Bits {

  function Pow2(k: nat): (r: nat)
    ensures r > 0
  {
    if k == 0 then 1 else 2 * Pow2(k - 1)
  }

  /** C `x & y`. */
  function And(x: nat, y: nat): (r: nat)
    ensures r <= x && r <= y
  {
    if x == 0 || y == 0 then 0
    else 2 * And(x / 2, y / 2) + (if x % 2 == 1 && y % 2 == 1 then 1 else 0)
  }

  /** C `x | y`. */
  function Or(x: nat, y: nat): (r: nat)
    ensures r >= x && r >= y
    decreases x + y
  {
    if x == 0 then y
    else if y == 0 then x
    else 2 * Or(x / 2, y / 2) + (if x % 2 == 1 || y % 2 == 1 then 1 else 0)
  }

  /** C `x >> k`. */
  function Shr(x: nat, k: nat): nat {
    if k == 0 then x else Shr(x / 2, k - 1)
  }

  const TWO_64: nat := 0x1_0000_0000_0000_0000

  /** `ALIGN(x, a)` on 64-bit operands: `(x + (a - 1)) & ~(a - 1)`. */
  function Align(x: nat, a: nat): nat
    requires 0 < a <= TWO_64
  {
    And(x + (a - 1), TWO_64 - a)
  }

  lemma {:induction false} Pow2Byte(k: nat)
    ensures Pow2(k + 8) == 0x100 * Pow2(k)
  {
    assert Pow2(k + 4) == 16 * Pow2(k) by {
      assert Pow2(k + 2) == 4 * Pow2(k);
    }
    assert Pow2(k + 8) == 16 * Pow2(k + 4) by {
      assert Pow2(k + 6) == 4 * Pow2(k + 4);
    }
  }

  lemma {:induction false} Width64() returns (w: nat)
    ensures w == 64 && Pow2(w) == TWO_64
  {
    w := 0;
    while w < 64
      invariant w == 0 || w == 8 || w == 16 || w == 24 || w == 32 || w == 40 || w == 48 || w == 56 || w == 64
      invariant w == 0 ==> Pow2(w) == 1
      invariant w == 8 ==> Pow2(w) == 0x100
      invariant w == 16 ==> Pow2(w) == 0x1_0000
      invariant w == 24 ==> Pow2(w) == 0x100_0000
      invariant w == 32 ==> Pow2(w) == 0x1_0000_0000
      invariant w == 40 ==> Pow2(w) == 0x100_0000_0000
      invariant w == 48 ==> Pow2(w) == 0x1_0000_0000_0000
      invariant w == 56 ==> Pow2(w) == 0x100_0000_0000_0000
      invariant w == 64 ==> Pow2(w) == TWO_64
    {
      Pow2Byte(w);
      w := w + 8;
    }
  }

  lemma {:induction false} DivModUnique(x: int, m: int, q: int, r: int)
    requires 0 <= r < m && x == q * m + r
    ensures x / m == q && x % m == r
  {
    var d := x / m - q;
    assert d * m == r - x % m by {
      assert (x / m) * m - q * m == (x / m - q) * m;
    }
    MulBound(d, m);
  }

  lemma {:induction false} MulBound(d: int, m: int)
    requires m > 0
    ensures d >= 1 ==> d * m >= m
    ensures d <= -1 ==> d * m <= -m
  {
  }

  lemma {:induction false} ModDouble(x: nat, m: nat)
    requires m > 0
    ensures x % (2 * m) == 2 * ((x / 2) % m) + x % 2
  {
    var q, r := (x / 2) / m, (x / 2) % m;
    assert x == q * (2 * m) + (2 * r + x % 2) by {
      assert x / 2 == q * m + r;
      assert q * (2 * m) == 2 * (q * m);
    }
    DivModUnique(x, 2 * m, q, 2 * r + x % 2);
  }

  /** The low `k` bits of `x`. */
  function Low(x: nat, k: nat): (r: nat)
    ensures r <= x
  {
    if k == 0 then 0 else 2 * Low(x / 2, k - 1) + x % 2
  }

  lemma {:induction false} LowIsMod(x: nat, k: nat)
    ensures Low(x, k) == x % Pow2(k)
  {
    if k > 0 {
      LowIsMod(x / 2, k - 1);
      ModDouble(x, Pow2(k - 1));
    }
  }

  lemma {:induction false} LowAll(x: nat, k: nat)
    requires x < Pow2(k)
    ensures Low(x, k) == x
  {
    if k > 0 {
      LowAll(x / 2, k - 1);
    }
  }

  lemma {:induction false} AndStep(x: nat, y: nat, h: nat, g: nat, a: nat, b: nat)
    requires x == 2 * h + a && y == 2 * g + b && a < 2 && b < 2
    ensures And(x, y) == 2 * And(h, g) + (if a == 1 && b == 1 then 1 else 0)
  {
    assert x / 2 == h && y / 2 == g && x % 2 == a && y % 2 == b;
  }

  lemma {:induction false} AndLowMask(x: nat, k: nat)
    ensures And(x, Pow2(k) - 1) == Low(x, k)
  {
    if k > 0 {
      AndLowMask(x / 2, k - 1);
      AndStep(x, Pow2(k) - 1, x / 2, Pow2(k - 1) - 1, x % 2, 1);
    }
  }

  /** Masking with `2^k - 1` is the remainder. */
  lemma {:induction false} AndMask(x: nat, k: nat)
    ensures And(x, Pow2(k) - 1) == x % Pow2(k)
  {
    AndLowMask(x, k);
    LowIsMod(x, k);
  }

  lemma {:induction false} AndHighMask(x: nat, w: nat, k: nat)
    requires k <= w && x < Pow2(w)
    ensures Pow2(k) <= Pow2(w) && And(x, Pow2(w) - Pow2(k)) == x - Low(x, k)
    decreases k
  {
    if k == 0 {
      AndAll(x, w);
    } else {
      Halved(x, w, k);
      AndHighMask(x / 2, w - 1, k - 1);
      HighStep(x, w, k);
    }
  }

  lemma {:induction false} AndAll(x: nat, w: nat)
    requires x < Pow2(w)
    ensures Pow2(0) <= Pow2(w) && And(x, Pow2(w) - Pow2(0)) == x - Low(x, 0)
  {
    AndLowMask(x, w);
    LowAll(x, w);
  }

  lemma {:induction false} HighStep(x: nat, w: nat, k: nat)
    requires 0 < k <= w && x < Pow2(w) && Pow2(k - 1) <= Pow2(w - 1)
    requires And(x / 2, Pow2(w - 1) - Pow2(k - 1)) == x / 2 - Low(x / 2, k - 1)
    ensures Pow2(k) <= Pow2(w) && And(x, Pow2(w) - Pow2(k)) == x - Low(x, k)
  {
    Halved(x, w, k);
    AndEven(x, Pow2(w - 1) - Pow2(k - 1), Low(x / 2, k - 1));
  }

  lemma {:induction false} Halved(x: nat, w: nat, k: nat)
    requires 0 < k <= w && x < Pow2(w)
    ensures x / 2 < Pow2(w - 1) && Pow2(w) - Pow2(k) == 2 * (Pow2(w - 1) - Pow2(k - 1))
  {
  }

  lemma {:induction false} AndEven(x: nat, g: nat, low: nat)
    requires low <= x / 2 && And(x / 2, g) == x / 2 - low
    ensures And(x, 2 * g) == x - (2 * low + x % 2)
  {
    AndStep(x, 2 * g, x / 2, g, x % 2, 0);
  }

  /** Masking with `~(2^k - 1)`, taken at width `w`, clears the low `k` bits. */
  lemma {:induction false} AndInvertedMask(x: nat, w: nat, k: nat)
    requires k <= w && x < Pow2(w)
    ensures Pow2(k) <= Pow2(w) && And(x, Pow2(w) - Pow2(k)) == x - x % Pow2(k)
  {
    AndHighMask(x, w, k);
    LowIsMod(x, k);
  }

  lemma {:induction false} Pow2Mono(i: nat, j: nat)
    requires i <= j
    ensures Pow2(i) <= Pow2(j)
    ensures i < j ==> 2 * Pow2(i) <= Pow2(j)
    decreases j
  {
    if i < j {
      Pow2Mono(i, j - 1);
      assert Pow2(j) == 2 * Pow2(j - 1);
    }
  }

  /** `x % a == 0`, in a form that keeps remainders out of larger proofs. */
  predicate Multiple(x: nat, a: nat)
    requires a > 0
  {
    x == 0 || (x >= a && Multiple(x - a, a))
  }

  lemma {:induction false} MultipleIsMod(x: nat, a: nat)
    requires a > 0
    ensures Multiple(x, a) <==> x % a == 0
  {
    if x >= a {
      MultipleIsMod(x - a, a);
      DivModUnique(x, a, (x - a) / a + 1, (x - a) % a);
    }
  }

  /** Two multiples of `a` that are less than `a` apart. */
  lemma {:induction false} MultipleGap(x: nat, y: nat, a: nat)
    requires a > 0 && Multiple(x, a) && Multiple(y, a) && x < y + a
    ensures x <= y
  {
    if x > 0 && y > 0 {
      MultipleGap(x - a, y - a, a);
    }
  }

  lemma {:induction false} RoundDown(x: nat, a: nat)
    requires a > 0
    ensures Multiple(x - x % a, a)
    ensures (x / a) * a == x - x % a
  {
    DivModUnique(x - x % a, a, x / a, 0);
    MultipleIsMod(x - x % a, a);
  }

  lemma {:induction false} Pow2Exponent(k: nat, w: nat)
    requires Pow2(k) <= Pow2(w)
    ensures k <= w
  {
    if k > w {
      Pow2Mono(w, k);
    }
  }

  lemma {:induction false} AlignAtWidth(x: nat, w: nat, k: nat)
    requires k <= w && x + Pow2(k) <= Pow2(w)
    ensures Pow2(k) <= Pow2(w)
    ensures x <= And(x + (Pow2(k) - 1), Pow2(w) - Pow2(k)) < x + Pow2(k)
    ensures Multiple(And(x + (Pow2(k) - 1), Pow2(w) - Pow2(k)), Pow2(k))
  {
    Pow2Mono(k, w);
    AndInvertedMask(x + Pow2(k) - 1, w, k);
    RoundDown(x + Pow2(k) - 1, Pow2(k));
  }

  /** `ALIGN` rounds up to the next multiple of a power of two. */
  lemma {:induction false} AlignRoundsUp(x: nat, a: nat, k: nat)
    requires a == Pow2(k) && x + a <= TWO_64
    ensures x <= Align(x, a) < x + a && Multiple(Align(x, a), a)
  {
    var w := Width64();
    Pow2Exponent(k, w);
    AlignAtWidth(x, w, k);
  }

  /** `x & (x - 1)` halves with an even `x` and keeps an odd `x` but for its low bit. */
  lemma {:induction false} AndPredecessor(x: nat)
    requires x > 0
    ensures And(x, x - 1) == if x % 2 == 0 then 2 * And(x / 2, x / 2 - 1) else x - 1
  {
    if x % 2 == 1 {
      AndStep(x, x - 1, x / 2, x / 2, 1, 0);
      AndSelf(x / 2);
    } else {
      AndStep(x, x - 1, x / 2, x / 2 - 1, 0, 1);
    }
  }

  lemma {:induction false} PowersPass(k: nat)
    ensures And(Pow2(k), Pow2(k) - 1) == 0
  {
    AndPredecessor(Pow2(k));
    if k > 0 {
      PowersPass(k - 1);
    }
  }

  lemma {:induction false} OnlyPowersPass(x: nat) returns (k: nat)
    requires x > 0 && And(x, x - 1) == 0
    ensures x == Pow2(k)
  {
    AndPredecessor(x);
    if x % 2 == 1 {
      k := 0;
    } else {
      k := OnlyPowersPass(x / 2);
      k := k + 1;
    }
  }

  /** The test `x != 0 && (x & (x - 1)) == 0` accepts exactly the powers of two. */
  lemma {:induction false} PowerOfTwoTest(x: nat)
    requires x > 0
    ensures And(x, x - 1) == 0 <==> exists k: nat :: x == Pow2(k)
  {
    if And(x, x - 1) == 0 {
      var k := OnlyPowersPass(x);
    }
    if k: nat :| x == Pow2(k) {
      PowersPass(k);
    }
  }

  lemma {:induction false} AndSelf(x: nat)
    ensures And(x, x) == x
  {
    if x > 0 {
      AndSelf(x / 2);
      AndStep(x, x, x / 2, x / 2, x % 2, x % 2);
    }
  }

  /** A right shift divides. */
  lemma {:induction false} ShrIsDiv(x: nat, k: nat)
    ensures Shr(x, k) == x / Pow2(k)
  {
    if k > 0 {
      ShrIsDiv(x / 2, k - 1);
      HalfThen(x, Pow2(k - 1));
    }
  }

  lemma {:induction false} HalfThen(x: nat, m: nat)
    requires m > 0
    ensures x / 2 / m == x / (2 * m)
  {
    var q, r := x / 2 / m, x / 2 % m;
    assert x == q * (2 * m) + (2 * r + x % 2) by {
      assert x / 2 == q * m + r;
      assert q * (2 * m) == 2 * (q * m);
    }
    DivModUnique(x, 2 * m, q, 2 * r + x % 2);
  }
}
