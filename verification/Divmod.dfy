/**
 The 32-bit division helpers of the ARM run-time ABI: shift-subtract division of
 unsigned integers, and the signed forms that negate around it.
 */
module Divmod {
  import opened Bits
  import opened Bytes

  const TWO_31: int := 0x8000_0000
  const TWO_32: int := 0x1_0000_0000

  type int32 = x: int | -0x8000_0000 <= x < 0x8000_0000 witness 0

  /** `struct qr`, with the flags that ask for negation. */
  class Qr {
    var q: uint32
    var r: uint32
    var negateQ: bool
    var negateR: bool

    constructor ()
      ensures q == 0 && r == 0 && !negateQ && !negateR
    {
      q, r, negateQ, negateR := 0, 0, false, false;
    }
  }

  /** `-x` on an unsigned 32-bit integer. */
  function Negate(x: uint32): uint32 {
    if x == 0 then 0 else TWO_32 - x
  }

  /** An unsigned value read as a signed one. */
  function AsSigned(x: uint32): int32 {
    if x < TWO_31 then x else x - TWO_32
  }

  function Abs(x: int): nat {
    if x < 0 then -x else x
  }

  /** Long division: quotient and remainder are unique. */
  ghost predicate Divides(n: nat, p: nat, q: nat, r: nat) {
    n == q * p + r && r < p
  }

  lemma {:induction false} DivisionUnique(n: nat, p: nat, q: nat, r: nat)
    requires Divides(n, p, q, r)
    ensures q == n / p && r == n % p
  {
    DivModUnique(n, p, q, r);
  }

  /** One bit of the quotient: `n0` is `q` double steps and `n`, then `q'` single ones. */
  lemma {:induction false} ShiftStep(n0: uint32, p: nat, q: nat, n: nat)
    requires n0 == q * (2 * p) + n && n < 2 * p
    ensures n >= p ==> Divides(n0, p, 2 * q + 1, n - p) && 2 * q + 1 <= n0
    ensures n < p ==> Divides(n0, p, 2 * q, n) && 2 * q <= n0
  {
    var m := 2 * q;
    assert q * (2 * p) == m * p;
    assert (m + 1) * p == m * p + p;
    AtLeast(m, p);
  }

  lemma {:induction false} AtLeast(m: nat, p: nat)
    requires p > 0
    ensures m * p >= m
  {
  }

  /** On the way up: the divisor and the step counter are shifted together. */
  ghost predicate Up(d: nat, k: nat, p: nat, i: nat) {
    i == Pow2(k) && p == d * Pow2(k)
  }

  lemma {:induction false} StepUp(d: nat, k: nat, p: nat, i: nat)
    requires Up(d, k, p, i) && d > 0
    ensures Up(d, k + 1, 2 * p, 2 * i) && i <= p
  {
    AtLeast(Pow2(k), d);
  }

  /** On the way down: `q` counts steps of twice the shifted divisor. */
  ghost predicate Down(n0: nat, d: nat, k: nat, p: nat, i: nat, q: nat, n: nat) {
    Up(d, k, p, i) && n0 == q * (2 * p) + n && n < 2 * p
  }

  lemma {:induction false} HalfUp(d: nat, k: nat, p: nat, i: nat)
    requires Up(d, k, p, i)
    ensures k > 0 ==> Up(d, k - 1, p / 2, i / 2) && p == 2 * (p / 2)
    ensures k == 0 ==> p == d && i == 1
    ensures i > 0
  {
    if k > 0 {
      assert p == 2 * (d * Pow2(k - 1));
    }
  }

  lemma {:induction false} StepDown(n0: uint32, d: nat, k: nat, p: nat, i: nat, q: nat, n: nat)
    requires Down(n0, d, k, p, i, q, n) && d > 0
    ensures var q', n' := if n >= p then 2 * q + 1 else 2 * q, if n >= p then n - p else n;
      && q' <= n0
      && (k > 0 ==> Down(n0, d, k - 1, p / 2, i / 2, q', n'))
      && (k == 0 ==> i == 1 && Divides(n0, d, q', n'))
  {
    ShiftStep(n0, p, q, n);
    HalfUp(d, k, p, i);
  }

  /** Shift the divisor up to full width, then subtract it on the way down. */
  method DivisionQr(numerator: uint32, denominator: uint32, qr: Qr)
    modifies qr`q, qr`r
    ensures denominator == 0 ==> qr.r == 0xFFFF_FFFF && qr.q == old(qr.q)
    ensures denominator > 0 ==> Divides(numerator, denominator, qr.q, qr.r)
  {
    if denominator == 0 {
      qr.r := 0xFFFF_FFFF;
      return;
    }
    var n: uint32, p: uint32, i: uint32, q: uint32 := numerator, denominator, 1, 0;
    ghost var k: nat := 0;
    while p < TWO_31
      invariant 0 < p && Up(denominator, k, p, i)
      decreases TWO_32 - p
    {
      StepUp(denominator, k, p, i);
      i, p := 2 * i, 2 * p;
      k := k + 1;
    }
    while i > 0
      invariant i > 0 ==> Down(numerator, denominator, k, p, i, q, n)
      invariant i == 0 ==> Divides(numerator, denominator, q, n)
    {
      StepDown(numerator, denominator, k, p, i, q, n);
      q := 2 * q;
      if n >= p {
        n, q := n - p, q + 1;
      }
      p, i := p / 2, i / 2;
      if k > 0 {
        HalfStays(denominator, k - 1, p, i);
        k := k - 1;
      }
    }
    qr.r, qr.q := n, q;
  }

  lemma {:induction false} HalfStays(d: nat, k: nat, p: nat, i: nat)
    requires Up(d, k, p, i)
    ensures i > 0
  {
  }

  /** Division, then the negations the caller asked for. */
  method UintDivQr(numerator: uint32, denominator: uint32, qr: Qr)
    modifies qr`q, qr`r
    ensures denominator > 0 ==> exists q: uint32, r: uint32 ::
      Divides(numerator, denominator, q, r)
      && qr.q == (if qr.negateQ then Negate(q) else q) && qr.r == (if qr.negateR then Negate(r) else r)
    ensures denominator == 0 ==>
      && qr.q == (if qr.negateQ then Negate(old(qr.q)) else old(qr.q))
      && qr.r == if qr.negateR then 1 else 0xFFFF_FFFF
  {
    DivisionQr(numerator, denominator, qr);
    if qr.negateQ {
      qr.q := Negate(qr.q);
    }
    if qr.negateR {
      qr.r := Negate(qr.r);
    }
  }

  /** `__aeabi_uidivmod`; `__aeabi_uidiv` and `__aeabi_uimod` return one half of it. */
  method Uidivmod(numerator: uint32, denominator: uint32) returns (q: uint32, r: uint32)
    ensures denominator > 0 ==> q == numerator / denominator && r == numerator % denominator
    ensures denominator == 0 ==> q == 0 && r == 0xFFFF_FFFF
  {
    var qr := new Qr();
    UintDivQr(numerator, denominator, qr);
    q, r := qr.q, qr.r;
    if denominator > 0 {
      DivisionUnique(numerator, denominator, q, r);
    }
  }

  /** C division: the quotient is cut toward zero, the remainder has the numerator's sign. */
  ghost predicate Truncates(n: int, p: int, q: int, r: int) {
    n == q * p + r && Abs(r) < Abs(p) && (r > 0 ==> n > 0) && (r < 0 ==> n < 0)
  }

  /** Only one pair truncates: the quotient of the magnitudes under the right sign. */
  lemma {:induction false} TruncationUnique(n: int, p: int, q: int, r: int)
    requires Truncates(n, p, q, r)
    ensures p != 0
    ensures q == if (n < 0) == (p < 0) then Abs(n) / Abs(p) else -(Abs(n) / Abs(p))
    ensures r == if n < 0 then -(Abs(n) % Abs(p)) else Abs(n) % Abs(p)
  {
    var q' := if (n < 0) == (p < 0) then q else -q;
    assert Abs(n) == q' * Abs(p) + Abs(r) by {
      assert (-q) * p == -(q * p) && q * (-p) == -(q * p) && (-q) * (-p) == q * p;
    }
    DivModUnique(Abs(n), Abs(p), q', Abs(r));
  }

  lemma {:induction false} ProductSigns(a: int, b: int)
    ensures (-a) * b == -(a * b) && a * (-b) == -(a * b) && (-a) * (-b) == a * b
  {
  }

  lemma {:induction false} SignedValue(x: uint32, negate: bool)
    requires x < TWO_31
    ensures AsSigned(if negate then Negate(x) else x) == if negate then 0 - x else x
  {
  }

  /** Dividing the magnitudes and putting the signs back truncates. */
  lemma {:induction false} SignsTruncate(n: int, p: int, q: nat, r: nat)
    requires p != 0 && Divides(Abs(n), Abs(p), q, r)
    ensures Truncates(n, p, if n != 0 && (n < 0) != (p < 0) then 0 - q else q, if n < 0 then 0 - r else r)
    ensures q <= Abs(n) && r <= Abs(n)
  {
    AtLeast(q, Abs(p));
    ProductSigns(q, p);
    ProductSigns(q, Abs(p));
  }

  lemma {:induction false} SignsRestored(n: int32, p: int32, q: uint32, r: uint32)
    requires p != 0 && n > -TWO_31 && p > -TWO_31 && Divides(Abs(n), Abs(p), q, r)
    ensures Truncates(n, p,
      AsSigned(if n != 0 && (n < 0) != (p < 0) then Negate(q) else q), AsSigned(if n < 0 then Negate(r) else r))
  {
    SignsTruncate(n, p, q, r);
    SignedValue(q, n != 0 && (n < 0) != (p < 0));
    SignedValue(r, n < 0);
  }

  /** `__aeabi_idivmod`; `__aeabi_idiv` returns its quotient. */
  method Idivmod(numerator: int32, denominator: int32) returns (q: int32, r: int32)
    requires numerator > -0x8000_0000 && denominator > -0x8000_0000
    ensures denominator != 0 ==> Truncates(numerator, denominator, q, r)
    ensures denominator == 0 ==> q == 0 && r == if numerator < 0 then 1 else -1
  {
    var qr := new Qr();
    if (numerator < 0 && denominator > 0) || (numerator > 0 && denominator < 0) {
      qr.negateQ := true;
    }
    var n, p := numerator, denominator;
    if n < 0 {
      n := -n;
      qr.negateR := true;
    }
    if p < 0 {
      p := -p;
    }
    UintDivQr(n, p, qr);
    if denominator != 0 {
      ghost var uq: uint32, ur: uint32 :| Divides(n, p, uq, ur)
        && qr.q == (if qr.negateQ then Negate(uq) else uq) && qr.r == (if qr.negateR then Negate(ur) else ur);
      SignsRestored(numerator, denominator, uq, ur);
    }
    q, r := AsSigned(qr.q), AsSigned(qr.r);
  }
}
