/** Python's `round(n / d, 2)` for the ratios the source rounds, as integer hundredths. */
module Decimal {

  /** `round(n / d, 2)` in hundredths: 100 * n / d rounded half to even. */
  function RoundHundredths(n: nat, d: nat): nat
    requires d > 0
  {
    RoundQuotient(100 * n, d, 0)
  }

  /** `q` plus `a / d` rounded half to even, by repeated subtraction of `d`. */
  function RoundQuotient(a: nat, d: nat, q: nat): nat
    requires d > 0
    decreases a
  {
    if a >= d then RoundQuotient(a - d, d, q + 1)
    else if 2 * a > d || (2 * a == d && q % 2 == 1) then q + 1 else q
  }

  /** The rounding is decided by the remainder and the parity of the quotient. */
  lemma {:induction false} RoundQuotientSplit(a: nat, d: nat, q: nat)
    requires d > 0
    ensures RoundQuotient(a, d, q) ==
      var (e, r) := DivMod(a, d);
      if 2 * r > d || (2 * r == d && (q + e) % 2 == 1) then q + e + 1 else q + e
    decreases a
  {
    if a >= d {
      RoundQuotientSplit(a - d, d, q + 1);
    }
  }

  /** A ratio of at most 1 rounds to at most 1.00; 0 and 1 round to themselves. */
  lemma RoundHundredthsBounds(n: nat, d: nat)
    requires d > 0
    ensures n <= d ==> RoundHundredths(n, d) <= 100
    ensures n == 0 ==> RoundHundredths(n, d) == 0
    ensures n == d ==> RoundHundredths(n, d) == 100
  {
    DivModSpec(100 * n, d);
    RoundQuotientSplit(100 * n, d, 0);
    var (q, rem) := DivMod(100 * n, d);
    QuotientBounds(n, d, q, rem);
  }

  /** Quotient and remainder of `a` by `d`, by repeated subtraction. */
  ghost function DivMod(a: nat, d: nat): (nat, nat)
    requires d > 0
    decreases a
  {
    if a < d then (0, a) else var (q, r) := DivMod(a - d, d); (q + 1, r)
  }

  /** `DivMod` is Euclidean division: `a == q * d + r` with `0 <= r < d`. */
  lemma {:induction false} DivModSpec(a: nat, d: nat)
    requires d > 0
    ensures DivMod(a, d).0 * d + DivMod(a, d).1 == a && DivMod(a, d).1 < d
    decreases a
  {
    if a >= d {
      DivModSpec(a - d, d);
      var (q, r) := DivMod(a - d, d);
      assert (q + 1) * d == q * d + d;
    }
  }

  /** `r` hundredths is the hundredth nearest to `n / d`: within half a hundredth. */
  predicate NearestHundredth(r: nat, n: nat, d: nat) {
    (2 * r - 1) * d <= 200 * n <= (2 * r + 1) * d
  }

  /** The result is the integer nearest to 100 * n / d, and on a tie the even one. */
  lemma RoundHundredthsNearest(n: nat, d: nat)
    requires d > 0
    ensures NearestHundredth(RoundHundredths(n, d), n, d)
    ensures (200 * n == (2 * RoundHundredths(n, d) + 1) * d || 200 * n == (2 * RoundHundredths(n, d) - 1) * d) ==>
      RoundHundredths(n, d) % 2 == 0
  {
    var (q, rem) := DivMod(100 * n, d);
    DivModSpec(100 * n, d);
    RoundQuotientSplit(100 * n, d, 0);
    Nearest(n, d, q, rem, RoundHundredths(n, d));
  }

  lemma QuotientBounds(n: nat, d: nat, q: int, rem: int)
    requires d > 0 && 100 * n == q * d + rem && 0 <= rem < d
    ensures q >= 0
    ensures n <= d ==> q < 100 || (q == 100 && rem == 0)
    ensures n == 0 ==> q == 0 && rem == 0
    ensures n == d ==> q == 100 && rem == 0
  {
    if q < 0 {
      MulNeg(q, d);
    }
    if n <= d && q > 100 {
      MulMono(101, q, d);
    }
    if n <= d && q == 100 {
      assert rem == 100 * n - 100 * d;
    }
    if n == 0 && q > 0 {
      MulMono(1, q, d);
    }
    if n == d && q < 100 {
      MulMono(q, 99, d);
    }
  }

  lemma MulNeg(q: int, d: int)
    requires q < 0 && d > 0
    ensures q * d <= -d
  {
  }

  lemma MulMono(a: int, b: int, d: int)
    requires a <= b && d > 0
    ensures a * d <= b * d
  {
  }

  lemma Nearest(n: nat, d: nat, q: int, rem: int, r: int)
    requires d > 0 && 100 * n == q * d + rem && 0 <= rem < d
    requires r == if 2 * rem > d || (2 * rem == d && q % 2 == 1) then q + 1 else q
    ensures (2 * r - 1) * d <= 200 * n <= (2 * r + 1) * d
    ensures (200 * n == (2 * r + 1) * d || 200 * n == (2 * r - 1) * d) ==> r % 2 == 0
  {
    var p := q * d;
    assert (2 * r - 1) * d == 2 * (r * d) - d;
    assert (2 * r + 1) * d == 2 * (r * d) + d;
    if r == q + 1 {
      assert r * d == p + d;
    }
  }
}
