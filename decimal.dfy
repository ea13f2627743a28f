/** Positional decimal notation, least significant digit first.

    This is the reference the clock's divisor table is checked against:
    the digit a display position shows must be the digit of the displayed
    value at that position, and the positions together must spell the value. */
module Decimal {

  /** 10 raised to the k-th power. */
  function Pow10(k: nat): (p: nat)
    ensures p >= 1
  {
    if k == 0 then 1 else 10 * Pow10(k - 1)
  }

  /** The k lowest decimal digits of n, least significant first. */
  function Digits(n: nat, k: nat): (ds: seq<nat>)
    ensures |ds| == k
    ensures forall i :: 0 <= i < k ==> ds[i] < 10
  {
    if k == 0 then [] else [n % 10] + Digits(n / 10, k - 1)
  }

  /** The number whose decimal digits, least significant first, are ds. */
  function FromDigits(ds: seq<nat>): nat
  {
    if ds == [] then 0 else ds[0] + 10 * FromDigits(ds[1..])
  }

  /** A positive multiple of d is at least d. */
  lemma MulAtLeast(d: nat, x: nat)
    requires x >= 1
    ensures d * x >= d
  {
    assert d * x == d + d * (x - 1);
  }

  /** Multiplication by a natural number is monotone. */
  lemma MulMonotone(d: nat, x: nat, y: nat)
    requires x <= y
    ensures d * x <= d * y
  {
    assert d * y == d * x + d * (y - x);
  }

  /** Quotient and remainder are unique. */
  lemma DivUnique(n: nat, d: nat, q: nat, r: nat)
    requires d > 0 && r < d && n == d * q + r
    ensures n / d == q && n % d == r
  {
    var q', r' := n / d, n % d;
    if q < q' {
      assert d * q' == d * q + d * (q' - q);
      MulAtLeast(d, q' - q);
    } else if q > q' {
      assert d * q == d * q' + d * (q - q');
      MulAtLeast(d, q - q');
    }
  }

  /** The remainder of the inner division, scaled back, stays below the
      product of the divisors. */
  lemma ScaledRemainder(a: nat, b: nat, r2: nat, r: nat)
    requires r2 < b && r < a
    ensures a * r2 + r < a * b
  {
    MulMonotone(a, r2, b - 1);
    assert a * b == a * (b - 1) + a;
  }

  /** a * (b * x + y) regrouped around the product a * b. */
  lemma Regroup(a: nat, b: nat, x: nat, y: nat)
    ensures a * (b * x + y) == (a * b) * x + a * y
  {
    assert a * (b * x + y) == a * (b * x) + a * y;
  }

  /** Dividing twice is dividing by the product. */
  lemma DivDiv(n: nat, a: nat, b: nat)
    requires a > 0 && b > 0
    ensures n / a / b == n / (a * b)
  {
    var q, r := n / a, n % a;
    var q2, r2 := q / b, q % b;
    assert q == b * q2 + r2;
    Regroup(a, b, q2, r2);
    ScaledRemainder(a, b, r2, r);
    DivUnique(n, a * b, q2, a * r2 + r);
  }

  /** The i-th digit of the expansion is the classic (n / 10^i) % 10. */
  lemma {:induction false} DigitAt(n: nat, k: nat, i: nat)
    requires i < k
    ensures Digits(n, k)[i] == (n / Pow10(i)) % 10
  {
    if i > 0 {
      DigitAt(n / 10, k - 1, i - 1);
      DivDiv(n, 10, Pow10(i - 1));
    }
  }

  /** Every number below 10^k is spelled exactly by its k lowest digits. */
  lemma {:induction false} FromDigitsOfDigits(n: nat, k: nat)
    requires n < Pow10(k)
    ensures FromDigits(Digits(n, k)) == n
  {
    if k > 0 {
      assert n / 10 < Pow10(k - 1);
      FromDigitsOfDigits(n / 10, k - 1);
    }
  }

  /** Conversely, k decimal digits denote a number below 10^k whose expansion
      gives them back: the representation is unique. */
  lemma {:induction false} DigitsOfFromDigits(ds: seq<nat>)
    requires forall i :: 0 <= i < |ds| ==> ds[i] < 10
    ensures FromDigits(ds) < Pow10(|ds|)
    ensures Digits(FromDigits(ds), |ds|) == ds
  {
    if ds != [] {
      var n := FromDigits(ds);
      DigitsOfFromDigits(ds[1..]);
      DivUnique(n, 10, FromDigits(ds[1..]), ds[0]);
      assert Digits(n, |ds|) == [ds[0]] + ds[1..];
    }
  }
}
