/** The multiplex scheduler's arithmetic: what one timer tick derives from
    the shared tick counter, and how the counter advances.

    The counter is a C `int` that starts at 0 and only ever takes values
    below Wrap, so every operand here is non-negative; on non-negative
    operands C's truncating `/` and `%` agree with Dafny's. */
module Multiplex {
  import Decimal

  /** Number of digit positions refreshed in round-robin order. */
  const DigitsNum: nat := 4
  /** Full refresh rounds shown before the displayed value advances. */
  const RoundPerCount: nat := 25
  /** Ticks for which one displayed value is held. */
  const TicksPerCount: nat := RoundPerCount * DigitsNum
  /** The counter runs modulo Wrap. */
  const Wrap: nat := DigitsNum * RoundPerCount * 10000

  /** The positional divisor table, indexed by the digit slot. */
  const Dividers: seq<nat> := [1, 10, 100, 1000]

  /** The value on display at tick t: the number of whole count periods
      that have elapsed. */
  function Count(t: nat): (c: nat)
    ensures c * TicksPerCount <= t < (c + 1) * TicksPerCount
  {
    Decimal.DivDiv(t, RoundPerCount, DigitsNum);
    t / RoundPerCount / DigitsNum
  }

  /** The digit position refreshed at tick t. */
  function Slot(t: nat): (s: nat)
    ensures s < DigitsNum && s < |Dividers|
    ensures (t - s) % DigitsNum == 0
  {
    t % DigitsNum
  }

  /** The decimal digit shown at tick t, always a valid index of the
      segment table. */
  function DigitValue(t: nat): (d: nat)
    ensures d < 10
  {
    (Count(t) / Dividers[Slot(t)]) % 10
  }

  /** The digit-select line lit at tick t: slot s of the lower bank of four
      lines while the displayed value is even, of the upper bank while it is
      odd. */
  function PinIndex(t: nat): (p: nat)
    ensures p < 2 * DigitsNum
    ensures p % DigitsNum == Slot(t)
    ensures p < DigitsNum <==> Count(t) % 2 == 0
  {
    Slot(t) + (Count(t) % 2) * 4
  }

  /** The counter after one tick. */
  function NextTick(t: nat): (n: nat)
    ensures n < Wrap
    ensures t + 1 < Wrap ==> n == t + 1
    ensures t + 1 == Wrap ==> n == 0
  {
    (t + 1) % Wrap
  }

  /** The counter after n ticks from start-up. */
  function Ticks(n: nat): (t: nat)
  {
    if n == 0 then 0 else NextTick(Ticks(n - 1))
  }

  /** While the counter is in range the displayed value has at most four
      decimal digits, which the four divisors cover. */
  lemma CountFitsDisplay(t: nat)
    requires t < Wrap
    ensures Count(t) < Decimal.Pow10(DigitsNum)
    ensures Count(t) < 10000
  {
  }

  /** The displayed value never decreases as the counter grows. */
  lemma CountMonotone(t1: nat, t2: nat)
    requires t1 <= t2
    ensures Count(t1) <= Count(t2)
  {
  }

  /** One tick advances the displayed value by at most one, exactly at the
      start of a count period, and resets it when the counter wraps. */
  lemma CountStep(t: nat)
    requires t < Wrap
    ensures t + 1 == Wrap ==> NextTick(t) == 0 && Count(NextTick(t)) == 0
    ensures t + 1 < Wrap ==> Count(NextTick(t)) == if NextTick(t) % TicksPerCount == 0 then Count(t) + 1 else Count(t)
  {
  }

  /** The digit shown is the digit of the displayed value at the position
      being refreshed. */
  lemma {:induction false} DigitValueIsDecimalDigit(t: nat)
    ensures DigitValue(t) == Decimal.Digits(Count(t), DigitsNum)[Slot(t)]
  {
    var s := Slot(t);
    assert Dividers[s] == Decimal.Pow10(s) by {
      assert Decimal.Pow10(1) == 10;
      assert Decimal.Pow10(2) == 100;
      assert Decimal.Pow10(3) == 1000;
    }
    Decimal.DigitAt(Count(t), DigitsNum, s);
  }

  /** The ticks of one refresh round share their count period. */
  lemma SameRound(t: nat, u: nat)
    requires t % DigitsNum == 0 && t <= u < t + DigitsNum
    ensures Slot(u) == u - t && Count(u) == Count(t)
  {
    var c, m := Count(t), t / DigitsNum;
    assert t == DigitsNum * m;
    assert c * TicksPerCount == DigitsNum * (c * RoundPerCount);
    assert m < c * RoundPerCount + RoundPerCount;
    assert u < (c + 1) * TicksPerCount;
    Decimal.DivUnique(u, DigitsNum, m, u - t);
  }

  /** A refresh round (DigitsNum ticks from a multiple of DigitsNum)
      visits the slots in order, holds the displayed value, and shows its
      decimal digits, which together spell that value. */
  lemma {:induction false} RoundShowsCount(t: nat)
    requires t < Wrap && t % DigitsNum == 0
    ensures forall u: nat :: t <= u < t + DigitsNum ==>
      Slot(u) == u - t && Count(u) == Count(t) &&
      DigitValue(u) == Decimal.Digits(Count(t), DigitsNum)[u - t]
    ensures Decimal.FromDigits(Decimal.Digits(Count(t), DigitsNum)) == Count(t)
  {
    forall u: nat | t <= u < t + DigitsNum
      ensures Slot(u) == u - t && Count(u) == Count(t) &&
        DigitValue(u) == Decimal.Digits(Count(t), DigitsNum)[u - t]
    {
      SameRound(t, u);
      DigitValueIsDecimalDigit(u);
    }
    CountFitsDisplay(t);
    Decimal.FromDigitsOfDigits(Count(t), DigitsNum);
  }

  /** The digits a refresh round shows are the only four decimal digits
      that spell the displayed value. */
  lemma {:induction false} RoundDigitsUnique(t: nat, ds: seq<nat>)
    requires |ds| == DigitsNum
    requires forall i :: 0 <= i < |ds| ==> ds[i] < 10
    requires Decimal.FromDigits(ds) == Count(t)
    ensures ds == Decimal.Digits(Count(t), DigitsNum)
  {
    Decimal.DigitsOfFromDigits(ds);
  }

  /** After n ticks from start-up the counter holds n modulo Wrap. */
  lemma {:induction false} TicksWrap(n: nat)
    ensures Ticks(n) == n % Wrap
  {
    if n > 0 {
      TicksWrap(n - 1);
    }
  }

  /** After n ticks from start-up the display shows the number of elapsed
      count periods, modulo 10000. */
  lemma {:induction false} DisplayedAfter(n: nat)
    ensures Count(Ticks(n)) == (n / TicksPerCount) % 10000
  {
    TicksWrap(n);
    var q := n / TicksPerCount;
    var r := n % TicksPerCount;
    assert n == TicksPerCount * (q / 10000 * 10000 + q % 10000) + r;
    assert n == Wrap * (q / 10000) + (TicksPerCount * (q % 10000) + r);
    Decimal.DivUnique(n, Wrap, q / 10000, TicksPerCount * (q % 10000) + r);
    Decimal.DivUnique(n % Wrap, TicksPerCount, q % 10000, r);
  }

  /** The concrete cases at start-up, one count period in, and at the wrap. */
  lemma Scenarios()
    ensures Count(0) == 0 && Slot(0) == 0 && DigitValue(0) == 0 && PinIndex(0) == 0
    ensures Count(100) == 1 && Slot(100) == 0 && DigitValue(100) == 1 && PinIndex(100) == 4
    ensures NextTick(Wrap - 1) == 0 && Count(NextTick(Wrap - 1)) == 0
  {
  }
}
