/** The timer callback of the LED clock: once per tick it lights exactly one
    digit of the multiplexed display with the segment pattern of the digit
    that belongs there, then advances the shared tick counter. */
module LedClock {
  import opened Multiplex
  import opened Segments
  import opened Gpio

  /** Output line of the first digit-select line; eight follow in a row. */
  const FirstDigGpio: bv5 := 10
  /** Output line of segment A; the segment lines follow in a row. */
  const FirstSegGpio: bv5 := 2

  /** The eight digit-select lines. */
  const DigitMask: bv32 := 0xff << FirstDigGpio
  /** The eight segment lines (A to G, then one line the patterns never set). */
  const SegmentMask: bv32 := 0xff << FirstSegGpio

  /** The segment lines requested at tick t. */
  function SegmentLines(t: nat): (r: bv32)
    ensures r & !SegmentMask == 0
  {
    Pattern(DigitValue(t)) << FirstSegGpio
  }

  /** The digit-select line requested at tick t. */
  function DigitLine(t: nat): (r: bv32)
    ensures r & !DigitMask == 0
  {
    (1 << PinIndex(t)) << FirstDigGpio
  }

  /** The output latch after the tick at counter t, from latch o before it:
      the display lines carry the tick's request, every other line keeps its
      level. */
  function Frame(o: bv32, t: nat): (r: bv32)
    ensures r & !(DigitMask | SegmentMask) == o & !(DigitMask | SegmentMask)
    ensures r & SegmentMask == SegmentLines(t)
    ensures r & DigitMask == DigitLine(t)
  {
    (o & !(DigitMask | SegmentMask)) | SegmentLines(t) | DigitLine(t)
  }

  /** The callback's three masked writes (clear the digit-select lines, put
      the segment lines, put the digit-select lines) leave the display lines
      at the requested levels and every other line untouched. */
  lemma MaskedWritesCompose(o: bv32, seg: bv32, dig: bv32)
    requires seg & !SegmentMask == 0 && dig & !DigitMask == 0
    ensures PutMasked(PutMasked(ClrMask(o, DigitMask), SegmentMask, seg), DigitMask, dig)
      == (o & !(DigitMask | SegmentMask)) | seg | dig
  {
  }

  /** After the clear, whatever the segment write puts, every digit-select
      line stays off and no line outside the segment lines changes, so no
      digit is lit while its segments change. */
  lemma DarkWhileSegmentsChange(o: bv32, seg: bv32)
    ensures PutMasked(ClrMask(o, DigitMask), SegmentMask, seg) & DigitMask == 0
    ensures PutMasked(ClrMask(o, DigitMask), SegmentMask, seg) & !(DigitMask | SegmentMask)
      == o & !(DigitMask | SegmentMask)
  {
    assert DigitMask & SegmentMask == 0;
    ClearThenPut(o, DigitMask, SegmentMask, seg);
  }

  /** Exactly one digit-select line is on after a tick: the one for the
      tick's pin index. */
  lemma OneDigitLine(o: bv32, t: nat)
    ensures forall k: bv5 :: FirstDigGpio <= k < FirstDigGpio + 8 ==>
      (LineOn(Frame(o, t), k) <==> k == FirstDigGpio + PinIndex(t) as bv5)
  {
  }

  /** After a tick the segment lines draw the glyph of the tick's digit, and
      the eighth segment line is off. */
  lemma SegmentLinesDrawDigit(o: bv32, t: nat, s: Segment)
    ensures LineOn(Frame(o, t), FirstSegGpio + Bit(s) as bv5) <==> s in Glyph(DigitValue(t))
    ensures !LineOn(Frame(o, t), FirstSegGpio + 7)
  {
  }

  /** Lines outside the display keep their level. */
  lemma OtherLinesKept(o: bv32, t: nat, k: bv5)
    requires k < FirstSegGpio || FirstDigGpio + 8 <= k
    ensures LineOn(Frame(o, t), k) == LineOn(o, k)
  {
  }

  /** The display lines depend on the tick counter alone, so the same
      counter always makes the same request, and repeating it changes
      nothing. */
  lemma FrameDependsOnTickOnly(o1: bv32, o2: bv32, t: nat)
    ensures Frame(o1, t) & (DigitMask | SegmentMask) == Frame(o2, t) & (DigitMask | SegmentMask)
    ensures Frame(Frame(o1, t), t) == Frame(o1, t)
  {
  }

  /** The shared state of the callback: the tick counter it is handed and
      the output latch it writes. */
  class Clock {
    var tick: int
    var gpioOut: bv32

    /** The counter stays within its wrap bound. */
    ghost predicate Valid()
      reads this
    {
      0 <= tick < Wrap
    }

    /** The counter starts at 0; the latch holds whatever set-up left. */
    constructor (initialOut: bv32)
      ensures Valid()
      ensures tick == 0 && gpioOut == initialOut
    {
      tick := 0;
      gpioOut := initialOut;
    }

    /** One timer tick: clear the digit-select lines, drive the segment
        lines, select one digit, advance the counter; always asks the timer
        to keep repeating. The ghost results are the latch after the clear
        and after the segment write; DarkWhileSegmentsChange shows that no
        digit-select line is on in either. */
    method TickCallback() returns (keepRepeating: bool, ghost afterClear: bv32, ghost afterSegments: bv32)
      requires Valid()
      modifies this
      ensures Valid()
      ensures tick == NextTick(old(tick))
      ensures afterClear == ClrMask(old(gpioOut), DigitMask)
      ensures afterSegments == PutMasked(afterClear, SegmentMask, SegmentLines(old(tick)))
      ensures gpioOut == Frame(old(gpioOut), old(tick))
      ensures keepRepeating
    {
      var count := tick / RoundPerCount / DigitsNum;
      var digitIdx := tick % DigitsNum;
      var digitValue := (count / Dividers[digitIdx]) % 10;
      var digitPinIdx := digitIdx + (count % 2) * 4;

      gpioOut := ClrMask(gpioOut, DigitMask);
      afterClear := gpioOut;
      gpioOut := PutMasked(gpioOut, SegmentMask, Bits[digitValue] << FirstSegGpio);
      afterSegments := gpioOut;
      gpioOut := PutMasked(gpioOut, DigitMask, (1 << digitPinIdx) << FirstDigGpio);

      assert digitValue == DigitValue(old(tick));
      assert digitPinIdx == PinIndex(old(tick));
      assert Bits[digitValue] << FirstSegGpio == SegmentLines(old(tick));
      assert (1 << digitPinIdx) << FirstDigGpio == DigitLine(old(tick));
      MaskedWritesCompose(old(gpioOut), SegmentLines(old(tick)), DigitLine(old(tick)));
      tick := (tick + 1) % (DigitsNum * RoundPerCount * 10000);
      keepRepeating := true;
    }
  }
}
