# LED clock multiplexer, modelled in Dafny

The firmware drives a multiplexed 7-segment LED display from a
microcontroller. A repeating hardware timer calls `tick_callback` every
10 µs. Each call lights exactly one digit position. A shared `int` counter
`tick` is turned into:

- the displayed value (`tick / ROUND_PER_COUNT / DIGITS_NUM`);
- the digit slot being refreshed (`tick % DIGITS_NUM`);
- the decimal digit at that slot, using the divisor table `dividers`;
- the digit-select line for that slot. The parity of the displayed value
  picks either the lower or the upper bank of four lines.

The callback clears the eight digit-select lines, writes the digit's pattern
from the table `bits` to the segment lines, and sets the one digit-select
line. It then advances the counter modulo `DIGITS_NUM * ROUND_PER_COUNT * 10000`
and asks the timer to keep repeating.

The project has five modules:

- `Segments` (segments.dfy): the pattern table and the glyph each digit is
  meant to draw.
- `Decimal` (decimal.dfy): little-endian decimal expansion. It is the
  reference definition the divisor table is checked against.
- `Gpio` (gpio.dfy): the net effect of `gpio_clr_mask` and `gpio_put_masked`
  on a 32-bit output latch. Bit k of the latch is the output value of line k
  (the segment lines are inverted in hardware, so a set bit lights a segment).
- `Multiplex` (multiplex.dfy): the per-tick derivations and the counter wrap,
  as functions of the counter, with the lemmas about them.
- `LedClock` (led_clock.dfy): the line masks, the latch after one tick
  (`Frame`), and the class `Clock`. `Clock` holds the counter and the latch.
  Its method `TickCallback` performs the callback's steps in order.

The counter is a C `int`. It starts at 0 and only the callback writes it, so
it always stays in `[0, 1000000)`; `Clock.Valid()` states this. On those
non-negative values C's truncating `/` and `%` agree with Dafny's Euclidean
ones, and `tick + 1` never overflows.

## Model

| member | source | states |
|---|---|---|
| `Segments.Pattern` | firmware/led_clock/led_clock.c:40-51 | the table is only defined for the digits 0 to 9, and every pattern fits in 7 bits (below 0x80) |
| `Segments.PatternDrawsGlyph` | firmware/led_clock/led_clock.c:23-51 | with segment A at bit 0 up to G at bit 6, entry d lights exactly the segments of digit d's glyph |
| `Segments.PatternsDistinct` | firmware/led_clock/led_clock.c:40-51 | two different digits never share a pattern |
| `Gpio.ClrMask` | firmware/led_clock/led_clock.c:105 | clearing a mask clears every masked latch bit and leaves the other bits as they were |
| `Gpio.PutMasked` | firmware/led_clock/led_clock.c:108 | a masked put sets the masked latch bits to the value's bits and leaves the other bits as they were |
| `Multiplex.Count` | firmware/led_clock/led_clock.c:94 | the displayed value is the number of whole count periods (ROUND_PER_COUNT * DIGITS_NUM = 100 ticks) before the counter |
| `Multiplex.Slot` | firmware/led_clock/led_clock.c:98 | the slot is below DIGITS_NUM, so it is a valid index of `dividers`, and it is congruent to the counter modulo DIGITS_NUM |
| `Multiplex.DigitValue` | firmware/led_clock/led_clock.c:99 | the digit is in 0..9, so it is a valid index of `bits` |
| `Multiplex.PinIndex` | firmware/led_clock/led_clock.c:102 | the pin index is in 0..7 and equals the slot modulo 4; it is in the lower bank (0..3) exactly when the displayed value is even |
| `Multiplex.NextTick` | firmware/led_clock/led_clock.c:113 | the counter stays below DIGITS_NUM * ROUND_PER_COUNT * 10000; it goes up by exactly one, except from the last value, where it goes to 0 |
| `Multiplex.CountFitsDisplay` | firmware/led_clock/led_clock.c:94 | while the counter is in range, the displayed value is below 10000 = 10^DIGITS_NUM |
| `Multiplex.CountMonotone` | firmware/led_clock/led_clock.c:94 | the displayed value never decreases as the counter grows |
| `Multiplex.CountStep` | firmware/led_clock/led_clock.c:113 | one tick raises the displayed value by one exactly when a new count period starts, keeps it otherwise, and resets it to 0 at the wrap |
| `Multiplex.DigitValueIsDecimalDigit` | firmware/led_clock/led_clock.c:99 | the digit shown is the slot-th decimal digit (least significant first) of the displayed value, checked against the independent decimal expansion |
| `Multiplex.RoundShowsCount` | firmware/led_clock/led_clock.c:14-15 | one refresh round (DIGITS_NUM ticks from a multiple of DIGITS_NUM) visits slots 0..3 in order and keeps the same displayed value; the four digits it shows spell that value exactly |
| `Multiplex.RoundDigitsUnique` | firmware/led_clock/led_clock.c:53-58 | the four digits a round shows are the only four decimal digits that spell the displayed value |
| `Multiplex.TicksWrap` | firmware/led_clock/led_clock.c:113 | after n ticks from start-up the counter holds n modulo 1000000 |
| `Multiplex.DisplayedAfter` | firmware/led_clock/led_clock.c:94 | after n ticks from start-up the display shows (n / 100) modulo 10000 |
| `Multiplex.Scenarios` | firmware/led_clock/led_clock.c:94-102 | tick 0 gives value 0, slot 0, digit 0, pin 0; tick 100 gives value 1, slot 0, digit 1, pin 4; the last counter value wraps to 0, which displays 0 |
| `LedClock.SegmentLines` | firmware/led_clock/led_clock.c:108 | the shifted pattern only touches the segment lines |
| `LedClock.DigitLine` | firmware/led_clock/led_clock.c:111 | the shifted digit-select bit only touches the digit-select lines |
| `LedClock.Frame` | firmware/led_clock/led_clock.c:104-111 | after a tick the segment lines hold `bits[digit] << FIRST_SEG_GPIO`, the digit-select lines hold `(1 << pin) << FIRST_DIG_GPIO`, and every other line keeps its level |
| `LedClock.MaskedWritesCompose` | firmware/led_clock/led_clock.c:104-111 | the three masked writes, in the callback's order, produce exactly that latch |
| `LedClock.DarkWhileSegmentsChange` | firmware/led_clock/led_clock.c:104-108 | after the clear, whatever the segment write puts, no digit-select bit is set and no bit outside the segment bits changes, so the new pattern is never shown on the previous digit |
| `LedClock.OneDigitLine` | firmware/led_clock/led_clock.c:110-111 | of the eight digit-select latch bits, exactly one is set after a tick: bit FIRST_DIG_GPIO + pin index |
| `LedClock.SegmentLinesDrawDigit` | firmware/led_clock/led_clock.c:107-108 | after a tick, latch bit FIRST_SEG_GPIO + k is set exactly when segment k belongs to the glyph of the digit shown; the eighth segment bit is clear |
| `LedClock.OtherLinesKept` | firmware/led_clock/led_clock.c:104-111 | lines outside the segment and digit-select ranges keep their level across a tick |
| `LedClock.FrameDependsOnTickOnly` | firmware/led_clock/led_clock.c:104-111 | the display lines after a tick depend only on the counter, and repeating a tick's output requests changes nothing |
| `LedClock.Clock.constructor` | firmware/led_clock/led_clock.c:62 | the counter starts at 0 and satisfies the class invariant |
| `LedClock.Clock.TickCallback` | firmware/led_clock/led_clock.c:90-116 | keeps the counter within its wrap bound, moves it to `NextTick` of its old value, leaves the latch equal to `Frame` of the old latch and counter, and returns true; its ghost results are the latch after the clear (`ClrMask` of the old latch, so no digit-select bit set) and after the segment write (that latch with the tick's segment bits put), in which `DarkWhileSegmentsChange` shows no digit-select bit set |

## Left out

- `main` (firmware/led_clock/led_clock.c:64-87) is one-time hardware and stdio set-up. This includes the pin initialisation with `gpio_init_mask` and `gpio_set_dir_out_masked`, and the `gpio_set_outover` polarity inversion of the segment lines. `Clock.constructor` instead takes whatever latch value set-up left.
- Registering the timer with `add_repeating_timer_us`, its failure message and exit, and its exact-delay scheduling are calls into the Pico SDK whose timing cannot be modelled. Each timer call is one call of `TickCallback`. `Multiplex.Ticks` is a counter driven by n such calls.
- The idle loop `tight_loop_contents` does no work.
- `TICK_DURATION_US` and the real-time length of a count period are physical timing, not logic.
- The button described in the comment at lines 36-37 has no code behind it.
- Hardware registers: `gpio_clr_mask` and `gpio_put_masked` are modelled only by their net effect on the output latch. `PutMasked` is written in the toggle form `o ^ ((o ^ value) & mask)`.
- Clock.TickCallback: requires `Valid()` (the counter in `[0, 1000000)`), so it does not model a C `int` counter outside that range. Such a counter would give negative truncated quotients or overflow on `tick + 1`. The counter cannot reach such a value, because it starts at 0 and only this callback writes it.
- Segments.Pattern: requires a digit in 0..9. Indexing `bits` outside that range is undefined in C, and `Multiplex.DigitValue` proves the callback never does it.
- The counter is declared `int` at led_clock.c:62. The model uses `int`; it takes only values in `[0, 1000000)`.
