/** The segment encoder: the fixed table from a decimal digit to the
    7-bit pattern of segments to light.

    The display's segments are named as usual:

        --A--
        F   B
        --G--
        E   C
        --D--

    and segment A is bit 0 of a pattern, B bit 1, up to G at bit 6. */
module Segments {

  datatype Segment = A | B | C | D | E | F | G

  /** The bit of a pattern (and the offset of the output line) that drives s. */
  function Bit(s: Segment): (k: nat)
    ensures k < 7
  {
    match s
    case A => 0
    case B => 1
    case C => 2
    case D => 3
    case E => 4
    case F => 5
    case G => 6
  }

  /** The pattern table, indexed by the digit. */
  const Bits: seq<bv32> := [0x3f, 0x06, 0x5b, 0x4f, 0x66, 0x6d, 0x7d, 0x07, 0x7f, 0x6f]

  /** The pattern for digit d; only the digits 0 to 9 have one. */
  function Pattern(d: nat): (p: bv32)
    requires d < 10
    ensures p < 0x80
  {
    Bits[d]
  }

  /** Whether pattern p lights segment s. */
  predicate Lit(p: bv32, s: Segment)
  {
    (p >> Bit(s)) & 1 == 1
  }

  /** The glyph of each digit, as the set of segments a reader expects lit. */
  function Glyph(d: nat): set<Segment>
    requires d < 10
  {
    if d == 0 then {A, B, C, D, E, F}
    else if d == 1 then {B, C}
    else if d == 2 then {A, B, D, E, G}
    else if d == 3 then {A, B, C, D, G}
    else if d == 4 then {B, C, F, G}
    else if d == 5 then {A, C, D, F, G}
    else if d == 6 then {A, C, D, E, F, G}
    else if d == 7 then {A, B, C}
    else if d == 8 then {A, B, C, D, E, F, G}
    else {A, B, C, D, F, G}
  }

  /** Each table entry lights exactly the segments of its digit's glyph. */
  lemma PatternDrawsGlyph(d: nat, s: Segment)
    requires d < 10
    ensures Lit(Pattern(d), s) <==> s in Glyph(d)
  {
  }

  /** No two digits share a pattern, so the display is never ambiguous. */
  lemma PatternsDistinct(d1: nat, d2: nat)
    requires d1 < 10 && d2 < 10 && d1 != d2
    ensures Pattern(d1) != Pattern(d2)
  {
  }
}
