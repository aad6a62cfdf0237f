/**
 * The seven-segment encoder: which segments a digit lights, and which
 * physical LED of the 30-pixel strip each segment of each digit drives.
 */
module Segments {
  import opened Types

  const LED_COUNT: nat := 30
  const DIGIT_COUNT: nat := 4
  const SEGMENTS_PER_DIGIT: nat := 7
  const DOT_LEFT_INDEX: nat := 14
  const DOT_RIGHT_INDEX: nat := 15
  const HOUR_TENS_DIGIT_INDEX: nat := 0

  /** Segment masks of the digits 0..9, bit 0 = segment A .. bit 6 = segment G. */
  const DIGIT_SEGMENTS: seq<bv8> := [0x3F, 0x06, 0x5B, 0x4F, 0x66, 0x6D, 0x7D, 0x07, 0x7F, 0x6F]

  /** Offset, within a digit, of the LED that drives segment A, B, .., G. */
  const SEGMENT_LED_OFFSET: seq<nat> := [5, 6, 2, 1, 0, 4, 3]

  /**
   * The same wiring read the other way, LED by LED: the 1st LED of a digit is
   * segment E, then D, C, G, F, A, B.
   */
  const LED_SEGMENT: seq<nat> := [4, 3, 2, 6, 5, 0, 1]

  /** The two wiring tables are inverse permutations of 0..6. */
  lemma WiringInverse()
    ensures forall k :: 0 <= k < 7 ==> SEGMENT_LED_OFFSET[k] < 7 && LED_SEGMENT[SEGMENT_LED_OFFSET[k]] == k
    ensures forall o :: 0 <= o < 7 ==> LED_SEGMENT[o] < 7 && SEGMENT_LED_OFFSET[LED_SEGMENT[o]] == o
  {
  }

  /**
   * First LED of a digit position: 0 and 7 for the hour digits, 16 and 23 for
   * the minute digits. Each digit's seven LEDs lie on the strip, wholly before
   * or wholly after the two dots.
   */
  function Base(digitIndex: nat): (b: nat)
    ensures b + SEGMENTS_PER_DIGIT <= DOT_LEFT_INDEX || (DOT_RIGHT_INDEX < b && b + SEGMENTS_PER_DIGIT <= LED_COUNT)
  {
    if digitIndex < 2 then digitIndex * SEGMENTS_PER_DIGIT
    else if digitIndex == 2 then 16
    else 23
  }

  /** The LED that segment `segment` of digit `digitIndex` drives: inside the digit, on the strip, never a dot. */
  function LedIndex(digitIndex: nat, segment: nat): (p: nat)
    requires segment < SEGMENTS_PER_DIGIT
    ensures Base(digitIndex) <= p < Base(digitIndex) + SEGMENTS_PER_DIGIT
    ensures p < LED_COUNT && p != DOT_LEFT_INDEX && p != DOT_RIGHT_INDEX
  {
    Base(digitIndex) + SEGMENT_LED_OFFSET[segment]
  }

  /** LED `p` is one of the seven LEDs of digit `digitIndex` and exists on the strip. */
  predicate InDigit(digitIndex: nat, p: nat) {
    Base(digitIndex) <= p < Base(digitIndex) + SEGMENTS_PER_DIGIT && p < LED_COUNT
  }

  /**
   * The segment mask `writeDigit` uses: the table entry for 0..9, nothing for
   * larger numbers, and nothing for a 0 whose leading zero is suppressed.
   */
  function SegmentMask(number: nat, suppressLeadingZero: bool): (mask: bv8)
    ensures mask == 0 <==> number >= 10 || (suppressLeadingZero && number == 0)
    ensures number < 10 && !(suppressLeadingZero && number == 0) ==> mask == DIGIT_SEGMENTS[number]
    ensures mask & 0x80 == 0
  {
    var segments := if number < 10 then DIGIT_SEGMENTS[number] else 0;
    if suppressLeadingZero && number == 0 then 0 else segments
  }

  /** Bit `segment` of the mask is set. */
  predicate Lit(mask: bv8, segment: nat)
    requires segment < SEGMENTS_PER_DIGIT
  {
    mask & (1 << segment) != 0
  }

  function SegmentColor(mask: bv8, segment: nat, color: Color): Color
    requires segment < SEGMENTS_PER_DIGIT
  {
    if Lit(mask, segment) then color else Dark
  }

  /**
   * The frame after `writeDigit(digitIndex, number, color, suppressLeadingZero)`,
   * stated LED by LED through the inverse wiring table.
   */
  function WithDigit(frame: seq<Color>, digitIndex: nat, number: nat, color: Color, suppressLeadingZero: bool)
    : (r: seq<Color>)
    ensures |r| == |frame|
  {
    var mask := SegmentMask(number, suppressLeadingZero);
    seq(|frame|, p requires 0 <= p < |frame| =>
      if InDigit(digitIndex, p) then SegmentColor(mask, LED_SEGMENT[p - Base(digitIndex)], color) else frame[p])
  }

  /**
   * Stated through the forward table: every segment's LED gets the colour when
   * its bit is set and goes dark otherwise, and no LED outside the digit changes.
   */
  lemma {:induction false} WithDigitWrites(frame: seq<Color>, digitIndex: nat, number: nat, color: Color,
                                           suppressLeadingZero: bool)
    requires |frame| == LED_COUNT && digitIndex < DIGIT_COUNT
    ensures forall k :: 0 <= k < SEGMENTS_PER_DIGIT ==>
      LedIndex(digitIndex, k) < LED_COUNT &&
      WithDigit(frame, digitIndex, number, color, suppressLeadingZero)[LedIndex(digitIndex, k)]
        == SegmentColor(SegmentMask(number, suppressLeadingZero), k, color)
    ensures forall p :: 0 <= p < LED_COUNT && (forall k :: 0 <= k < SEGMENTS_PER_DIGIT ==> p != LedIndex(digitIndex, k)) ==>
              WithDigit(frame, digitIndex, number, color, suppressLeadingZero)[p] == frame[p]
  {
    WiringInverse();
    forall p | 0 <= p < LED_COUNT && InDigit(digitIndex, p)
      ensures p == LedIndex(digitIndex, LED_SEGMENT[p - Base(digitIndex)])
    {
    }
  }

  /**
   * The strip part-way through `writeDigit`'s loop: the LEDs of segments
   * 0 .. done-1 written, every other LED as it was.
   */
  function PartialDigit(frame: seq<Color>, digitIndex: nat, mask: bv8, color: Color, done: nat)
    : (r: seq<Color>)
    ensures |r| == |frame|
  {
    seq(|frame|, p requires 0 <= p < |frame| =>
      if InDigit(digitIndex, p) && LED_SEGMENT[p - Base(digitIndex)] < done
      then SegmentColor(mask, LED_SEGMENT[p - Base(digitIndex)], color) else frame[p])
  }

  /**
   * One loop step writes the LED of segment `segment`, which lies on the strip,
   * and nothing else; no step done is the old frame, all seven is the digit.
   */
  lemma {:induction false} PartialDigitStep(frame: seq<Color>, digitIndex: nat, mask: bv8, color: Color,
                                            segment: nat)
    requires |frame| == LED_COUNT && segment < SEGMENTS_PER_DIGIT
    ensures LedIndex(digitIndex, segment) < LED_COUNT
    ensures PartialDigit(frame, digitIndex, mask, color, segment + 1)
            == PartialDigit(frame, digitIndex, mask, color, segment)
               [LedIndex(digitIndex, segment) := SegmentColor(mask, segment, color)]
    ensures PartialDigit(frame, digitIndex, mask, color, 0) == frame
  {
    WiringInverse();
    var before := PartialDigit(frame, digitIndex, mask, color, segment);
    var after := PartialDigit(frame, digitIndex, mask, color, segment + 1);
    var q := LedIndex(digitIndex, segment);
    forall p | 0 <= p < LED_COUNT
      ensures after[p] == before[q := SegmentColor(mask, segment, color)][p]
    {
      if InDigit(digitIndex, p) && LED_SEGMENT[p - Base(digitIndex)] == segment {
        assert p == q;
      }
    }
  }

  /** Once all seven segments are written the strip holds the digit. */
  lemma PartialDigitDone(frame: seq<Color>, digitIndex: nat, number: nat, color: Color, suppressLeadingZero: bool)
    requires |frame| == LED_COUNT
    ensures PartialDigit(frame, digitIndex, SegmentMask(number, suppressLeadingZero), color, SEGMENTS_PER_DIGIT)
            == WithDigit(frame, digitIndex, number, color, suppressLeadingZero)
  {
    WiringInverse();
  }

  /** A number above 9, or a suppressed leading zero, leaves all seven LEDs dark. */
  lemma BlankDigit(frame: seq<Color>, digitIndex: nat, number: nat, color: Color, suppressLeadingZero: bool)
    requires |frame| == LED_COUNT && digitIndex < DIGIT_COUNT
    requires number >= 10 || (suppressLeadingZero && number == 0)
    ensures forall p :: 0 <= p < LED_COUNT && InDigit(digitIndex, p) ==>
      WithDigit(frame, digitIndex, number, color, suppressLeadingZero)[p] == Dark
  {
  }

  /** A 0 that is not suppressed lights segments A to F and leaves G dark. */
  lemma ZeroShowsRing()
    ensures forall k :: 0 <= k < 6 ==> Lit(SegmentMask(0, false), k)
    ensures !Lit(SegmentMask(0, false), 6)
  {
  }

  /** The ten digits have ten different segment patterns, each lights some segment, and none uses bit 7. */
  lemma DigitPatternsDistinct(m: nat, n: nat)
    requires m < 10 && n < 10 && m != n
    ensures DIGIT_SEGMENTS[m] != DIGIT_SEGMENTS[n]
    ensures DIGIT_SEGMENTS[m] != 0 && DIGIT_SEGMENTS[m] & 0x80 == 0
  {
  }

  /** The digit position that owns a non-dot LED. */
  function DigitOfLed(p: nat): (i: nat)
    requires p < LED_COUNT && p != DOT_LEFT_INDEX && p != DOT_RIGHT_INDEX
    ensures i < DIGIT_COUNT && InDigit(i, p)
  {
    if p < 7 then 0 else if p < 14 then 1 else if p < 23 then 2 else 3
  }

  /**
   * The four digits' LEDs are pairwise disjoint, avoid the two dots, and
   * together with the dots cover every LED of the strip.
   */
  lemma {:induction false} DigitsPartitionStrip(i: nat, p: nat)
    requires i < DIGIT_COUNT && p < LED_COUNT
    ensures InDigit(i, p) <==> p != DOT_LEFT_INDEX && p != DOT_RIGHT_INDEX && DigitOfLed(p) == i
  {
  }

  /** Different (digit, segment) pairs drive different LEDs, never a dot. */
  lemma {:induction false} LedIndexInjective(i: nat, k: nat, j: nat, l: nat)
    requires i < DIGIT_COUNT && j < DIGIT_COUNT && k < SEGMENTS_PER_DIGIT && l < SEGMENTS_PER_DIGIT
    requires LedIndex(i, k) == LedIndex(j, l)
    ensures i == j && k == l
    ensures LedIndex(i, k) != DOT_LEFT_INDEX && LedIndex(i, k) != DOT_RIGHT_INDEX
  {
    WiringInverse();
    DigitsPartitionStrip(i, LedIndex(i, k));
    DigitsPartitionStrip(j, LedIndex(j, l));
  }
}
