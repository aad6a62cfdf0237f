/**
 * The firmware's mutable globals (`config`, `timeAnchor`, `timeReferenceMs`
 * and the NeoPixel strip's pixel buffer) as one object, with the code that
 * re-anchors the clock and the renderers that write the buffer in place.
 * `millis()` is passed in as `nowMs`.
 */
module Firmware {
  import opened Types
  import opened ClockTime
  import opened Modes
  import opened Segments
  import opened Render

  /** `handlePostTime`'s update of the stored time: each supplied field clamped, the others kept. */
  function UpdatedTime(current: TimeSettings, hour: Option<int>, minute: Option<int>, second: Option<int>)
    : (t: TimeSettings)
    requires InRange(current)
    ensures InRange(t)
    ensures t.hour == if hour.Some? then Constrain(hour.value, 0, 23) else current.hour
    ensures t.minute == if minute.Some? then Constrain(minute.value, 0, 59) else current.minute
    ensures t.second == if second.Some? then Constrain(second.value, 0, 59) else current.second
  {
    TimeSettings(
      if hour.Some? then Constrain(hour.value, 0, 23) else current.hour,
      if minute.Some? then Constrain(minute.value, 0, 59) else current.minute,
      if second.Some? then Constrain(second.value, 0, 59) else current.second)
  }

  class LedClock {
    var config: ClockConfig
    var timeAnchor: TimeSettings
    var timeReferenceMs: uint32
    /** The strip's pixel buffer, one colour per LED. */
    const strip: array<Color>

    ghost predicate Valid()
      reads this
    {
      strip.Length == LED_COUNT && ValidConfig(config) && InRange(timeAnchor)
    }

    /** `setup`: the strip cleared, the loaded configuration in place and the clock anchored to its time. */
    constructor (loaded: ClockConfig, nowMs: uint32)
      requires ValidConfig(loaded)
      ensures Valid() && fresh(strip)
      ensures config == loaded && timeAnchor == loaded.time && timeReferenceMs == nowMs
      ensures forall p :: 0 <= p < LED_COUNT ==> strip[p] == Dark
      ensures CurrentTime(timeAnchor, timeReferenceMs, nowMs) == loaded.time
    {
      strip := new Color[LED_COUNT](_ => Dark);
      config := loaded;
      timeAnchor := loaded.time;
      timeReferenceMs := nowMs;
      AnchorReadsBack(loaded.time, nowMs);
    }

    /** The time `computeCurrentTime` reports at tick `nowMs`. */
    function Now(nowMs: uint32): (t: TimeSettings)
      reads this
      ensures InRange(t)
    {
      CurrentTime(timeAnchor, timeReferenceMs, nowMs)
    }

    /** Re-anchoring: the clock restarts from the configured time at tick `nowMs`. */
    method Anchor(nowMs: uint32)
      requires Valid()
      modifies this
      ensures Valid()
      ensures config == old(config) && timeAnchor == config.time && timeReferenceMs == nowMs
      ensures Now(nowMs) == config.time
    {
      timeAnchor := config.time;
      timeReferenceMs := nowMs;
      AnchorReadsBack(timeAnchor, nowMs);
    }

    /**
     * `handlePostTime` without its JSON: store the clamped fields that were
     * supplied, then re-anchor, so the clock shows the new time at once and
     * counts on from it.
     */
    method SetTime(hour: Option<int>, minute: Option<int>, second: Option<int>, nowMs: uint32)
      requires Valid()
      modifies this
      ensures Valid()
      ensures config == old(config).(time := UpdatedTime(old(config.time), hour, minute, second))
      ensures timeAnchor == config.time && timeReferenceMs == nowMs
      ensures Now(nowMs) == config.time
    {
      config := config.(time := UpdatedTime(config.time, hour, minute, second));
      Anchor(nowMs);
    }

    /** `strip.clear()`: every pixel dark. */
    method Clear()
      requires Valid()
      modifies strip
      ensures strip[..] == seq(LED_COUNT, _ => Dark)
    {
      forall p | 0 <= p < strip.Length {
        strip[p] := Dark;
      }
    }

    /**
     * `writeDigit`: for each segment, light its LED in `color` if the digit's
     * mask has the segment's bit, else darken it; LEDs past the strip are skipped.
     */
    method WriteDigit(digitIndex: uint8, number: uint8, color: Color, suppressLeadingZero: bool)
      requires Valid()
      modifies strip
      ensures strip[..] == WithDigit(old(strip[..]), digitIndex, number, color, suppressLeadingZero)
    {
      var baseIndex := Base(digitIndex);
      var segments: bv8 := if number < 10 then DIGIT_SEGMENTS[number] else 0;
      if suppressLeadingZero && number == 0 {
        segments := 0;
      }
      assert segments == SegmentMask(number, suppressLeadingZero);
      PartialDigitStep(strip[..], digitIndex, segments, color, 0);
      for segment := 0 to SEGMENTS_PER_DIGIT
        invariant strip[..] == PartialDigit(old(strip[..]), digitIndex, segments, color, segment)
      {
        PartialDigitStep(old(strip[..]), digitIndex, segments, color, segment);
        var ledIndex := baseIndex + SEGMENT_LED_OFFSET[segment];
        if ledIndex >= LED_COUNT {
          continue;
        }
        var enabled := segments & (1 << segment) != 0;
        if enabled {
          strip[ledIndex] := color;
        } else {
          strip[ledIndex] := Dark;
        }
      }
      PartialDigitDone(old(strip[..]), digitIndex, number, color, suppressLeadingZero);
    }

    /** `renderClock`: the four digits of the current time, leading zero suppressed on the hour tens digit. */
    method RenderClock(nowMs: uint32)
      requires Valid()
      modifies strip
      ensures strip[..] == ClockDigitsUpTo(old(strip[..]), config.display, Now(nowMs), DIGIT_COUNT)
    {
      var now := Now(nowMs);
      var digits := [now.hour / 10, now.hour % 10, now.minute / 10, now.minute % 10];
      assert digits == DigitsOf(now);
      for i := 0 to DIGIT_COUNT
        invariant strip[..] == ClockDigitsUpTo(old(strip[..]), config.display, now, i)
      {
        var suppressLeadingZero := i == HOUR_TENS_DIGIT_INDEX;
        WriteDigit(i, digits[i], ResolveDigitColor(config.display, i), suppressLeadingZero);
      }
    }

    /** `renderSolidColor`: every LED in one colour. */
    method RenderSolidColor(color: Color)
      requires Valid()
      modifies strip
      ensures strip[..] == seq(LED_COUNT, _ => color)
    {
      for i := 0 to LED_COUNT
        invariant forall p :: 0 <= p < i ==> strip[p] == color
      {
        strip[i] := color;
      }
    }

    /** `renderCustomMode`: digits when per-digit colouring or the override is on, else a solid fill. */
    method RenderCustomMode(nowMs: uint32)
      requires Valid()
      modifies strip
      ensures config.display.perDigitEnabled || config.display.singleDigitOverride ==>
                strip[..] == ClockDigitsUpTo(old(strip[..]), config.display, Now(nowMs), DIGIT_COUNT)
      ensures !(config.display.perDigitEnabled || config.display.singleDigitOverride) ==>
                forall p :: 0 <= p < LED_COUNT ==> strip[p] == config.display.generalColor
    {
      if config.display.perDigitEnabled || config.display.singleDigitOverride {
        RenderClock(nowMs);
      } else {
        RenderSolidColor(config.display.generalColor);
      }
    }

    /** `renderDots`: writes the two dot LEDs and nothing else. */
    method RenderDots(mode: OperatingMode, nowMs: uint32)
      requires Valid()
      modifies strip
      ensures strip[..] == old(strip[..])[DOT_LEFT_INDEX := DotColors(config.dots, mode, nowMs).0]
                                         [DOT_RIGHT_INDEX := DotColors(config.dots, mode, nowMs).1]
    {
      var showDots := config.dots.enabled && mode != Off;
      var blink := mode == Timer || mode == Alarm;
      var dotsVisible := !blink || (nowMs / 500) % 2 == 0;
      var leftColor, rightColor := Dark, Dark;
      if showDots && dotsVisible {
        leftColor := if config.dots.forceLeft then config.dots.forcedLeftColor else config.dots.leftColor;
        rightColor := if config.dots.forceRight then config.dots.forcedRightColor else config.dots.rightColor;
      }
      strip[DOT_LEFT_INDEX] := leftColor;
      strip[DOT_RIGHT_INDEX] := rightColor;
    }

    /**
     * `updateDisplay`: clear when off, otherwise render the mode and then the
     * dots. Every LED is written, so the new frame depends only on the
     * configuration, the clock and the tick, never on what the strip held.
     */
    method UpdateDisplay(nowMs: uint32)
      requires Valid()
      modifies strip
      ensures strip[..] == Frame(config, Now(nowMs), nowMs)
    {
      var mode := if config.power.powerOn then ModeFromString(config.power.mode) else Off;
      if mode == Off || !config.power.powerOn {
        Clear();
        return;
      }
      ghost var t := Now(nowMs);
      ghost var before := strip[..];
      match mode {
        case Clock => RenderClock(nowMs);
        case Timer => RenderClock(nowMs);
        case Weather => RenderSolidColor(config.display.generalColor);
        case Custom => RenderCustomMode(nowMs);
        case Alarm => RenderClock(nowMs);
        case Off => assert false;
      }
      assert mode == ActiveMode(config.power);
      FrameAssembled(config, t, nowMs, before, strip[..]);
      RenderDots(mode, nowMs);
    }
  }
}
