/**
 * The configuration the renderer reads, and the frame `updateDisplay` leaves
 * on the strip, stated pixel by pixel as a function of the configuration,
 * the displayed time and the tick counter.
 */
module Render {
  import opened Types
  import opened ClockTime
  import opened Modes
  import opened Segments

  datatype PowerSettings = PowerSettings(powerOn: bool, startupMode: string, mode: string, exitSpecialMode: bool)

  datatype DisplaySettings = DisplaySettings(
    brightness: uint8,
    generalColor: Color,
    perDigitEnabled: bool,
    perDigitColor: seq<Color>,
    singleDigitOverride: bool,
    singleDigitIndex: uint8,
    singleDigitColor: Color)

  datatype DotsSettings = DotsSettings(
    enabled: bool,
    leftColor: Color,
    rightColor: Color,
    forceLeft: bool,
    forceRight: bool,
    forcedLeftColor: Color,
    forcedRightColor: Color)

  datatype ClockConfig = ClockConfig(power: PowerSettings, time: TimeSettings, display: DisplaySettings, dots: DotsSettings)

  /** What every writer of the configuration guarantees: a clamped time and four per-digit colours. */
  predicate ValidConfig(cfg: ClockConfig) {
    InRange(cfg.time) && |cfg.display.perDigitColor| == DIGIT_COUNT
  }

  /** `loadDefaultConfig`: the compiled-in settings, with every per-digit colour set to the general colour. */
  function DefaultConfig(): (cfg: ClockConfig)
    ensures ValidConfig(cfg)
    ensures cfg.power.powerOn && ModeFromString(cfg.power.mode) == Clock
    ensures cfg.time == TimeSettings(12, 0, 0)
    ensures forall i :: 0 <= i < DIGIT_COUNT ==> cfg.display.perDigitColor[i] == cfg.display.generalColor
  {
    var general := Color(255, 85, 0);
    var white := Color(255, 255, 255);
    var red := Color(255, 0, 0);
    ModeRoundTrip(Clock);
    ClockConfig(
      PowerSettings(true, "clock", "clock", false),
      TimeSettings(12, 0, 0),
      DisplaySettings(80, general, false, [general, general, general, general], false, 0, white),
      DotsSettings(true, white, white, false, false, red, red))
  }

  /**
   * `resolveDigitColor`: the single-digit override colour for its own digit,
   * else the per-digit colour when per-digit colouring is on, else the
   * general colour.
   */
  function ResolveDigitColor(display: DisplaySettings, index: nat): (c: Color)
    requires index < |display.perDigitColor|
    ensures c in {display.singleDigitColor, display.perDigitColor[index], display.generalColor}
    ensures display.singleDigitOverride && display.singleDigitIndex == index ==> c == display.singleDigitColor
  {
    if display.singleDigitOverride && display.singleDigitIndex == index then display.singleDigitColor
    else if display.perDigitEnabled then display.perDigitColor[index]
    else display.generalColor
  }

  /** Below the override, per-digit colouring wins over the general colour, and only when enabled. */
  lemma ResolveBelowOverride(display: DisplaySettings, index: nat)
    requires index < |display.perDigitColor|
    requires !(display.singleDigitOverride && display.singleDigitIndex == index)
    ensures ResolveDigitColor(display, index)
            == if display.perDigitEnabled then display.perDigitColor[index] else display.generalColor
  {
  }

  /** The override touches only its own digit: every other digit resolves as if it were off. */
  lemma OverrideOnlyItsDigit(display: DisplaySettings, index: nat)
    requires index < |display.perDigitColor| && index != display.singleDigitIndex
    ensures ResolveDigitColor(display, index) == ResolveDigitColor(display.(singleDigitOverride := false), index)
  {
  }

  /** The mode `updateDisplay` renders: the configured one while powered, `Off` otherwise. */
  function ActiveMode(power: PowerSettings): (mode: OperatingMode)
    ensures !power.powerOn ==> mode == Off
    ensures power.powerOn ==> mode == ModeFromString(power.mode)
  {
    if power.powerOn then ModeFromString(power.mode) else Off
  }

  /** Timer and Alarm blink their dots. */
  predicate Blinks(mode: OperatingMode) {
    mode == Timer || mode == Alarm
  }

  /** The visible half of the 1-second blink cycle. */
  predicate BlinkVisible(nowMs: uint32) {
    (nowMs / 500) % 2 == 0
  }

  /** The colours `renderDots` writes to the left and right dot. */
  function DotColors(dots: DotsSettings, mode: OperatingMode, nowMs: uint32): (lr: (Color, Color))
    ensures !dots.enabled || mode == Off ==> lr == (Dark, Dark)
    ensures Blinks(mode) && !BlinkVisible(nowMs) ==> lr == (Dark, Dark)
  {
    var showDots := dots.enabled && mode != Off;
    var dotsVisible := !Blinks(mode) || BlinkVisible(nowMs);
    if showDots && dotsVisible then
      (if dots.forceLeft then dots.forcedLeftColor else dots.leftColor,
       if dots.forceRight then dots.forcedRightColor else dots.rightColor)
    else (Dark, Dark)
  }

  /**
   * When the dots show, each side shows its forced colour if forced and its
   * own colour otherwise, and nothing about one side affects the other.
   */
  lemma DotsPerSide(dots: DotsSettings, mode: OperatingMode, nowMs: uint32, other: DotsSettings)
    requires dots.enabled && mode != Off && (!Blinks(mode) || BlinkVisible(nowMs))
    ensures DotColors(dots, mode, nowMs).0 == if dots.forceLeft then dots.forcedLeftColor else dots.leftColor
    ensures DotColors(dots, mode, nowMs).1 == if dots.forceRight then dots.forcedRightColor else dots.rightColor
    ensures DotColors(dots.(forceRight := other.forceRight, rightColor := other.rightColor,
                            forcedRightColor := other.forcedRightColor), mode, nowMs).0
            == DotColors(dots, mode, nowMs).0
    ensures DotColors(dots.(forceLeft := other.forceLeft, leftColor := other.leftColor,
                            forcedLeftColor := other.forcedLeftColor), mode, nowMs).1
            == DotColors(dots, mode, nowMs).1
  {
  }

  /** Modes other than Timer and Alarm show steady dots: the tick count does not matter. */
  lemma SteadyDots(dots: DotsSettings, mode: OperatingMode, t1: uint32, t2: uint32)
    requires !Blinks(mode)
    ensures DotColors(dots, mode, t1) == DotColors(dots, mode, t2)
  {
  }

  /** Blinking dots are visible exactly in the first half of every 1000 ms. */
  lemma {:induction false} BlinkPhase(nowMs: uint32)
    ensures BlinkVisible(nowMs) <==> nowMs % 1000 < 500
  {
    var q, r := nowMs / 1000, nowMs % 1000;
    assert nowMs == 1000 * q + r;
    if r < 500 {
      assert nowMs / 500 == 2 * q;
    } else {
      assert nowMs / 500 == 2 * q + 1;
    }
  }

  /** The four digits `renderClock` shows: hour tens, hour units, minute tens, minute units. */
  function DigitsOf(t: TimeSettings): (digits: seq<nat>)
    ensures |digits| == DIGIT_COUNT
    ensures digits[0] * 10 + digits[1] == t.hour && digits[2] * 10 + digits[3] == t.minute
    ensures InRange(t) ==> digits[0] < 3 && digits[1] < 10 && digits[2] < 6 && digits[3] < 10
  {
    [t.hour / 10, t.hour % 10, t.minute / 10, t.minute % 10]
  }

  /**
   * The strip after `renderClock` has written digits 0 .. count-1 in its
   * loop, leading zero suppressed on the hour tens digit only.
   */
  function ClockDigitsUpTo(frame: seq<Color>, display: DisplaySettings, t: TimeSettings, count: nat)
    : (r: seq<Color>)
    requires count <= DIGIT_COUNT && |display.perDigitColor| == DIGIT_COUNT
    ensures |r| == |frame|
    ensures |frame| == LED_COUNT ==> r[DOT_LEFT_INDEX] == frame[DOT_LEFT_INDEX] && r[DOT_RIGHT_INDEX] == frame[DOT_RIGHT_INDEX]
  {
    if count == 0 then frame
    else
      var i := count - 1;
      WithDigit(ClockDigitsUpTo(frame, display, t, i), i, DigitsOf(t)[i], ResolveDigitColor(display, i),
                i == HOUR_TENS_DIGIT_INDEX)
  }

  /** The colour a clock frame gives a non-dot LED: its digit's segment, lit or dark. */
  function DigitPixel(display: DisplaySettings, t: TimeSettings, p: nat): Color
    requires p < LED_COUNT && p != DOT_LEFT_INDEX && p != DOT_RIGHT_INDEX
    requires |display.perDigitColor| == DIGIT_COUNT
  {
    var i := DigitOfLed(p);
    SegmentColor(SegmentMask(DigitsOf(t)[i], i == HOUR_TENS_DIGIT_INDEX), LED_SEGMENT[p - Base(i)],
                 ResolveDigitColor(display, i))
  }

  /**
   * After the first `count` digits every LED of those digits holds its digit
   * pixel and every other LED is untouched.
   */
  lemma {:induction false} ClockDigitsUpToAt(frame: seq<Color>, display: DisplaySettings, t: TimeSettings,
                                             count: nat, p: nat)
    requires count <= DIGIT_COUNT && |display.perDigitColor| == DIGIT_COUNT
    requires |frame| == LED_COUNT && p < LED_COUNT
    ensures ClockDigitsUpTo(frame, display, t, count)[p]
            == if p != DOT_LEFT_INDEX && p != DOT_RIGHT_INDEX && DigitOfLed(p) < count
               then DigitPixel(display, t, p) else frame[p]
  {
    if count > 0 {
      ClockDigitsUpToAt(frame, display, t, count - 1, p);
      DigitsPartitionStrip(count - 1, p);
    }
  }

  /** Digits are drawn for Clock, Timer and Alarm, and for Custom when any per-digit colouring is on. */
  function ShowsDigits(mode: OperatingMode, display: DisplaySettings): (shows: bool)
    ensures mode == Clock || mode == Timer || mode == Alarm ==> shows
    ensures mode == Weather || mode == Off ==> !shows
    ensures mode == Custom ==> (shows <==> display.perDigitEnabled || display.singleDigitOverride)
  {
    mode == Clock || mode == Timer || mode == Alarm
    || (mode == Custom && (display.perDigitEnabled || display.singleDigitOverride))
  }

  /**
   * The whole frame `updateDisplay` leaves on the strip: all dark when off;
   * otherwise the two dots from `renderDots` and, on every other LED, either
   * the clock digits or the general colour.
   */
  function Frame(cfg: ClockConfig, t: TimeSettings, nowMs: uint32): (f: seq<Color>)
    requires ValidConfig(cfg)
    ensures |f| == LED_COUNT
  {
    var mode := ActiveMode(cfg.power);
    var dots := DotColors(cfg.dots, mode, nowMs);
    seq(LED_COUNT, p requires 0 <= p < LED_COUNT =>
      if mode == Off then Dark
      else if p == DOT_LEFT_INDEX then dots.0
      else if p == DOT_RIGHT_INDEX then dots.1
      else if ShowsDigits(mode, cfg.display) then DigitPixel(cfg.display, t, p)
      else cfg.display.generalColor)
  }

  /**
   * How `updateDisplay` builds a frame when the display is on: the mode's
   * renderer fills the strip (digits over what it held, or the general colour
   * everywhere), then `renderDots` writes the two dots; the result is `Frame`.
   */
  lemma {:induction false} FrameAssembled(cfg: ClockConfig, t: TimeSettings, nowMs: uint32, before: seq<Color>,
                                          body: seq<Color>)
    requires ValidConfig(cfg) && |before| == LED_COUNT && |body| == LED_COUNT
    requires ActiveMode(cfg.power) != Off
    requires ShowsDigits(ActiveMode(cfg.power), cfg.display) ==>
               body == ClockDigitsUpTo(before, cfg.display, t, DIGIT_COUNT)
    requires !ShowsDigits(ActiveMode(cfg.power), cfg.display) ==>
               forall p :: 0 <= p < LED_COUNT ==> body[p] == cfg.display.generalColor
    ensures body[DOT_LEFT_INDEX := DotColors(cfg.dots, ActiveMode(cfg.power), nowMs).0]
                [DOT_RIGHT_INDEX := DotColors(cfg.dots, ActiveMode(cfg.power), nowMs).1]
            == Frame(cfg, t, nowMs)
  {
    var mode := ActiveMode(cfg.power);
    var dots := DotColors(cfg.dots, mode, nowMs);
    var drawn := body[DOT_LEFT_INDEX := dots.0][DOT_RIGHT_INDEX := dots.1];
    forall p | 0 <= p < LED_COUNT
      ensures drawn[p] == Frame(cfg, t, nowMs)[p]
    {
      if p != DOT_LEFT_INDEX && p != DOT_RIGHT_INDEX && ShowsDigits(mode, cfg.display) {
        ClockDigitsUpToAt(before, cfg.display, t, DIGIT_COUNT, p);
      }
    }
  }

  /** Power off or mode Off: every LED is dark, the dots included. */
  lemma FrameOffIsDark(cfg: ClockConfig, t: TimeSettings, nowMs: uint32)
    requires ValidConfig(cfg)
    requires !cfg.power.powerOn || ModeFromString(cfg.power.mode) == Off
    ensures forall p :: 0 <= p < LED_COUNT ==> Frame(cfg, t, nowMs)[p] == Dark
  {
  }

  /**
   * Weather, and Custom without per-digit colouring or override, fill every
   * LED with the general colour except the two dots, which `renderDots` draws;
   * the time shown does not matter.
   */
  lemma FrameSolidFill(cfg: ClockConfig, t: TimeSettings, t2: TimeSettings, nowMs: uint32)
    requires ValidConfig(cfg) && cfg.power.powerOn
    requires var mode := ModeFromString(cfg.power.mode);
      mode == Weather || (mode == Custom && !cfg.display.perDigitEnabled && !cfg.display.singleDigitOverride)
    ensures forall p :: 0 <= p < LED_COUNT && p != DOT_LEFT_INDEX && p != DOT_RIGHT_INDEX ==>
              Frame(cfg, t, nowMs)[p] == cfg.display.generalColor
    ensures Frame(cfg, t, nowMs)[DOT_LEFT_INDEX] == DotColors(cfg.dots, ModeFromString(cfg.power.mode), nowMs).0
    ensures Frame(cfg, t, nowMs)[DOT_RIGHT_INDEX] == DotColors(cfg.dots, ModeFromString(cfg.power.mode), nowMs).1
    ensures Frame(cfg, t, nowMs) == Frame(cfg, t2, nowMs)
  {
  }

  /**
   * In the digit modes, segment k of digit i shows the resolved colour of
   * digit i exactly when that segment belongs to the digit's value, with the
   * leading zero suppressed only on the hour tens digit.
   */
  lemma {:induction false} FrameShowsTime(cfg: ClockConfig, t: TimeSettings, nowMs: uint32, i: nat, k: nat)
    requires ValidConfig(cfg)
    requires ShowsDigits(ActiveMode(cfg.power), cfg.display)
    requires i < DIGIT_COUNT && k < SEGMENTS_PER_DIGIT
    ensures LedIndex(i, k) < LED_COUNT
    ensures Frame(cfg, t, nowMs)[LedIndex(i, k)]
            == SegmentColor(SegmentMask(DigitsOf(t)[i], i == HOUR_TENS_DIGIT_INDEX), k,
                            ResolveDigitColor(cfg.display, i))
  {
    WiringInverse();
    LedIndexInjective(i, k, i, k);
    DigitsPartitionStrip(i, LedIndex(i, k));
  }

  /**
   * Before 10:00 the hour tens digit is blank; a zero in any other position
   * shows the full "0" (segments A..F lit in the digit's colour, G dark).
   */
  lemma {:induction false} LeadingZeroOnlyOnHourTens(cfg: ClockConfig, t: TimeSettings, nowMs: uint32, i: nat,
                                                     k: nat)
    requires ValidConfig(cfg) && InRange(t)
    requires ShowsDigits(ActiveMode(cfg.power), cfg.display)
    requires i < DIGIT_COUNT && k < SEGMENTS_PER_DIGIT && DigitsOf(t)[i] == 0
    ensures LedIndex(i, k) < LED_COUNT
    ensures i == HOUR_TENS_DIGIT_INDEX ==> Frame(cfg, t, nowMs)[LedIndex(i, k)] == Dark
    ensures i != HOUR_TENS_DIGIT_INDEX ==>
              Frame(cfg, t, nowMs)[LedIndex(i, k)] == if k < 6 then ResolveDigitColor(cfg.display, i) else Dark
  {
    FrameShowsTime(cfg, t, nowMs, i, k);
    ZeroShowsRing();
  }
}
