# 7-Clock firmware core in Dafny

The 7-Clock is an ESP8266 wall clock. Its display is a strip of 30 NeoPixels
wired as four seven-segment digits (LEDs 0-6, 7-13, 16-22, 23-29) and two
dots (LEDs 14 and 15). This project models the firmware's display core,
`src/main.cpp`, and proves properties about it:

- **Clock arithmetic** (`clock.dfy`, module `ClockTime`). The firmware keeps
  the time as an anchor (`timeAnchor`, an h/m/s triple) plus the `millis()`
  tick at which the anchor was set. The current time is the anchor's
  seconds-of-day plus the whole seconds elapsed since then, reduced modulo a
  day. `millis()` is a 32-bit unsigned counter. The elapsed time is the
  unsigned 32-bit difference, written out as `% 2^32`. The proofs cover:
  - the seconds conversion round-trips;
  - the time read back just after re-anchoring is the time that was set;
  - the time `1000*n + r` ms later is the anchor plus `n` seconds;
  - what happens when the counter wraps without a re-anchor (`TickWrapJumpsBack`):
    the shown time jumps back, unlike a clock over an unbounded millisecond
    count (`CurrentTimeWide`), which never does (see Findings).
- **Mode codec** (`modes.dfy`, module `Modes`). The six operating modes,
  their lower-case names, the case-insensitive decoder that falls back to
  `clock`, and `sanitizeMode`.
- **Colour codec** (`hexcolor.dfy`, module `HexColor`). `colorToHex` prints
  `#RRGGBB` in upper case. `hexToColor` checks the length and the `#`, then
  hands the rest to `strtoul(…, 16)`. `strtoul` is modelled by value: leading
  white space, an optional sign, an optional `0x`, the longest run of hex
  digits, saturation on overflow, and negation modulo 2^32.
- **Segment encoder** (`segments.dfy`, module `Segments`). The A..G segment
  table, the strip's rewiring table and its inverse, the uneven digit bases
  0/7/16/23, and the frame `writeDigit` produces.
- **Frame specification** (`render.dfy`, module `Render`). The configuration
  records, the digit-colour precedence and the dot colours. `Frame` gives the
  colour `updateDisplay` leaves on each of the 30 LEDs, as a function of the
  configuration, the displayed time and the tick.
- **Firmware state** (`firmware.dfy`, module `Firmware`). Class `LedClock`
  holds the globals `config`, `timeAnchor` and `timeReferenceMs`, and the
  pixel buffer as a 30-element array. Its methods are the renderers
  (`writeDigit`, `renderClock`, `renderSolidColor`, `renderCustomMode`,
  `renderDots`, `updateDisplay`) and the re-anchoring done by `setup` and
  the time handler. Each method is proved against the `Render`/`Segments`
  specification of the frame it leaves.

`millis()` is an explicit `nowMs: uint32` parameter. Colours are kept as RGB
triples; packing them into a 32-bit pixel word is not modelled.

## Model

| member | source | states |
|---|---|---|
| Types.Constrain | src/main.cpp:536 | Arduino `constrain`: the result lies in `[lo, hi]`; it is `x` inside the range, `lo` below and `hi` above |
| ClockTime.TimeToSeconds | src/main.cpp:336-338 | seconds of an h/m/s triple; below 86400 for an in-range time, and never beyond what three bytes can give (no 32-bit overflow) |
| ClockTime.SecondsToTime | src/main.cpp:340-348 | always an in-range time (hour < 24, minute < 60, second < 60) whose seconds are the input modulo one day |
| ClockTime.TimeToSecondsInjective | src/main.cpp:336-338 | two in-range times with the same seconds-of-day are equal |
| ClockTime.TimeRoundTrip | src/main.cpp:336-348 | `secondsToTime(timeToSeconds(t)) == t` for every in-range time |
| ClockTime.ElapsedSeconds | src/main.cpp:351 | whole seconds in the unsigned 32-bit tick difference; at most (2^32-1)/1000 |
| ClockTime.CurrentTime | src/main.cpp:350-354 | an in-range time whose seconds are anchor seconds plus elapsed seconds, modulo one day |
| ClockTime.CurrentTimeAfter | src/main.cpp:350-354 | at tick `ref + 1000*n + r` (r < 1000, within one counter period, across a wrap too) the elapsed time is `n` and the clock shows `secondsToTime(timeToSeconds(anchor) + n)` |
| ClockTime.AnchorReadsBack | src/main.cpp:545-546 | right after re-anchoring, the clock reads exactly the anchor time |
| ClockTime.TickWrapJumpsBack | src/main.cpp:351 | without a re-anchor, one tick before the counter returns to the reference the clock is 4294967 s ahead (anchor + 61367 s mod one day); at the reference itself it reads the anchor again, so it jumps back |
| ClockTime.AsWrittenClockJumpsBack | src/main.cpp:350-354 | from the last tick before the 32-bit counter returns to the reference to the next tick, the shown time neither stays nor advances by one second |
| ClockTime.CurrentTimeWide | src/main.cpp:350-354 | corrected clock over an unbounded millisecond count since anchoring: an in-range time whose seconds are anchor seconds plus whole elapsed seconds, modulo one day |
| ClockTime.WideAgreesBeforeWrap | src/main.cpp:350-354 | for every elapsed time below 2^32 ms the corrected clock shows what the firmware's clock shows |
| ClockTime.WideClockNeverJumpsBack | src/main.cpp:350-354 | with the corrected clock each millisecond either keeps the time of day or advances it by exactly one second (wrapping at midnight) |
| Modes.LowerChar | src/main.cpp:147 | only 'A'..'Z' change, each to its lower-case letter |
| Modes.ToLower | src/main.cpp:147 | same length; every character lower-cased in place |
| Modes.ToLowerIdempotent | src/main.cpp:147 | lower-casing twice is lower-casing once |
| Modes.ModeToString | src/main.cpp:169-185 | every mode has one of the six canonical names, all lower case |
| Modes.ModeFromString | src/main.cpp:146-167 | a string whose lower-cased form is a canonical name decodes to the mode of that name; any other string decodes to `Clock` |
| Modes.ModeRoundTrip | src/main.cpp:146-185 | `modeFromString(modeToString(m)) == m` for all six modes |
| Modes.ModeToStringInjective | src/main.cpp:169-185 | distinct modes have distinct names |
| Modes.ModeFromStringIgnoresCase | src/main.cpp:146-147 | strings that agree after lower-casing decode alike |
| Modes.ModeFromStringExactly | src/main.cpp:146-167 | iff: a string decodes to mode m exactly when its lower-cased form is m's name, or m is `Clock` and the string is unrecognised |
| Modes.SanitizeMode | src/main.cpp:187-189 | always one of the six canonical lower-case names |
| Modes.SanitizeIdempotent | src/main.cpp:187-189 | sanitising a sanitised name changes nothing |
| Modes.SanitizePreservesMode | src/main.cpp:187-189 | the sanitised name decodes to the same mode as the original string |
| HexColor.HexDigitValue | src/main.cpp:111 | the value of a hex digit is below 16 |
| HexColor.SkipSpaces | src/main.cpp:111 | `strtoul`'s white-space skip: drops exactly the leading white space, and the rest does not start with white space |
| HexColor.HexPrefixLength | src/main.cpp:111 | the longest prefix of hex digits: all digits, and the next character is not one |
| HexColor.LeadingHexDigits | src/main.cpp:111 | the digits `strtoul` consumes: a prefix of its input, all hex digits, followed by a non-digit or the end |
| HexColor.StrToUL16 | src/main.cpp:111 | `strtoul(s, nullptr, 16)` with a 32-bit result: no digits gives 0, a value of 2^32 or more saturates to 2^32-1, otherwise the digits' value, negated modulo 2^32 after a `-`; its value on the firmware's inputs is stated by `HexColor.StrToUL16OfSixDigits` and `HexColor.NonHexDigitsGiveBlack` |
| HexColor.StrToUL16OfSixDigits | src/main.cpp:111 | six bare hex digits are read as their plain hexadecimal value (no sign, prefix or saturation applies) |
| HexColor.DecodeSixDigits | src/main.cpp:111 | after a well-formed `#`, `strtoul` returns the three digit pairs packed as R*2^16 + G*2^8 + B |
| HexColor.Unpack | src/main.cpp:112-114 | the three shifted and masked bytes, put back together as R*2^16 + G*2^8 + B, are the number's low 24 bits |
| HexColor.SplitBytes | src/main.cpp:112-114 | the low 24 bits of any number equal its bytes at bits 16-23, 8-15 and 0-7 recombined |
| HexColor.HexToColorOfNumber | src/main.cpp:112-114 | the shifts and masks recover r, g and b from R*2^16 + G*2^8 + B |
| HexColor.HexToColor | src/main.cpp:107-115 | a string whose length is not 7, or whose first character is not `#`, gives the fallback unchanged |
| HexColor.HexDigitChar | src/main.cpp:119 | `%X` digit of a value below 16: an upper-case hex digit that reads back as the value |
| HexColor.HexByte | src/main.cpp:119 | `%02X` of a byte: two hex digits whose value is the byte |
| HexColor.ColorToHex | src/main.cpp:117-121 | a well-formed `#RRGGBB` whose three digit pairs read back as r, g and b |
| HexColor.HexToColorWellFormed | src/main.cpp:107-115 | `#` and six hex digits decode to the colour whose channels are the three pairs |
| HexColor.HexRoundTrip | src/main.cpp:107-121 | `hexToColor(colorToHex(c), f) == c` for every colour and fallback |
| HexColor.HexToColorIgnoresFallback | src/main.cpp:108-114 | once length and `#` pass, the fallback plays no part |
| HexColor.NonHexDigitsGiveBlack | src/main.cpp:111 | `"#zzzzzz"` decodes to black, not to the fallback |
| HexColor.HexToColorStrict | src/main.cpp:107-115 | corrected decoder: the fallback for anything but `#` plus six hex digits, the pairs' colour otherwise |
| HexColor.StrictRoundTrip | src/main.cpp:117-121 | the corrected decoder also inverts `colorToHex` |
| Segments.WiringInverse | src/main.cpp:36-45 | the segment-to-LED table and the LED-to-segment order (e, d, c, g, f, a, b) are inverse permutations of 0..6 |
| Segments.Base | src/main.cpp:368-370 | each digit's seven LEDs lie on the 30-LED strip, wholly before or wholly after the two dots |
| Segments.LedIndex | src/main.cpp:377 | segment k of digit i drives an LED inside digit i's block, on the strip and never a dot |
| Segments.SegmentMask | src/main.cpp:371-374 | the mask is 0 exactly for a number above 9 or a suppressed 0; otherwise it is the digit's pattern; bit 7 is never set |
| Segments.WithDigit | src/main.cpp:366-388 | the frame after `writeDigit` has the length of the old one |
| Segments.WithDigitWrites | src/main.cpp:366-388 | segment k's LED `base + SEGMENT_LED_OFFSET[k]` is on the strip and gets the colour iff bit k of the mask is set, else goes dark; every other LED keeps its colour |
| Segments.PartialDigitStep | src/main.cpp:376-387 | one loop step writes exactly the LED of the current segment, which is on the strip (the skip never fires) |
| Segments.PartialDigitDone | src/main.cpp:376-388 | after seven steps the strip holds the digit's frame |
| Segments.BlankDigit | src/main.cpp:371-374 | a number above 9, or a suppressed 0, leaves all seven LEDs of the digit dark |
| Segments.ZeroShowsRing | src/main.cpp:22-24 | 0 lights segments A..F and not G |
| Segments.DigitPatternsDistinct | src/main.cpp:22-34 | the ten patterns differ pairwise, each lights something and none uses bit 7 |
| Segments.DigitOfLed | src/main.cpp:368-370 | every LED other than the two dots belongs to one of the four digits |
| Segments.DigitsPartitionStrip | src/main.cpp:12-16 | iff: LED p belongs to digit i exactly when it is not a dot and its owning digit is i, so the digits are disjoint, avoid 14/15 and cover the rest |
| Segments.LedIndexInjective | src/main.cpp:366-377 | distinct (digit, segment) pairs drive distinct LEDs, never a dot |
| Render.DefaultConfig | src/main.cpp:195-203 | the default configuration is valid, powered on in `clock` mode at 12:00:00, with every per-digit colour equal to the general colour |
| Render.ResolveDigitColor | src/main.cpp:356-364 | the result is the override, per-digit or general colour, and the override colour for the overridden digit |
| Render.ResolveBelowOverride | src/main.cpp:360-363 | without the override, per-digit colour when enabled, else the general colour |
| Render.OverrideOnlyItsDigit | src/main.cpp:357-359 | the override does not affect any other digit |
| Render.ActiveMode | src/main.cpp:439 | `Off` when power is off, the decoded configured mode otherwise |
| Render.DotColors | src/main.cpp:390-407 | both dots dark when dots are disabled, the mode is Off, or a blinking mode is in its dark phase |
| Render.DotsPerSide | src/main.cpp:398-403 | when shown, each dot is its forced colour if forced else its own colour, independently of the other side |
| Render.SteadyDots | src/main.cpp:392-393 | outside Timer and Alarm the dots do not depend on the tick |
| Render.BlinkPhase | src/main.cpp:393 | blinking dots are visible exactly when `ms % 1000 < 500` |
| Render.DigitsOf | src/main.cpp:411-416 | the four digits spell hour and minute; for an in-range time they are below 3, 10, 6, 10 |
| Render.ClockDigitsUpTo | src/main.cpp:418-421 | the first `count` iterations of `renderClock`'s loop keep the frame's length and never touch the two dot LEDs |
| Render.ClockDigitsUpToAt | src/main.cpp:418-421 | after the first `count` digits of the loop, their LEDs hold the digit pixels and every other LED is untouched |
| Render.ShowsDigits | src/main.cpp:430-461 | Clock, Timer and Alarm always draw digits, Weather and Off never, Custom exactly when per-digit colouring or the override is on |
| Render.Frame | src/main.cpp:438-469 | `updateDisplay`'s frame has one colour per LED |
| Render.FrameAssembled | src/main.cpp:446-467 | when the display is on, the strip after the mode's renderer and then `renderDots` is exactly `Frame` |
| Render.FrameOffIsDark | src/main.cpp:439-444 | power off or mode Off: all 30 LEDs dark, dots included |
| Render.FrameSolidFill | src/main.cpp:424-436 | Weather, and Custom without per-digit or override, give the general colour on all LEDs except the dots; the dots come from `renderDots`; the time does not matter |
| Render.FrameShowsTime | src/main.cpp:409-422 | in a digit mode, segment k of digit i shows digit i's resolved colour iff the segment is in the digit's pattern, leading zero suppressed only on digit 0 |
| Render.LeadingZeroOnlyOnHourTens | src/main.cpp:419 | a 0 in the hour tens is blank; a 0 anywhere else shows segments A..F in its colour |
| Firmware.UpdatedTime | src/main.cpp:535-543 | each supplied field is clamped (hour 0-23, minute and second 0-59), the others keep their value; the result is in range |
| Firmware.LedClock.constructor | src/main.cpp:732-740 | the strip starts dark, the loaded configuration is in place, and the clock reads the configured time at the boot tick |
| Firmware.LedClock.Now | src/main.cpp:350-354 | the current time is always in range |
| Firmware.LedClock.Anchor | src/main.cpp:545-546 | the anchor becomes the configured time at tick `nowMs`, so the clock reads that time there; configuration unchanged |
| Firmware.LedClock.SetTime | src/main.cpp:535-546 | the configured time becomes the clamped update, the clock is re-anchored to it, and it reads exactly that time at once |
| Firmware.LedClock.Clear | src/main.cpp:441 | every LED dark |
| Firmware.LedClock.WriteDigit | src/main.cpp:366-388 | the strip becomes `WithDigit` of the old strip: the digit's seven LEDs written from the pattern, nothing else changed |
| Firmware.LedClock.RenderClock | src/main.cpp:409-422 | the strip becomes the old strip with all four digits of the current time written in order |
| Firmware.LedClock.RenderSolidColor | src/main.cpp:424-428 | all 30 LEDs hold the colour |
| Firmware.LedClock.RenderCustomMode | src/main.cpp:430-436 | digits when per-digit colouring or the override is on, otherwise every LED in the general colour |
| Firmware.LedClock.RenderDots | src/main.cpp:390-407 | LEDs 14 and 15 get the two `DotColors`; no other LED changes |
| Firmware.LedClock.UpdateDisplay | src/main.cpp:438-469 | the strip becomes `Frame(config, now, nowMs)`; all 30 LEDs are written, so nothing of the previous contents survives |

## Left out

- HTTP handlers, CORS, JSON building and parsing, and route registration (src/main.cpp:127-144, 471-711) are network plumbing. Only the effect of the time handler (clamping and re-anchoring) is modelled, in `SetTime`. The power, display and dots handlers only assign configuration fields; the renderers read them from `config`.
- `loadConfig` and `saveConfig` are LittleFS file I/O and JSON. A loaded configuration enters the model as the constructor's argument, with a clamped time and four per-digit colours (`ValidConfig`).
- WiFi provisioning, the web server, Serial logging and the 250 ms refresh check in `loop` are left out, because they are driver glue.
- `asPixelColor`, `strip.show()` and the brightness set by `applyDisplaySettings` are NeoPixel driver calls. The strip is modelled as an array of RGB colours.
- `renderClock` and `renderDots` each read `millis()` once in the source. The model passes one `nowMs` to both, so a frame rendered across a tick boundary is not modelled.
- Firmware.LedClock.SetTime: the JSON values are taken as `int`. ArduinoJson's conversion of non-integer or out-of-range JSON numbers is not modelled.
- HexColor.HexToColor: Arduino `String::length` counts bytes, but the model counts characters. A non-ASCII value is therefore judged by code points, not UTF-8 bytes.
- Alarm scheduling, day masks, quiet hours and NTP synchronisation have no code in `src/main.cpp`. Only the `Alarm` mode is modelled: it renders like the clock and blinks its dots.
- include/index.h is the browser UI and is not part of this model.

## Findings

| source | as written | input that shows it | evidently intended | confidence | as-written member | corrected member |
|---|---|---|---|---|---|---|
| src/main.cpp:107-115 | `hexToColor` checks only the length and the leading `#`. It passes the rest to `strtoul`, which stops at the first non-hex character and gives 0 when there is none. | `"#zzzzzz"` gives black (0,0,0) instead of the fallback colour | a malformed colour keeps the previous (fallback) colour, as it does for a wrong length or a missing `#` | medium, not executed | HexColor.NonHexDigitsGiveBlack | HexColor.HexToColorStrict |
| src/main.cpp:350-354 | `computeCurrentTime` takes the elapsed time as the unsigned 32-bit difference `millis() - timeReferenceMs`, which wraps every 2^32 ms (about 49.7 days). | no time update for 2^32 ms after the last anchoring: on the last tick before the wrap the clock shows the anchor plus 17:02:47, on the next tick the anchor itself | the clock keeps counting forward, one second at a time | medium, not executed | ClockTime.AsWrittenClockJumpsBack | ClockTime.WideClockNeverJumpsBack |
