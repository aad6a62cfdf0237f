/**
 * Wall-clock time of day derived from an anchor time and the 32-bit
 * millisecond tick counter (`millis()`).
 */
module ClockTime {
  import opened Types

  const SECONDS_PER_HOUR: int := 3600
  const SECONDS_PER_DAY: int := 86400

  /** The firmware's `TimeSettings`: three bytes, normally clamped to a valid time of day. */
  datatype TimeSettings = TimeSettings(hour: uint8, minute: uint8, second: uint8)

  /** A normalised time of day: 00:00:00 .. 23:59:59. */
  predicate InRange(t: TimeSettings) {
    t.hour < 24 && t.minute < 60 && t.second < 60
  }

  /** Seconds since midnight. Never overflows 32 bits, whatever bytes it is given. */
  function TimeToSeconds(t: TimeSettings): (s: uint32)
    ensures s <= 255 * 3600 + 255 * 60 + 255
    ensures InRange(t) ==> s < SECONDS_PER_DAY
  {
    t.hour * 3600 + t.minute * 60 + t.second
  }

  /** Splits a second count, reduced modulo one day, into hour, minute and second. */
  function SecondsToTime(seconds: uint32): (t: TimeSettings)
    ensures InRange(t)
    ensures TimeToSeconds(t) == seconds % SECONDS_PER_DAY
  {
    var s := seconds % SECONDS_PER_DAY;
    var rest := s % SECONDS_PER_HOUR;
    assert s == (s / SECONDS_PER_HOUR) * SECONDS_PER_HOUR + rest;
    assert rest == (rest / 60) * 60 + rest % 60;
    TimeSettings(s / SECONDS_PER_HOUR, rest / 60, rest % 60)
  }

  /** Two in-range times with the same second count are the same time. */
  lemma {:induction false} TimeToSecondsInjective(t: TimeSettings, u: TimeSettings)
    requires InRange(t) && InRange(u)
    requires TimeToSeconds(t) == TimeToSeconds(u)
    ensures t == u
  {
    var mt := t.minute * 60 + t.second;
    var mu := u.minute * 60 + u.second;
    assert (t.hour * 3600 + mt) / 3600 == t.hour;
    assert (u.hour * 3600 + mu) / 3600 == u.hour;
    assert mt == mu;
    assert mt / 60 == t.minute;
    assert mu / 60 == u.minute;
  }

  /** Converting an in-range time to seconds and back gives the same time. */
  lemma {:induction false} TimeRoundTrip(t: TimeSettings)
    requires InRange(t)
    ensures SecondsToTime(TimeToSeconds(t)) == t
  {
    var s := TimeToSeconds(t);
    assert s % SECONDS_PER_DAY == s;
    var u := SecondsToTime(s);
    assert TimeToSeconds(u) == s;
    TimeToSecondsInjective(u, t);
  }

  /** Whole seconds since the anchor tick, using unsigned 32-bit subtraction. */
  function ElapsedSeconds(refMs: uint32, nowMs: uint32): (e: uint32)
    ensures e <= (UINT32_MODULUS - 1) / 1000
  {
    ((nowMs - refMs) % UINT32_MODULUS) / 1000
  }

  /**
   * `computeCurrentTime`: the anchor plus the whole seconds elapsed since
   * `refMs`, wrapped to a time of day. The 32-bit sum cannot overflow.
   */
  function CurrentTime(anchor: TimeSettings, refMs: uint32, nowMs: uint32): (t: TimeSettings)
    ensures InRange(t)
    ensures TimeToSeconds(t) == (TimeToSeconds(anchor) + ElapsedSeconds(refMs, nowMs)) % SECONDS_PER_DAY
  {
    var elapsed := ElapsedSeconds(refMs, nowMs);
    var anchorSeconds := TimeToSeconds(anchor);
    SecondsToTime(anchorSeconds + elapsed)
  }

  /** Unsigned subtraction undoes an unsigned addition of a distance below 2^32. */
  lemma {:induction false} UnsignedDistance(refMs: uint32, d: int)
    requires 0 <= d < UINT32_MODULUS
    ensures ((refMs + d) % UINT32_MODULUS - refMs) % UINT32_MODULUS == d
  {
    if refMs + d < UINT32_MODULUS {
      assert (refMs + d) % UINT32_MODULUS == refMs + d;
    } else {
      assert (refMs + d) % UINT32_MODULUS == refMs + d - UINT32_MODULUS;
      assert (d - UINT32_MODULUS) % UINT32_MODULUS == d;
    }
  }

  /**
   * Read at `refMs + 1000 * n + r` ticks (r < 1000, all within one 32-bit
   * period), the clock shows the anchor advanced by exactly `n` seconds,
   * modulo one day.
   */
  lemma {:induction false} CurrentTimeAfter(anchor: TimeSettings, refMs: uint32, n: nat, r: nat)
    requires r < 1000 && 1000 * n + r < UINT32_MODULUS
    ensures ElapsedSeconds(refMs, (refMs + 1000 * n + r) % UINT32_MODULUS) == n
    ensures TimeToSeconds(CurrentTime(anchor, refMs, (refMs + 1000 * n + r) % UINT32_MODULUS))
            == (TimeToSeconds(anchor) + n) % SECONDS_PER_DAY
    ensures CurrentTime(anchor, refMs, (refMs + 1000 * n + r) % UINT32_MODULUS)
            == SecondsToTime(TimeToSeconds(anchor) + n)
  {
    UnsignedDistance(refMs, 1000 * n + r);
    assert (1000 * n + r) / 1000 == n;
  }

  /** Immediately after re-anchoring (`refMs == nowMs`) the clock shows exactly the anchor. */
  lemma {:induction false} AnchorReadsBack(anchor: TimeSettings, nowMs: uint32)
    requires InRange(anchor)
    ensures CurrentTime(anchor, nowMs, nowMs) == anchor
  {
    assert ElapsedSeconds(nowMs, nowMs) == 0;
    TimeRoundTrip(anchor);
  }

  /** Whole days added to a second count do not change the time of day. */
  lemma {:induction false} DaysVanish(x: nat, days: nat)
    ensures (x + days * SECONDS_PER_DAY) % SECONDS_PER_DAY == x % SECONDS_PER_DAY
  {
    var q, r := x / SECONDS_PER_DAY, x % SECONDS_PER_DAY;
    assert x + days * SECONDS_PER_DAY == (q + days) * SECONDS_PER_DAY + r;
  }

  /**
   * The elapsed count is taken modulo 2^32 ms (about 49.7 days) since the
   * last anchoring: on the last tick before it wraps the clock shows the
   * anchor plus 4294967 s (17:02:47 later, modulo a day), and on the next
   * tick the anchor again. Without a re-anchoring the display jumps back.
   */
  lemma {:induction false} TickWrapJumpsBack(anchor: TimeSettings, refMs: uint32)
    requires InRange(anchor)
    ensures ElapsedSeconds(refMs, (refMs + UINT32_MODULUS - 1) % UINT32_MODULUS) == 4294967
    ensures TimeToSeconds(CurrentTime(anchor, refMs, (refMs + UINT32_MODULUS - 1) % UINT32_MODULUS))
            == (TimeToSeconds(anchor) + 61367) % SECONDS_PER_DAY
    ensures CurrentTime(anchor, refMs, refMs) == anchor
  {
    var n, r := 4294967, 295;
    var lastTick := (refMs + UINT32_MODULUS - 1) % UINT32_MODULUS;
    assert lastTick == (refMs + 1000 * n + r) % UINT32_MODULUS by {
      assert 1000 * n + r == UINT32_MODULUS - 1;
    }
    assert ElapsedSeconds(refMs, lastTick) == n
        && TimeToSeconds(CurrentTime(anchor, refMs, lastTick)) == (TimeToSeconds(anchor) + n) % SECONDS_PER_DAY by {
      CurrentTimeAfter(anchor, refMs, n, r);
    }
    assert (TimeToSeconds(anchor) + n) % SECONDS_PER_DAY == (TimeToSeconds(anchor) + 61367) % SECONDS_PER_DAY by {
      DaysVanish(TimeToSeconds(anchor) + 61367, 49);
    }
    AnchorReadsBack(anchor, refMs);
  }

  /**
   * The as-written clock is not monotone across the wrap: from the last tick
   * before it to the next, the time of day neither stays nor advances by one
   * second.
   */
  lemma {:induction false} AsWrittenClockJumpsBack(anchor: TimeSettings, refMs: uint32)
    requires InRange(anchor)
    ensures var lastTick := (refMs + UINT32_MODULUS - 1) % UINT32_MODULUS;
      var before := TimeToSeconds(CurrentTime(anchor, refMs, lastTick));
      var after := TimeToSeconds(CurrentTime(anchor, refMs, (lastTick + 1) % UINT32_MODULUS));
      after != before && after != (before + 1) % SECONDS_PER_DAY
  {
    var lastTick := (refMs + UINT32_MODULUS - 1) % UINT32_MODULUS;
    var a: int := TimeToSeconds(anchor);
    var before: int := TimeToSeconds(CurrentTime(anchor, refMs, lastTick));
    var after: int := TimeToSeconds(CurrentTime(anchor, refMs, (lastTick + 1) % UINT32_MODULUS));
    assert after == a by {
      TickAfterLast(refMs);
      AnchorReadsBack(anchor, refMs);
    }
    assert before == (a + 61367) % SECONDS_PER_DAY by {
      TickWrapJumpsBack(anchor, refMs);
    }
    JumpIsNotATick(a, before);
  }

  /** The tick after the last one before the wrap is the anchor tick again. */
  lemma {:induction false} TickAfterLast(refMs: uint32)
    ensures ((refMs + UINT32_MODULUS - 1) % UINT32_MODULUS + 1) % UINT32_MODULUS == refMs
  {
    if refMs == 0 {
      assert (refMs + UINT32_MODULUS - 1) % UINT32_MODULUS == UINT32_MODULUS - 1;
    } else {
      assert (refMs + UINT32_MODULUS - 1) % UINT32_MODULUS == refMs - 1;
    }
  }

  /** Advancing a time of day by 61367 s neither keeps it nor is one second before it. */
  lemma {:induction false} JumpIsNotATick(a: int, before: int)
    requires 0 <= a < SECONDS_PER_DAY && before == (a + 61367) % SECONDS_PER_DAY
    ensures a != before && a != (before + 1) % SECONDS_PER_DAY
  {
    if a + 61367 < SECONDS_PER_DAY {
      assert before == a + 61367;
    } else {
      assert before == a + 61367 - SECONDS_PER_DAY;
    }
  }

  /**
   * The evidently intended clock: the anchor advanced by the whole seconds in
   * an unbounded count of milliseconds since the anchoring, so elapsed time
   * never wraps.
   */
  function CurrentTimeWide(anchor: TimeSettings, elapsedMs: nat): (t: TimeSettings)
    ensures InRange(t)
    ensures TimeToSeconds(t) == (TimeToSeconds(anchor) + elapsedMs / 1000) % SECONDS_PER_DAY
  {
    var seconds := (TimeToSeconds(anchor) + elapsedMs / 1000) % SECONDS_PER_DAY;
    assert seconds % SECONDS_PER_DAY == seconds;
    SecondsToTime(seconds)
  }

  /** Within one 32-bit period the unbounded clock agrees with the as-written one. */
  lemma {:induction false} WideAgreesBeforeWrap(anchor: TimeSettings, refMs: uint32, elapsedMs: nat)
    requires elapsedMs < UINT32_MODULUS
    ensures TimeToSeconds(CurrentTimeWide(anchor, elapsedMs))
            == TimeToSeconds(CurrentTime(anchor, refMs, (refMs + elapsedMs) % UINT32_MODULUS))
  {
    UnsignedDistance(refMs, elapsedMs);
  }

  /** One more millisecond adds at most one whole second. */
  lemma {:induction false} NextMillisecond(d: nat)
    ensures (d + 1) / 1000 == d / 1000 || (d + 1) / 1000 == d / 1000 + 1
  {
    var q, r := d / 1000, d % 1000;
    if r + 1 < 1000 {
      assert d + 1 == 1000 * q + (r + 1);
    } else {
      assert d + 1 == 1000 * (q + 1);
    }
  }

  /** One more second moves a time of day to the next, wrapping at midnight. */
  lemma {:induction false} NextSecondOfDay(x: nat)
    ensures (x + 1) % SECONDS_PER_DAY == (x % SECONDS_PER_DAY + 1) % SECONDS_PER_DAY
  {
    var q, r := x / SECONDS_PER_DAY, x % SECONDS_PER_DAY;
    if r + 1 < SECONDS_PER_DAY {
      assert x + 1 == q * SECONDS_PER_DAY + (r + 1);
    } else {
      assert x + 1 == (q + 1) * SECONDS_PER_DAY;
    }
  }

  /** A second count one millisecond on keeps its time of day or moves it one second on. */
  lemma {:induction false} NextMillisecondOfDay(a: nat, d: nat)
    ensures var x := (a + d / 1000) % SECONDS_PER_DAY;
      (a + (d + 1) / 1000) % SECONDS_PER_DAY == x || (a + (d + 1) / 1000) % SECONDS_PER_DAY == (x + 1) % SECONDS_PER_DAY
  {
    NextMillisecond(d);
    if (d + 1) / 1000 != d / 1000 {
      NextSecondOfDay(a + d / 1000);
    }
  }

  /** With the unbounded count, each millisecond either keeps the time of day or advances it by one second. */
  lemma {:induction false} WideClockNeverJumpsBack(anchor: TimeSettings, elapsedMs: nat)
    ensures var before := TimeToSeconds(CurrentTimeWide(anchor, elapsedMs));
      var after := TimeToSeconds(CurrentTimeWide(anchor, elapsedMs + 1));
      after == before || after == (before + 1) % SECONDS_PER_DAY
  {
    NextMillisecondOfDay(TimeToSeconds(anchor), elapsedMs);
  }
}
