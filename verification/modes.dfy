/**
 * The operating mode: a closed six-value enumeration, stored in the
 * configuration as its lower-case name and decoded case-insensitively.
 */
module Modes {

  datatype OperatingMode = Clock | Timer | Weather | Custom | Alarm | Off

  /** C `tolower` in the "C" locale: only 'A'..'Z' change. */
  function LowerChar(c: char): (d: char)
    ensures 'A' <= c <= 'Z' ==> 'a' <= d <= 'z' && d as int - c as int == 'a' as int - 'A' as int
    ensures !('A' <= c <= 'Z') ==> d == c
  {
    if 'A' <= c <= 'Z' then (c as int - 'A' as int + 'a' as int) as char else c
  }

  /** Arduino `String::toLowerCase`: lower-cases every character in place. */
  function ToLower(s: string): (r: string)
    ensures |r| == |s|
    ensures forall i :: 0 <= i < |s| ==> r[i] == LowerChar(s[i])
  {
    if s == [] then [] else [LowerChar(s[0])] + ToLower(s[1..])
  }

  /** True when no character is an upper-case ASCII letter. */
  predicate IsLower(s: string) {
    forall i :: 0 <= i < |s| ==> !('A' <= s[i] <= 'Z')
  }

  /** The names `modeToString` produces. */
  const ModeNames: set<string> := {"clock", "timer", "weather", "custom", "alarm", "off"}

  function ModeToString(mode: OperatingMode): (name: string)
    ensures name in ModeNames
    ensures IsLower(name)
  {
    match mode
    case Clock => "clock"
    case Timer => "timer"
    case Weather => "weather"
    case Custom => "custom"
    case Alarm => "alarm"
    case Off => "off"
  }

  /**
   * `modeFromString`: lower-cases the input and matches it against the six
   * names; anything else falls back to `Clock`.
   */
  function ModeFromString(value: string): (mode: OperatingMode)
    ensures ToLower(value) in ModeNames ==> ModeToString(mode) == ToLower(value)
    ensures ToLower(value) !in ModeNames ==> mode == Clock
  {
    var lower := ToLower(value);
    if lower == "clock" then Clock
    else if lower == "timer" then Timer
    else if lower == "weather" then Weather
    else if lower == "custom" then Custom
    else if lower == "alarm" then Alarm
    else if lower == "off" then Off
    else Clock
  }

  /** `sanitizeMode`: the canonical name of whatever mode a string decodes to. */
  function SanitizeMode(value: string): (name: string)
    ensures name in ModeNames
  {
    ModeToString(ModeFromString(value))
  }

  /** Lower-casing a string that has no upper-case letters leaves it unchanged. */
  lemma ToLowerOfLower(s: string)
    requires IsLower(s)
    ensures ToLower(s) == s
  {
  }

  /** Lower-casing is idempotent. */
  lemma ToLowerIdempotent(s: string)
    ensures ToLower(ToLower(s)) == ToLower(s)
  {
  }

  /** Decoding the name of a mode gives that mode back. */
  lemma ModeRoundTrip(mode: OperatingMode)
    ensures ModeFromString(ModeToString(mode)) == mode
  {
    ToLowerOfLower(ModeToString(mode));
  }

  /** Distinct modes have distinct names. */
  lemma ModeToStringInjective(m: OperatingMode, n: OperatingMode)
    requires ModeToString(m) == ModeToString(n)
    ensures m == n
  {
    ModeRoundTrip(m);
    ModeRoundTrip(n);
  }

  /** The decoder ignores case: a string decodes like its lower-cased form. */
  lemma ModeFromStringIgnoresCase(s: string, t: string)
    requires ToLower(s) == ToLower(t)
    ensures ModeFromString(s) == ModeFromString(t)
    ensures ModeFromString(s) == ModeFromString(ToLower(s))
  {
    ToLowerIdempotent(s);
  }

  /**
   * Exactly which strings decode to a mode: those whose lower-cased form is
   * its name, and for `Clock` additionally every unrecognised string.
   */
  lemma ModeFromStringExactly(value: string, mode: OperatingMode)
    ensures ModeFromString(value) == mode
            <==> ToLower(value) == ModeToString(mode) || (mode == Clock && ToLower(value) !in ModeNames)
  {
    if ToLower(value) == ModeToString(mode) {
      ModeRoundTrip(mode);
      ModeFromStringIgnoresCase(value, ModeToString(mode));
    }
  }

  /** Sanitising an already sanitised name changes nothing. */
  lemma SanitizeIdempotent(value: string)
    ensures SanitizeMode(SanitizeMode(value)) == SanitizeMode(value)
  {
    ModeRoundTrip(ModeFromString(value));
  }

  /** Sanitising preserves the decoded mode. */
  lemma SanitizePreservesMode(value: string)
    ensures ModeFromString(SanitizeMode(value)) == ModeFromString(value)
  {
    ModeRoundTrip(ModeFromString(value));
  }
}
