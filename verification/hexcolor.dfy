/**
 * `#RRGGBB` colour strings: the encoder `colorToHex` and the decoder
 * `hexToColor`, which hands the last six characters to `strtoul(…, 16)`.
 */
module HexColor {
  import opened Types

  predicate IsHexDigit(c: char) {
    '0' <= c <= '9' || 'a' <= c <= 'f' || 'A' <= c <= 'F'
  }

  function HexDigitValue(c: char): (v: nat)
    requires IsHexDigit(c)
    ensures v < 16
  {
    if '0' <= c <= '9' then c as int - '0' as int
    else if 'a' <= c <= 'f' then c as int - 'a' as int + 10
    else c as int - 'A' as int + 10
  }

  /** The value of a string of hex digits, most significant first. */
  function HexValue(digits: string): (v: nat)
    requires forall i :: 0 <= i < |digits| ==> IsHexDigit(digits[i])
  {
    if digits == [] then 0
    else HexValue(digits[..|digits| - 1]) * 16 + HexDigitValue(digits[|digits| - 1])
  }

  /** C `isspace` in the "C" locale. */
  predicate IsSpace(c: char) {
    c == ' ' || c == '\t' || c == '\n' || c == 11 as char || c == 12 as char || c == '\r'
  }

  function SkipSpaces(s: string): (t: string)
    ensures |t| <= |s| && t == s[|s| - |t|..]
    ensures t == [] || !IsSpace(t[0])
    ensures forall i :: 0 <= i < |s| - |t| ==> IsSpace(s[i])
  {
    if s != [] && IsSpace(s[0]) then SkipSpaces(s[1..]) else s
  }

  /** Length of the longest prefix made of hex digits. */
  function HexPrefixLength(s: string): (n: nat)
    ensures n <= |s|
    ensures forall i :: 0 <= i < n ==> IsHexDigit(s[i])
    ensures n == |s| || !IsHexDigit(s[n])
  {
    if s != [] && IsHexDigit(s[0]) then 1 + HexPrefixLength(s[1..]) else 0
  }

  /** The hex digits `strtoul` consumes: the longest run of them at the front. */
  function LeadingHexDigits(v: string): (d: string)
    ensures |d| <= |v| && d == v[..|d|]
    ensures forall i :: 0 <= i < |d| ==> IsHexDigit(d[i])
    ensures |d| == |v| || !IsHexDigit(v[|d|])
  {
    v[..HexPrefixLength(v)]
  }

  /** What follows an optional sign and an optional `0x`/`0X` prefix. */
  function SkipSignAndPrefix(t: string): (v: string)
    ensures |v| <= |t|
  {
    var u := if t != [] && (t[0] == '-' || t[0] == '+') then t[1..] else t;
    if |u| >= 2 && u[0] == '0' && (u[1] == 'x' || u[1] == 'X') then u[2..] else u
  }

  /**
   * The value `strtoul(s, nullptr, 16)` returns with a 32-bit `unsigned long`:
   * leading white space, an optional sign, an optional `0x`/`0X`, then as many
   * hex digits as follow; no digits gives 0, overflow gives the maximum, and a
   * minus sign negates modulo 2^32.
   */
  function StrToUL16(s: string): (n: uint32)
    ensures var t := SkipSpaces(s); var digits := LeadingHexDigits(SkipSignAndPrefix(t));
      && (digits == [] ==> n == 0)
      && (HexValue(digits) >= UINT32_MODULUS ==> n == UINT32_MODULUS - 1)
      && (HexValue(digits) < UINT32_MODULUS && !(t != [] && t[0] == '-') ==> n == HexValue(digits))
      && (HexValue(digits) < UINT32_MODULUS && t != [] && t[0] == '-' ==> (n + HexValue(digits)) % UINT32_MODULUS == 0)
  {
    var t := SkipSpaces(s);
    var negative := t != [] && t[0] == '-';
    var acc := HexValue(LeadingHexDigits(SkipSignAndPrefix(t)));
    if acc >= UINT32_MODULUS then UINT32_MODULUS - 1
    else if negative then (if acc == 0 then 0 else UINT32_MODULUS - acc)
    else acc
  }

  /** Six hex digits, with nothing before them, are read as they are. */
  lemma {:induction false} StrToUL16OfSixDigits(s: string)
    requires |s| == 6 && forall i :: 0 <= i < 6 ==> IsHexDigit(s[i])
    ensures StrToUL16(s) == HexValue(s)
  {
    assert !IsSpace(s[0]) && SkipSpaces(s) == s;
    assert s[0] != '-' && s[0] != '+' && s[1] != 'x' && s[1] != 'X';
    assert SkipSignAndPrefix(s) == s;
    assert HexPrefixLength(s) == 6;
    assert LeadingHexDigits(s) == s;
    SixDigitsBelow(s);
  }

  /** Six hex digits are below 2^24, far from the 32-bit limit. */
  lemma {:induction false} SixDigitsBelow(v: string)
    requires |v| == 6 && forall i :: 0 <= i < 6 ==> IsHexDigit(v[i])
    ensures HexValue(v) < 0x100_0000
  {
    SixDigits(v);
  }

  /** The three bytes of a packed colour: bits 16-23, 8-15 and 0-7. */
  function Unpack(number: uint32): (c: Color)
    ensures number % 0x100_0000 == c.r * 0x1_0000 + c.g * 0x100 + c.b
  {
    SplitBytes(number);
    Color((number / 0x1_0000) % 0x100, (number / 0x100) % 0x100, number % 0x100)
  }

  /** The low three bytes of a number, each cut out by a shift and a mask, put it back together. */
  lemma {:induction false} SplitBytes(number: nat)
    ensures number % 0x100_0000
            == ((number / 0x1_0000) % 0x100) * 0x1_0000 + ((number / 0x100) % 0x100) * 0x100 + number % 0x100
  {
    var h1, b := number / 0x100, number % 0x100;
    var h2, g := h1 / 0x100, h1 % 0x100;
    var h3, r := h2 / 0x100, h2 % 0x100;
    assert number / 0x1_0000 == h2 by {
      assert number == h2 * 0x1_0000 + (g * 0x100 + b);
    }
    assert number % 0x100_0000 == r * 0x1_0000 + g * 0x100 + b by {
      assert number == h3 * 0x100_0000 + (r * 0x1_0000 + g * 0x100 + b);
    }
  }

  /** `hexToColor`: the fallback unless the string has length 7 and starts with '#'. */
  function HexToColor(value: string, fallback: Color): (c: Color)
    ensures |value| != 7 || value[0] != '#' ==> c == fallback
  {
    if |value| != 7 || value[0] != '#' then fallback
    else
      Unpack(StrToUL16(value[1..]))
  }

  /** `#` followed by exactly six hex digits. */
  predicate WellFormedHex(value: string) {
    |value| == 7 && value[0] == '#' && forall i :: 1 <= i < 7 ==> IsHexDigit(value[i])
  }

  /** The upper-case hex digit of a value below 16, as `%X` prints it. */
  function HexDigitChar(d: nat): (c: char)
    requires d < 16
    ensures IsHexDigit(c) && !('a' <= c <= 'f') && HexDigitValue(c) == d
  {
    if d < 10 then ('0' as int + d) as char else ('A' as int + d - 10) as char
  }

  /** Two upper-case hex digits, as `%02X` prints a byte. */
  function HexByte(x: uint8): (s: string)
    ensures |s| == 2 && IsHexDigit(s[0]) && IsHexDigit(s[1])
    ensures ByteValue(s[0], s[1]) == x
  {
    [HexDigitChar(x / 16), HexDigitChar(x % 16)]
  }

  /** `colorToHex`: `#RRGGBB` with upper-case digits; each pair reads back as its channel. */
  function ColorToHex(color: Color): (s: string)
    ensures WellFormedHex(s)
    ensures ByteValue(s[1], s[2]) == color.r && ByteValue(s[3], s[4]) == color.g && ByteValue(s[5], s[6]) == color.b
  {
    var r, g, b := HexByte(color.r), HexByte(color.g), HexByte(color.b);
    ['#', r[0], r[1], g[0], g[1], b[0], b[1]]
  }

  /** A pair of hex digits is a byte: sixteen times the first plus the second. */
  lemma {:induction false} TwoDigits(b: string)
    requires |b| == 2 && IsHexDigit(b[0]) && IsHexDigit(b[1])
    ensures HexValue(b) == HexDigitValue(b[0]) * 16 + HexDigitValue(b[1])
    ensures HexValue(b) < 0x100
  {
    var first := b[..1];
    assert first == [b[0]] && first[..0] == [];
    assert HexValue(first) == HexDigitValue(b[0]);
  }

  /** The byte two hex digits denote, the first the more significant. */
  function ByteValue(hi: char, lo: char): uint8
    requires IsHexDigit(hi) && IsHexDigit(lo)
  {
    HexDigitValue(hi) * 16 + HexDigitValue(lo)
  }

  /** Appending two hex digits multiplies the value by 256 and adds theirs. */
  lemma {:induction false} HexValueAppendByte(a: string, b: string)
    requires forall i :: 0 <= i < |a| ==> IsHexDigit(a[i])
    requires |b| == 2 && IsHexDigit(b[0]) && IsHexDigit(b[1])
    ensures forall i :: 0 <= i < |a + b| ==> IsHexDigit((a + b)[i])
    ensures HexValue(a + b) == HexValue(a) * 256 + HexValue(b)
  {
    var ab := a + b;
    var a1 := a + [b[0]];
    assert ab[..|ab| - 1] == a1;
    assert a1[..|a1| - 1] == a;
    assert HexValue(a1) == HexValue(a) * 16 + HexDigitValue(b[0]);
    assert HexValue(ab) == HexValue(a1) * 16 + HexDigitValue(b[1]);
    TwoDigits(b);
  }

  /** Six hex digits read as one number split into its three bytes. */
  lemma {:induction false} SixDigits(v: string)
    requires |v| == 6 && forall i :: 0 <= i < 6 ==> IsHexDigit(v[i])
    ensures HexValue(v) == ByteValue(v[0], v[1]) * 0x1_0000 + ByteValue(v[2], v[3]) * 0x100 + ByteValue(v[4], v[5])
  {
    HexValueAppendByte(v[0..2], v[2..4]);
    assert v[0..2] + v[2..4] == v[..4];
    HexValueAppendByte(v[..4], v[4..6]);
    assert v[..4] + v[4..6] == v;
    TwoDigits(v[0..2]);
    TwoDigits(v[2..4]);
    TwoDigits(v[4..6]);
  }

  /** `strtoul` reads the six digits after a well-formed `#` as the three bytes they spell. */
  lemma {:induction false} DecodeSixDigits(value: string)
    requires WellFormedHex(value)
    ensures StrToUL16(value[1..])
            == ByteValue(value[1], value[2]) * 0x1_0000 + ByteValue(value[3], value[4]) * 0x100
               + ByteValue(value[5], value[6])
  {
    var s := value[1..];
    StrToUL16OfSixDigits(s);
    SixDigits(s);
  }

  /** Whatever `strtoul` returns is split into its three low bytes. */
  lemma {:induction false} HexToColorOfNumber(value: string, fallback: Color, r: uint8, g: uint8, b: uint8)
    requires |value| == 7 && value[0] == '#'
    requires StrToUL16(value[1..]) == r * 0x1_0000 + g * 0x100 + b
    ensures HexToColor(value, fallback) == Color(r, g, b)
  {
    UnpackBytes(r, g, b);
  }

  /** A well-formed `#RRGGBB` string decodes to the colour its three pairs name. */
  lemma {:induction false} HexToColorWellFormed(value: string, fallback: Color)
    requires WellFormedHex(value)
    ensures HexToColor(value, fallback)
            == Color(ByteValue(value[1], value[2]), ByteValue(value[3], value[4]), ByteValue(value[5], value[6]))
  {
    DecodeSixDigits(value);
    HexToColorOfNumber(value, fallback,
                       ByteValue(value[1], value[2]), ByteValue(value[3], value[4]), ByteValue(value[5], value[6]));
  }

  /** Shifting and masking a packed 24-bit colour recovers its three bytes. */
  lemma {:induction false} UnpackBytes(r: uint8, g: uint8, b: uint8)
    ensures r * 0x1_0000 + g * 0x100 + b < UINT32_MODULUS
    ensures Unpack(r * 0x1_0000 + g * 0x100 + b) == Color(r, g, b)
  {
    var n: int := r * 0x1_0000 + g * 0x100 + b;
    assert n / 0x1_0000 == r;
    assert n / 0x100 == r * 0x100 + g;
    assert (r * 0x100 + g) % 0x100 == g;
  }

  /** Encoding a colour and decoding it again gives the colour back, whatever the fallback. */
  lemma HexRoundTrip(color: Color, fallback: Color)
    ensures HexToColor(ColorToHex(color), fallback) == color
  {
    HexToColorWellFormed(ColorToHex(color), fallback);
  }

  /** Once length and '#' pass, the fallback plays no part in the result. */
  lemma HexToColorIgnoresFallback(value: string, f1: Color, f2: Color)
    requires |value| == 7 && value[0] == '#'
    ensures HexToColor(value, f1) == HexToColor(value, f2)
  {
  }

  /**
   * Six characters that are not hex digits are not rejected: `strtoul` reads
   * no digit and returns 0, so the result is black instead of the fallback.
   */
  lemma NonHexDigitsGiveBlack(fallback: Color)
    ensures HexToColor("#zzzzzz", fallback) == Dark
  {
    var s := "#zzzzzz"[1..];
    assert SkipSpaces(s) == s;
    assert SkipSignAndPrefix(s) == s;
    assert HexPrefixLength(s) == 0;
  }

  /**
   * `hexToColor` as its callers use it, returning the fallback for any string
   * that is not `#` and six hex digits, so a malformed value keeps the colour.
   */
  function HexToColorStrict(value: string, fallback: Color): (c: Color)
    ensures !WellFormedHex(value) ==> c == fallback
    ensures WellFormedHex(value)
            ==> c == Color(ByteValue(value[1], value[2]), ByteValue(value[3], value[4]), ByteValue(value[5], value[6]))
  {
    if WellFormedHex(value) then
      HexToColorWellFormed(value, fallback);
      HexToColor(value, fallback)
    else fallback
  }

  /** The strict decoder inverts `colorToHex` too. */
  lemma StrictRoundTrip(color: Color, fallback: Color)
    ensures HexToColorStrict(ColorToHex(color), fallback) == color
  {
  }
}
