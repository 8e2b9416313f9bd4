/** Subtitle timestamps: conversion of parsed `HH:MM:SS,mmm` fields to
    milliseconds, and the inverse rendering used when subtitles are written
    out from transcription segments. */
module SrtTime {
  import opened Wrappers
  import opened PyNum

  /** A timestamp as the subtitle parser hands it over: four integer fields. */
  datatype Timestamp = Timestamp(hours: int, minutes: int, seconds: int, milliseconds: int)

  predicate NonNegative(t: Timestamp) {
    0 <= t.hours && 0 <= t.minutes && 0 <= t.seconds && 0 <= t.milliseconds
  }

  /** Every field within its clock range; hours are unbounded above. */
  predicate InRange(t: Timestamp) {
    && 0 <= t.hours
    && 0 <= t.minutes < 60
    && 0 <= t.seconds < 60
    && 0 <= t.milliseconds < 1000
  }

  /** Lexicographic order on (hours, minutes, seconds, milliseconds). */
  predicate LexBefore(a: Timestamp, b: Timestamp) {
    || a.hours < b.hours
    || (a.hours == b.hours && a.minutes < b.minutes)
    || (a.hours == b.hours && a.minutes == b.minutes && a.seconds < b.seconds)
    || (a.hours == b.hours && a.minutes == b.minutes && a.seconds == b.seconds
        && a.milliseconds < b.milliseconds)
  }

  /** `srt_time_to_ms`: the timestamp as a millisecond count. */
  function ToMs(t: Timestamp): (ms: int)
    ensures NonNegative(t) ==> ms >= 0
  {
    (t.hours * 3600 + t.minutes * 60 + t.seconds) * 1000 + t.milliseconds
  }

  /** Within the clock ranges, the millisecond count orders timestamps
      exactly as their fields do lexicographically. */
  lemma ToMsOrder(a: Timestamp, b: Timestamp)
    requires InRange(a) && InRange(b)
    ensures LexBefore(a, b) <==> ToMs(a) < ToMs(b)
    ensures ToMs(a) == ToMs(b) <==> a == b
  {
  }

  /** The field split `format_srt_time` performs on a number of seconds:
      milliseconds from the fractional part, then `divmod` by 60 twice on
      the truncated whole seconds. For a non-negative time the fields land
      in the clock ranges and lose only what lies below a millisecond. */
  function SplitSeconds(seconds: real): (t: Timestamp)
    ensures seconds >= 0.0 ==> InRange(t) && ToMs(t) == (seconds * 1000.0).Floor
  {
    var ms := Trunc(FracPart(seconds) * 1000.0);
    var whole := Trunc(seconds);
    var totalMinutes := whole / 60;
    WholeAndMillis(seconds);
    assert whole / 60 * 60 + whole % 60 == whole;
    assert totalMinutes / 60 * 60 + totalMinutes % 60 == totalMinutes;
    Timestamp(totalMinutes / 60, totalMinutes % 60, whole % 60, ms)
  }

  lemma FloorShift(n: int, y: real)
    ensures (n as real + y).Floor == n + y.Floor
  {
  }

  /** For a non-negative time, the truncated whole seconds and the
      truncated milliseconds of the fractional part together make up the
      time truncated to the millisecond. */
  lemma WholeAndMillis(seconds: real)
    ensures seconds >= 0.0 ==> 0 <= Trunc(FracPart(seconds) * 1000.0) < 1000
    ensures seconds >= 0.0 ==>
      Trunc(seconds) * 1000 + Trunc(FracPart(seconds) * 1000.0) == (seconds * 1000.0).Floor
  {
    if seconds >= 0.0 {
      var whole := seconds.Floor;
      var frac := FracPart(seconds);
      assert seconds == whole as real + frac;
      assert Trunc(seconds) == whole;
      var ms := (frac * 1000.0).Floor;
      calc {
        whole * 1000 + ms;
        { FloorShift(whole * 1000, frac * 1000.0); }
        ((whole * 1000) as real + frac * 1000.0).Floor;
        { assert (whole * 1000) as real + frac * 1000.0 == seconds * 1000.0; }
        (seconds * 1000.0).Floor;
      }
    }
  }

  /** Splitting the seconds value of an in-range timestamp gives the
      timestamp back: the two conversions are inverse on whole milliseconds. */
  lemma SplitSecondsOfMs(t: Timestamp)
    requires InRange(t)
    ensures SplitSeconds(ToMs(t) as real / 1000.0) == t
  {
    var total := ToMs(t);
    var whole := t.hours * 3600 + t.minutes * 60 + t.seconds;
    var x := total as real / 1000.0;
    assert x == whole as real + t.milliseconds as real / 1000.0;
    FloorShift(whole, t.milliseconds as real / 1000.0);
    assert x.Floor == whole;
    assert FracPart(x) == t.milliseconds as real / 1000.0;
    assert FracPart(x) * 1000.0 == t.milliseconds as real;
    assert Trunc(x) == whole;
    assert whole / 60 == t.hours * 60 + t.minutes;
    assert whole % 60 == t.seconds;
    assert (t.hours * 60 + t.minutes) / 60 == t.hours;
    assert (t.hours * 60 + t.minutes) % 60 == t.minutes;
  }

  // ---------------------------------------------------------------------
  // Rendering as text
  // ---------------------------------------------------------------------

  function Digit(d: int): char
    requires 0 <= d < 10
  {
    ('0' as int + d) as char
  }

  predicate IsDigit(c: char) {
    '0' <= c <= '9'
  }

  function DigitValue(c: char): int
    requires IsDigit(c)
  {
    c as int - '0' as int
  }

  /** Decimal digits of `n` without leading zeros ("0" for zero). */
  function DecimalDigits(n: nat): (s: string)
    ensures |s| >= 1
    ensures forall k :: 0 <= k < |s| ==> IsDigit(s[k])
    decreases n
  {
    if n < 10 then [Digit(n)] else DecimalDigits(n / 10) + [Digit(n % 10)]
  }

  function ZeroFill(s: string, width: nat): string {
    if |s| >= width then s else seq(width - |s|, _ => '0') + s
  }

  /** Python's `f"{n:0W}"` for an integer: the sign first, then the digits
      zero-filled so that sign and digits together take `width` places. */
  function FormatInt(n: int, width: nat): (s: string)
    ensures |s| >= width
    ensures n >= 0 ==> forall k :: 0 <= k < |s| ==> IsDigit(s[k])
    ensures n < 0 ==> |s| >= 2 && s[0] == '-'
  {
    if n < 0 then "-" + ZeroFill(DecimalDigits(-n), if width > 0 then width - 1 else 0)
    else ZeroFill(DecimalDigits(n), width)
  }

  /** The `HH:MM:SS,mmm` text of a timestamp, each field rendered as
      `format_srt_time` renders it. */
  function Render(t: Timestamp): (s: string)
    ensures |s| >= 12
  {
    FormatInt(t.hours, 2) + ":" + FormatInt(t.minutes, 2) + ":"
    + FormatInt(t.seconds, 2) + "," + FormatInt(t.milliseconds, 3)
  }

  /** `format_srt_time`: seconds to subtitle timestamp text. A
      non-negative time below 100 hours gives the canonical
      twelve-character form, which reads back as in-range fields whose
      millisecond count is the time truncated to the millisecond. */
  function FormatSrtTime(seconds: real): (s: string)
    ensures 0.0 <= seconds < 360000.0 ==>
      && |s| == 12
      && Parse(s).Some?
      && ToMs(Parse(s).value) == (seconds * 1000.0).Floor
  {
    var t := SplitSeconds(seconds);
    if 0.0 <= seconds < 360000.0 then
      assert t.hours < 100 by {
        assert Trunc(seconds) < 360000;
      }
      ParseRender(t);
      Render(t)
    else Render(t)
  }

  /** The binary64 number Python stores for the literal `1.13`: the
      nearest double, which lies just below 1.13. Transcription segment
      times arrive as such doubles. */
  const Double113: real := 1272266894732165.0 / 1125899906842624.0

  /** `format_srt_time` as written truncates the millisecond field, so a
      time that is a whole number of milliseconds as the user sees it can
      come out one millisecond early: the double for 1.13 seconds, which
      is within a millionth of a millisecond of 1130 ms, renders as
      `00:00:01,129`. */
  lemma TruncationLosesMillisecond()
    ensures -0.5 < Double113 * 1000.0 - 1130.0 < 0.5
    ensures Parse(FormatSrtTime(Double113)) == Some(Timestamp(0, 0, 1, 129))
  {
    assert 1129.0 <= Double113 * 1000.0 < 1130.0;
    var t := SplitSeconds(Double113);
    assert InRange(t) && ToMs(t) == 1129;
    assert ToMs(Parse(FormatSrtTime(Double113)).value) == 1129;
    ToMsOrder(Parse(FormatSrtTime(Double113)).value, Timestamp(0, 0, 1, 129));
    RenderParse(FormatSrtTime(Double113));
  }

  /** Python's `round` on a float: the nearest integer, ties to the even
      one. */
  function RoundHalfEven(x: real): (r: int)
    ensures -0.5 <= x - r as real <= 0.5
    ensures (x - r as real == 0.5 || r as real - x == 0.5) ==> r % 2 == 0
  {
    var f := x.Floor;
    var d := x - f as real;
    if d < 0.5 then f
    else if d > 0.5 then f + 1
    else if f % 2 == 0 then f else f + 1
  }

  /** A millisecond count split into clock fields by `divmod`. */
  function SplitMillis(ms: int): (t: Timestamp)
    ensures ms >= 0 ==> InRange(t) && ToMs(t) == ms
  {
    var totalSeconds := ms / 1000;
    var totalMinutes := totalSeconds / 60;
    assert totalSeconds * 1000 + ms % 1000 == ms;
    assert totalMinutes * 60 + totalSeconds % 60 == totalSeconds;
    assert totalMinutes / 60 * 60 + totalMinutes % 60 == totalMinutes;
    Timestamp(totalMinutes / 60, totalMinutes % 60, totalSeconds % 60, ms % 1000)
  }

  /** The timestamp formatter with the millisecond count rounded rather
      than truncated: `round(seconds * 1000)` split by `divmod`. */
  function FormatSrtTimeRounded(seconds: real): (s: string)
    ensures 0 <= RoundHalfEven(seconds * 1000.0) < 360000000 ==>
      && |s| == 12
      && Parse(s).Some?
      && ToMs(Parse(s).value) == RoundHalfEven(seconds * 1000.0)
  {
    var total := RoundHalfEven(seconds * 1000.0);
    var t := SplitMillis(total);
    if 0 <= total < 360000000 then
      assert t.hours < 100;
      ParseRender(t);
      Render(t)
    else Render(t)
  }

  /** The rounding formatter renders every time within half a millisecond
      of a whole millisecond count as exactly that count. */
  lemma RoundedKeepsMillisecond(seconds: real, ms: int)
    requires 0 <= ms < 360000000
    requires -0.5 < seconds * 1000.0 - ms as real < 0.5
    ensures Parse(FormatSrtTimeRounded(seconds)) == Some(SplitMillis(ms))
  {
    var r := RoundHalfEven(seconds * 1000.0);
    assert r == ms;
    ParseRender(SplitMillis(ms));
  }

  /** Formatting the seconds value of an in-range timestamp below 100
      hours with the rounding formatter reads back as that timestamp. */
  lemma RoundedRoundTrip(t: Timestamp)
    requires InRange(t) && t.hours < 100
    ensures Parse(FormatSrtTimeRounded(ToMs(t) as real / 1000.0)) == Some(t)
  {
    var ms := ToMs(t);
    assert ms as real / 1000.0 * 1000.0 == ms as real;
    RoundedKeepsMillisecond(ms as real / 1000.0, ms);
    ToMsOrder(SplitMillis(ms), t);
  }

  /** On the double for 1.13 seconds the rounding formatter gives
      `00:00:01,130`. */
  lemma RoundingKeepsMillisecond()
    ensures Parse(FormatSrtTimeRounded(Double113)) == Some(Timestamp(0, 0, 1, 130))
  {
    TruncationLosesMillisecond();
    RoundedKeepsMillisecond(Double113, 1130);
    ToMsOrder(SplitMillis(1130), Timestamp(0, 0, 1, 130));
  }

  function Value2(a: char, b: char): int
    requires IsDigit(a) && IsDigit(b)
  {
    10 * DigitValue(a) + DigitValue(b)
  }

  /** Reads the canonical twelve-character `HH:MM:SS,mmm` form: two-digit
      hours, minutes and seconds, three-digit milliseconds. */
  function Parse(s: string): Option<Timestamp> {
    if && |s| == 12
       && IsDigit(s[0]) && IsDigit(s[1]) && s[2] == ':'
       && IsDigit(s[3]) && IsDigit(s[4]) && s[5] == ':'
       && IsDigit(s[6]) && IsDigit(s[7]) && s[8] == ','
       && IsDigit(s[9]) && IsDigit(s[10]) && IsDigit(s[11])
       && Value2(s[3], s[4]) < 60 && Value2(s[6], s[7]) < 60
    then Some(Timestamp(Value2(s[0], s[1]), Value2(s[3], s[4]), Value2(s[6], s[7]),
                        10 * Value2(s[9], s[10]) + DigitValue(s[11])))
    else None
  }

  lemma FormatTwoDigits(n: int)
    requires 0 <= n < 100
    ensures FormatInt(n, 2) == [Digit(n / 10), Digit(n % 10)]
  {
    if n >= 10 {
      assert DecimalDigits(n) == DecimalDigits(n / 10) + [Digit(n % 10)];
    }
  }

  lemma FormatThreeDigits(n: int)
    requires 0 <= n < 1000
    ensures FormatInt(n, 3) == [Digit(n / 100), Digit(n / 10 % 10), Digit(n % 10)]
  {
    if n >= 100 {
      assert DecimalDigits(n) == DecimalDigits(n / 10) + [Digit(n % 10)];
      assert DecimalDigits(n / 10) == DecimalDigits(n / 100) + [Digit(n / 10 % 10)];
    } else if n >= 10 {
      assert DecimalDigits(n) == DecimalDigits(n / 10) + [Digit(n % 10)];
    }
  }

  lemma TwoDigitsValue(n: int)
    requires 0 <= n < 100
    ensures IsDigit(Digit(n / 10)) && IsDigit(Digit(n % 10))
    ensures Value2(Digit(n / 10), Digit(n % 10)) == n
  {
  }

  /** In-range timestamps below 100 hours render to the canonical form,
      and reading that form gives the timestamp back. */
  lemma {:induction false} ParseRender(t: Timestamp)
    requires InRange(t) && t.hours < 100
    ensures |Render(t)| == 12
    ensures Parse(Render(t)) == Some(t)
  {
    RenderDigits(t);
    TwoDigitsValue(t.hours);
    TwoDigitsValue(t.minutes);
    TwoDigitsValue(t.seconds);
    TwoDigitsValue(t.milliseconds / 10);
    assert t.milliseconds / 10 / 10 == t.milliseconds / 100;
    assert DigitValue(Digit(t.milliseconds % 10)) == t.milliseconds % 10;
    ParseCanonical(Digit(t.hours / 10), Digit(t.hours % 10),
                   Digit(t.minutes / 10), Digit(t.minutes % 10),
                   Digit(t.seconds / 10), Digit(t.seconds % 10),
                   Digit(t.milliseconds / 100), Digit(t.milliseconds / 10 % 10),
                   Digit(t.milliseconds % 10));
  }

  /** The reader on a string of canonical shape. */
  lemma ParseCanonical(h1: char, h2: char, m1: char, m2: char, s1: char, s2: char,
                       f1: char, f2: char, f3: char)
    requires IsDigit(h1) && IsDigit(h2) && IsDigit(m1) && IsDigit(m2)
    requires IsDigit(s1) && IsDigit(s2) && IsDigit(f1) && IsDigit(f2) && IsDigit(f3)
    requires Value2(m1, m2) < 60 && Value2(s1, s2) < 60
    ensures Parse([h1, h2, ':', m1, m2, ':', s1, s2, ',', f1, f2, f3])
      == Some(Timestamp(Value2(h1, h2), Value2(m1, m2), Value2(s1, s2), 10 * Value2(f1, f2) + DigitValue(f3)))
  {
  }

  /** The rendering of an in-range timestamp below 100 hours, character by
      character. */
  lemma RenderDigits(t: Timestamp)
    requires InRange(t) && t.hours < 100
    ensures Render(t) == [Digit(t.hours / 10), Digit(t.hours % 10), ':',
                          Digit(t.minutes / 10), Digit(t.minutes % 10), ':',
                          Digit(t.seconds / 10), Digit(t.seconds % 10), ',',
                          Digit(t.milliseconds / 100), Digit(t.milliseconds / 10 % 10),
                          Digit(t.milliseconds % 10)]
  {
    FormatTwoDigits(t.hours);
    FormatTwoDigits(t.minutes);
    FormatTwoDigits(t.seconds);
    FormatThreeDigits(t.milliseconds);
  }

  lemma DigitRoundTrip(c: char)
    requires IsDigit(c)
    ensures Digit(DigitValue(c)) == c
  {
  }

  lemma Value2Digits(a: char, b: char)
    requires IsDigit(a) && IsDigit(b)
    ensures Value2(a, b) / 10 == DigitValue(a) && Value2(a, b) % 10 == DigitValue(b)
  {
  }

  lemma TwoDigitsOf(a: char, b: char)
    requires IsDigit(a) && IsDigit(b)
    ensures FormatInt(Value2(a, b), 2) == [a, b]
  {
    Value2Digits(a, b);
    FormatTwoDigits(Value2(a, b));
    DigitRoundTrip(a);
    DigitRoundTrip(b);
  }

  lemma ThreeDigitsOf(a: char, b: char, c: char)
    requires IsDigit(a) && IsDigit(b) && IsDigit(c)
    ensures FormatInt(10 * Value2(a, b) + DigitValue(c), 3) == [a, b, c]
  {
    var n := 10 * Value2(a, b) + DigitValue(c);
    Value2Digits(a, b);
    assert n / 10 == Value2(a, b) && n % 10 == DigitValue(c);
    assert n / 100 == DigitValue(a) && n / 10 % 10 == DigitValue(b);
    FormatThreeDigits(n);
    DigitRoundTrip(a);
    DigitRoundTrip(b);
    DigitRoundTrip(c);
  }

  /** Every text the reader accepts is exactly the rendering of what it
      reads: the canonical form has a single spelling per timestamp. */
  lemma {:induction false} RenderParse(s: string)
    requires Parse(s).Some?
    ensures InRange(Parse(s).value) && Parse(s).value.hours < 100
    ensures Render(Parse(s).value) == s
  {
    var t := Parse(s).value;
    TwoDigitsOf(s[0], s[1]);
    TwoDigitsOf(s[3], s[4]);
    TwoDigitsOf(s[6], s[7]);
    ThreeDigitsOf(s[9], s[10], s[11]);
    assert Render(t) == [s[0], s[1]] + ":" + [s[3], s[4]] + ":" + [s[6], s[7]] + "," + [s[9], s[10], s[11]];
    assert s == [s[0], s[1]] + ":" + [s[3], s[4]] + ":" + [s[6], s[7]] + "," + [s[9], s[10], s[11]];
  }

}
