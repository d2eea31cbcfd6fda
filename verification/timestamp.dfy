/**
 * The `yyyyMMddHHmmss` timestamp that names a local library copy: a local
 * date-time written as fourteen decimal digits, each field zero-padded to
 * its width.
 */
module Timestamp {

  /** A local date-time, as `LocalDateTime` holds it, to the second. */
  datatype DateTime = DateTime(year: int, month: int, day: int, hour: int, minute: int, second: int)

  predicate LeapYear(year: int) {
    year % 4 == 0 && (year % 100 != 0 || year % 400 == 0)
  }

  function DaysInMonth(year: int, month: int): int {
    if month == 2 then (if LeapYear(year) then 29 else 28)
    else if month == 4 || month == 6 || month == 9 || month == 11 then 30
    else 31
  }

  /** A date-time of the proleptic Gregorian calendar whose year has at most four digits. */
  predicate Valid(t: DateTime) {
    && 1 <= t.year <= 9999
    && 1 <= t.month <= 12
    && 1 <= t.day <= DaysInMonth(t.year, t.month)
    && 0 <= t.hour < 24
    && 0 <= t.minute < 60
    && 0 <= t.second < 60
  }

  /** The instants the clock can report. */
  type Instant = t: DateTime | Valid(t) witness DateTime(2000, 1, 1, 0, 0, 0)

  function Power10(width: nat): (p: nat)
    ensures p >= 1
  {
    if width == 0 then 1 else 10 * Power10(width - 1)
  }

  predicate IsDigit(c: char) {
    '0' <= c <= '9'
  }

  /** n written in decimal with exactly width digits, zero-padded on the left. */
  function Digits(n: nat, width: nat): (s: string)
    requires n < Power10(width)
    ensures |s| == width
    ensures forall i :: 0 <= i < |s| ==> IsDigit(s[i])
  {
    if width == 0 then ""
    else Digits(n / 10, width - 1) + [('0' as int + n % 10) as char]
  }

  /** The number a string of decimal digits denotes. */
  function Value(s: string): nat
    requires forall i :: 0 <= i < |s| ==> IsDigit(s[i])
  {
    if s == [] then 0
    else
      assert IsDigit(s[|s| - 1]);
      10 * Value(s[..|s| - 1]) + (s[|s| - 1] as int - '0' as int)
  }

  /** Reading the digits back gives the number that was written. */
  lemma {:induction false} ValueOfDigits(n: nat, width: nat)
    requires n < Power10(width)
    ensures Value(Digits(n, width)) == n
  {
    if width > 0 {
      ValueOfDigits(n / 10, width - 1);
      var s := Digits(n, width);
      assert s[..|s| - 1] == Digits(n / 10, width - 1);
    }
  }

  /** `LocalDateTime.format(ofPattern("yyyyMMddHHmmss"))`. */
  function Format(t: Instant): (s: string)
    ensures |s| == 14
    ensures forall i :: 0 <= i < |s| ==> IsDigit(s[i])
  {
    Digits(t.year, 4) + Digits(t.month, 2) + Digits(t.day, 2)
      + Digits(t.hour, 2) + Digits(t.minute, 2) + Digits(t.second, 2)
  }

  /** Reading a fourteen-digit timestamp back into its fields. */
  function Parse(s: string): (r: DateTime)
    requires |s| == 14 && forall i :: 0 <= i < |s| ==> IsDigit(s[i])
  {
    DateTime(Value(s[0..4]), Value(s[4..6]), Value(s[6..8]),
             Value(s[8..10]), Value(s[10..12]), Value(s[12..14]))
  }

  /** Format loses nothing: the date-time can be read back from its name. */
  lemma FormatRoundTrip(t: Instant)
    ensures Parse(Format(t)) == t
  {
    Fields(Digits(t.year, 4), Digits(t.month, 2), Digits(t.day, 2),
           Digits(t.hour, 2), Digits(t.minute, 2), Digits(t.second, 2));
    ValueOfDigits(t.year, 4);
    ValueOfDigits(t.month, 2);
    ValueOfDigits(t.day, 2);
    ValueOfDigits(t.hour, 2);
    ValueOfDigits(t.minute, 2);
    ValueOfDigits(t.second, 2);
  }

  /** The positions of the six fields in a fourteen-character timestamp. */
  lemma Fields(y: string, mo: string, d: string, h: string, mi: string, se: string)
    requires |y| == 4 && |mo| == 2 && |d| == 2 && |h| == 2 && |mi| == 2 && |se| == 2
    ensures var s := y + mo + d + h + mi + se;
            && s[0..4] == y && s[4..6] == mo && s[6..8] == d
            && s[8..10] == h && s[10..12] == mi && s[12..14] == se
  {
  }

  /** Two different seconds never share a timestamp. */
  lemma FormatInjective(t1: Instant, t2: Instant)
    requires Format(t1) == Format(t2)
    ensures t1 == t2
  {
    FormatRoundTrip(t1);
    FormatRoundTrip(t2);
  }
}
