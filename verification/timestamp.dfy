/**
  `datetime.strptime(timestamp, "%Y%m%d%H%M%S")` on the fourteen digits that
  open an archived file name.

  The format's regular expression reads each field with alternatives that
  try two characters before one (the year always takes four digits). The
  only two-character alternative that is not made of digits is the day's
  space-then-digit ` [1-9]`; the input here is fourteen digits, so it never
  applies. On such input the widths add up to exactly fourteen only when
  every field takes a two-digit alternative, and that path is the first one
  the regular-expression engine tries, so it is the match strptime sees
  whenever it exists. Any other match is shorter
  than fourteen characters and strptime rejects it as unconverted data. The
  fields read are then handed to the `datetime` constructor, which applies
  the calendar rules.
 */
module Timestamp {
  import opened Options
  import opened Calendar

  predicate IsDigit(c: char) {
    '0' <= c <= '9'
  }

  predicate AllDigits(s: string) {
    forall i :: 0 <= i < |s| ==> IsDigit(s[i])
  }

  function DigitValue(c: char): (v: nat)
    requires IsDigit(c)
    ensures v <= 9
  {
    (c as int) - ('0' as int)
  }

  /** Python's `int()` of a string of decimal digits. */
  function DecimalValue(s: string): (v: nat)
    requires AllDigits(s)
  {
    if s == [] then 0 else 10 * DecimalValue(s[..|s| - 1]) + DigitValue(s[|s| - 1])
  }

  lemma TwoDigitValue(s: string)
    requires |s| == 2 && AllDigits(s)
    ensures DecimalValue(s) == 10 * DigitValue(s[0]) + DigitValue(s[1])
  {
    assert s[..1][..0] == [];
    assert s[..1][0] == s[0];
    assert DecimalValue(s[..1]) == DigitValue(s[0]);
  }

  lemma FourDigitValue(s: string)
    requires |s| == 4 && AllDigits(s)
    ensures DecimalValue(s) ==
      1000 * DigitValue(s[0]) + 100 * DigitValue(s[1]) + 10 * DigitValue(s[2]) + DigitValue(s[3])
  {
    TwoDigitValue(s[..2]);
    assert s[..3][..2] == s[..2];
    assert s[..4] == s;
  }

  /** The date fields are the decimal values of the digit groups, digit by digit. */
  lemma FieldsDigits(ts: string)
    requires |ts| == 14 && AllDigits(ts)
    ensures Fields(ts) == DateTime(
      1000 * DigitValue(ts[0]) + 100 * DigitValue(ts[1]) + 10 * DigitValue(ts[2]) + DigitValue(ts[3]),
      10 * DigitValue(ts[4]) + DigitValue(ts[5]),
      10 * DigitValue(ts[6]) + DigitValue(ts[7]),
      10 * DigitValue(ts[8]) + DigitValue(ts[9]),
      10 * DigitValue(ts[10]) + DigitValue(ts[11]),
      10 * DigitValue(ts[12]) + DigitValue(ts[13]))
  {
    FourDigitValue(ts[0..4]);
    TwoDigitValue(ts[4..6]);
    TwoDigitValue(ts[6..8]);
    TwoDigitValue(ts[8..10]);
    TwoDigitValue(ts[10..12]);
    TwoDigitValue(ts[12..14]);
  }

  predicate InRange(c: char, lo: char, hi: char) {
    lo <= c <= hi
  }

  // The two-character alternatives of the strptime field patterns.

  /** `%m`: `1[0-2]` or `0[1-9]`. */
  predicate MonthPattern(a: char, b: char) {
    (a == '1' && InRange(b, '0', '2')) || (a == '0' && InRange(b, '1', '9'))
  }

  /**
    `%d`: `3[01]`, `[12]\d` or `0[1-9]`. Its fifth alternative, ` [1-9]` (a
    space, then a digit), is also two characters wide but never matches a
    digit string.
   */
  predicate DayPattern(a: char, b: char) {
    || (a == '3' && InRange(b, '0', '1'))
    || (InRange(a, '1', '2') && IsDigit(b))
    || (a == '0' && InRange(b, '1', '9'))
  }

  /** `%H`: `2[0-3]` or `[0-1]\d`. */
  predicate HourPattern(a: char, b: char) {
    (a == '2' && InRange(b, '0', '3')) || (InRange(a, '0', '1') && IsDigit(b))
  }

  /** `%M`: `[0-5]\d`. */
  predicate MinutePattern(a: char, b: char) {
    InRange(a, '0', '5') && IsDigit(b)
  }

  /** `%S`: `6[0-1]` or `[0-5]\d`; leap seconds 60 and 61 get through here. */
  predicate SecondPattern(a: char, b: char) {
    (a == '6' && InRange(b, '0', '1')) || (InRange(a, '0', '5') && IsDigit(b))
  }

  /** The digit groups of a timestamp read at their fixed widths 4, 2, 2, 2, 2, 2. */
  function Fields(ts: string): DateTime
    requires |ts| == 14 && AllDigits(ts)
  {
    DateTime(DecimalValue(ts[0..4]), DecimalValue(ts[4..6]), DecimalValue(ts[6..8]),
             DecimalValue(ts[8..10]), DecimalValue(ts[10..12]), DecimalValue(ts[12..14]))
  }

  /**
    The match of the strptime format: the fields read when every field takes
    its two-digit alternative, `None` (a `ValueError`) otherwise.
   */
  function StrptimeMatch(ts: string): (r: Option<DateTime>)
    requires |ts| == 14 && AllDigits(ts)
    ensures r.Some? ==> r.value == Fields(ts)
    ensures r.Some? <==>
      && 1 <= Fields(ts).month <= 12
      && 1 <= Fields(ts).day <= 31
      && Fields(ts).hour <= 23
      && Fields(ts).minute <= 59
      && Fields(ts).second <= 61
  {
    TwoDigitValue(ts[4..6]);
    TwoDigitValue(ts[6..8]);
    TwoDigitValue(ts[8..10]);
    TwoDigitValue(ts[10..12]);
    TwoDigitValue(ts[12..14]);
    if && MonthPattern(ts[4], ts[5])
       && DayPattern(ts[6], ts[7])
       && HourPattern(ts[8], ts[9])
       && MinutePattern(ts[10], ts[11])
       && SecondPattern(ts[12], ts[13])
    then Some(Fields(ts))
    else None
  }

  /** The `datetime` constructor: the fields unchanged when they are valid, a `ValueError` otherwise. */
  function MakeDateTime(d: DateTime): (r: Option<DateTime>)
    ensures r.Some? <==> IsValid(d)
    ensures r.Some? ==> r.value == d
  {
    if !(MinYear <= d.year <= MaxYear) then None
    else if !(1 <= d.month <= 12) then None
    else if !(1 <= d.day <= DaysInMonth(d.year, d.month)) then None
    else if !(0 <= d.hour <= 23) then None
    else if !(0 <= d.minute <= 59) then None
    else if !(0 <= d.second <= 59) then None
    else Some(d)
  }

  /** `datetime.strptime(ts, "%Y%m%d%H%M%S")` for fourteen decimal digits. */
  function ParseTimestamp(ts: string): (r: Option<DateTime>)
    requires |ts| == 14 && AllDigits(ts)
    ensures r.Some? <==> IsValid(Fields(ts))
    ensures r.Some? ==> r.value == Fields(ts)
  {
    match StrptimeMatch(ts)
    case None => None
    case Some(d) => MakeDateTime(d)
  }
}
