/** Calendar dates as the crawler reads and writes them: parsed from the
    `MM/DD/YYYY` form the disclosure site shows, compared as dates, and rendered as
    an ISO-8601 timestamp at midnight UTC. */
module Dates {

  import opened Wrappers
  import opened Text
  import opened FaraExceptions

  datatype Date = Date(year: int, month: int, day: int)

  predicate IsLeapYear(y: int) {
    y % 4 == 0 && (y % 100 != 0 || y % 400 == 0)
  }

  function DaysInMonth(y: int, m: int): int
    requires 1 <= m <= 12
  {
    if m == 2 then (if IsLeapYear(y) then 29 else 28)
    else if m == 4 || m == 6 || m == 9 || m == 11 then 30
    else 31
  }

  /** A date the calendar library accepts: years 1 to 9999, real months and days. */
  predicate ValidDate(d: Date) {
    1 <= d.year <= 9999 && 1 <= d.month <= 12 && 1 <= d.day <= DaysInMonth(d.year, d.month)
  }

  // ---------------------------------------------------------------------------
  // Fixed-width decimal fields

  function TwoDigits(n: int): (r: string)
    requires 0 <= n < 100
    ensures |r| == 2 && AllDigits(r)
  {
    [DigitChar(n / 10), DigitChar(n % 10)]
  }

  function FourDigits(n: int): (r: string)
    requires 0 <= n < 10000
    ensures |r| == 4 && AllDigits(r)
  {
    TwoDigits(n / 100) + TwoDigits(n % 100)
  }

  /** The value of a two-digit string. */
  lemma DigitsOfTwo(t: string)
    requires |t| == 2 && AllDigits(t)
    ensures DigitsValue(t) == DigitValue(t[0]) * 10 + DigitValue(t[1])
  {
    var first := t[..1];
    assert first[..0] == [] && first[0] == t[0];
    assert DigitsValue(first) == DigitValue(t[0]);
    assert t[..|t| - 1] == first;
  }

  /** The value of a four-digit string, from its two halves. */
  lemma DigitsOfFour(t: string)
    requires |t| == 4 && AllDigits(t)
    ensures DigitsValue(t) == DigitsValue(t[..2]) * 100 + DigitsValue(t[2..])
  {
    var hi, lo := t[..2], t[2..];
    DigitsOfTwo(hi);
    DigitsOfTwo(lo);
    assert t[..3] == hi + [lo[0]] && t[..3][..2] == hi;
  }

  lemma TwoDigitsValue(n: int)
    requires 0 <= n < 100
    ensures DigitsValue(TwoDigits(n)) == n
  {
    DigitsOfTwo(TwoDigits(n));
  }

  lemma FourDigitsValue(n: int)
    requires 0 <= n < 10000
    ensures DigitsValue(FourDigits(n)) == n
  {
    var s := FourDigits(n);
    DigitsOfFour(s);
    assert s[..2] == TwoDigits(n / 100) && s[2..] == TwoDigits(n % 100);
    TwoDigitsValue(n / 100);
    TwoDigitsValue(n % 100);
  }

  /** Two digits of a string denote at most 99, and print back as the same digits. */
  lemma TwoDigitsBack(t: string)
    requires |t| == 2 && AllDigits(t)
    ensures DigitsValue(t) < 100 && TwoDigits(DigitsValue(t)) == t
  {
    DigitsOfTwo(t);
  }

  lemma FourDigitsBack(t: string)
    requires |t| == 4 && AllDigits(t)
    ensures DigitsValue(t) < 10000 && FourDigits(DigitsValue(t)) == t
  {
    var hi, lo := t[..2], t[2..];
    TwoDigitsBack(hi);
    TwoDigitsBack(lo);
    DigitsOfFour(t);
    var v := DigitsValue(t);
    assert v / 100 == DigitsValue(hi) && v % 100 == DigitsValue(lo);
    assert t == hi + lo;
  }

  // ---------------------------------------------------------------------------
  // MM/DD/YYYY

  /** The shape the date library's `MM/DD/YYYY` pattern accepts. */
  predicate UsDateShape(t: string) {
    |t| == 10 && t[2] == '/' && t[5] == '/'
    && AllDigits(t[..2]) && AllDigits(t[3..5]) && AllDigits(t[6..])
  }

  /** `arrow.get(s, 'MM/DD/YYYY')`: a missing value, a string of any other shape,
      or a day that does not exist in the calendar is refused. */
  function ParseUsDate(s: Option<string>): (r: Result<Date, FaraError>)
    ensures r.Success? ==> ValidDate(r.value)
    ensures r.Failure? ==> r.error == DateParseError(s)
  {
    match s
    case None => Failure(DateParseError(s))
    case Some(t) =>
      if UsDateShape(t) then
        var d := Date(DigitsValue(t[6..]), DigitsValue(t[..2]), DigitsValue(t[3..5]));
        if ValidDate(d) then Success(d) else Failure(DateParseError(s))
      else Failure(DateParseError(s))
  }

  /** The `MM/DD/YYYY` spelling of a date. */
  function FormatUsDate(d: Date): string
    requires ValidDate(d)
  {
    TwoDigits(d.month) + "/" + TwoDigits(d.day) + "/" + FourDigits(d.year)
  }

  /** Every valid date is read back from its `MM/DD/YYYY` spelling. */
  lemma ParseFormatUsDate(d: Date)
    requires ValidDate(d)
    ensures ParseUsDate(Some(FormatUsDate(d))) == Success(d)
  {
    var t := FormatUsDate(d);
    assert t[..2] == TwoDigits(d.month) && t[3..5] == TwoDigits(d.day) && t[6..] == FourDigits(d.year);
    TwoDigitsValue(d.month);
    TwoDigitsValue(d.day);
    FourDigitsValue(d.year);
  }

  /** The parser accepts nothing but the canonical spelling of the date it returns. */
  lemma ParsedIsCanonical(t: string)
    requires ParseUsDate(Some(t)).Success?
    ensures FormatUsDate(ParseUsDate(Some(t)).value) == t
  {
    TwoDigitsBack(t[..2]);
    TwoDigitsBack(t[3..5]);
    FourDigitsBack(t[6..]);
    assert t == t[..2] + "/" + t[3..5] + "/" + t[6..];
  }

  // ---------------------------------------------------------------------------
  // ISO-8601 rendering

  /** `isoformat()` of the date at midnight UTC. */
  function IsoTimestamp(d: Date): (r: string)
    requires ValidDate(d)
    ensures |r| == 25 && r[4] == '-' && r[7] == '-' && r[10..] == "T00:00:00+00:00"
  {
    FourDigits(d.year) + "-" + TwoDigits(d.month) + "-" + TwoDigits(d.day) + "T00:00:00+00:00"
  }

  /** The ISO rendering keeps year, month and day, each readable from its field. */
  lemma IsoTimestampFields(d: Date)
    requires ValidDate(d)
    ensures var r := IsoTimestamp(d);
      DigitsValue(r[..4]) == d.year && DigitsValue(r[5..7]) == d.month && DigitsValue(r[8..10]) == d.day
  {
    var r := IsoTimestamp(d);
    assert r[..4] == FourDigits(d.year) && r[5..7] == TwoDigits(d.month) && r[8..10] == TwoDigits(d.day);
    FourDigitsValue(d.year);
    TwoDigitsValue(d.month);
    TwoDigitsValue(d.day);
  }

  // ---------------------------------------------------------------------------
  // Ordering

  /** Chronological order: year, then month, then day. */
  predicate Before(a: Date, b: Date) {
    a.year < b.year || (a.year == b.year && (a.month < b.month || (a.month == b.month && a.day < b.day)))
  }

  /** A single number that orders valid dates chronologically, used as a sort key. */
  function Ordinal(d: Date): int {
    d.year * 10000 + d.month * 100 + d.day
  }

  /** On valid dates the ordinal order is the chronological order, and equal
      ordinals mean equal dates. */
  lemma OrdinalOrder(a: Date, b: Date)
    requires ValidDate(a) && ValidDate(b)
    ensures Ordinal(a) < Ordinal(b) <==> Before(a, b)
    ensures Ordinal(a) == Ordinal(b) <==> a == b
  {
    var ma, mb := a.month * 100 + a.day, b.month * 100 + b.day;
    assert 101 <= ma <= 1231 && 101 <= mb <= 1231;
    if a.year < b.year {
      assert a.year * 10000 + 10000 <= b.year * 10000;
    } else if a.year > b.year {
      assert b.year * 10000 + 10000 <= a.year * 10000;
    }
  }
}
