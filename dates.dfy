/** Calendar dates and instants as pandas handles them in the dividend
    analysis: ISO date parsing into a `Timestamp`, the `DateOffset(years=n)`
    shift, and the order of timestamps. */
module Dates {
  import opened Py
  import opened Text

  datatype Date = Date(year: int, month: int, day: int)

  /** Gregorian leap years. */
  predicate IsLeap(y: int) {
    y % 4 == 0 && (y % 100 != 0 || y % 400 == 0)
  }

  function DaysInMonth(y: int, m: int): (n: int)
    requires 1 <= m <= 12
    ensures 28 <= n <= 31
  {
    if m == 2 then (if IsLeap(y) then 29 else 28)
    else if m == 4 || m == 6 || m == 9 || m == 11 then 30
    else 31
  }

  predicate ValidDate(d: Date) {
    1 <= d.month <= 12 && 1 <= d.day <= DaysInMonth(d.year, d.month)
  }

  /** Chronological order on dates. */
  predicate DateBefore(a: Date, b: Date) {
    a.year < b.year
    || (a.year == b.year && (a.month < b.month || (a.month == b.month && a.day < b.day)))
  }

  /** Microseconds in a day: `datetime` resolution. */
  const TicksPerDay: nat := 86_400_000_000

  /** A naive timestamp: a date and the time elapsed since its midnight. */
  datatype Instant = Instant(date: Date, tick: nat)

  predicate ValidInstant(t: Instant) {
    ValidDate(t.date) && t.tick < TicksPerDay
  }

  /** Chronological order on timestamps (`<` on `datetime64`). */
  predicate Before(a: Instant, b: Instant) {
    DateBefore(a.date, b.date) || (a.date == b.date && a.tick < b.tick)
  }

  /** The timestamp a parsed date denotes. */
  function Midnight(d: Date): Instant {
    Instant(d, 0)
  }

  lemma BeforeTransitive(a: Instant, b: Instant, c: Instant)
    requires Before(a, b) && Before(b, c)
    ensures Before(a, c)
  {
  }

  lemma BeforeTotal(a: Instant, b: Instant)
    ensures Before(a, b) || a == b || Before(b, a)
    ensures !(Before(a, b) && Before(b, a))
  {
  }

  /** `d - DateOffset(years=n)`: the same month and day `n` years earlier,
      29 February becoming 28 February when that year is not a leap year. */
  function SubtractYears(d: Date, n: nat): (r: Date)
    requires ValidDate(d)
    ensures ValidDate(r) && r.year == d.year - n && r.month == d.month
    ensures r.day == d.day || (d.month == 2 && d.day == 29 && !IsLeap(r.year) && r.day == 28)
  {
    var y := d.year - n;
    var days := DaysInMonth(y, d.month);
    Date(y, d.month, if d.day <= days then d.day else days)
  }

  /** `t - DateOffset(years=n)` on a timestamp: the time of day is kept. */
  function YearsBefore(t: Instant, n: nat): (r: Instant)
    requires ValidInstant(t)
    ensures ValidInstant(r)
    ensures n >= 1 ==> Before(r, t)
  {
    Instant(SubtractYears(t.date, n), t.tick)
  }

  /** Going back further lands earlier. */
  lemma YearsBeforeOrdered(t: Instant, m: nat, n: nat)
    requires ValidInstant(t) && m < n
    ensures Before(YearsBefore(t, n), YearsBefore(t, m))
  {
  }

  /** The span pandas `Timestamp` can hold, for dates at midnight:
      1677-09-22 to 2262-04-11. */
  predicate InTimestampRange(d: Date) {
    !DateBefore(d, Date(1677, 9, 22)) && !DateBefore(Date(2262, 4, 11), d)
  }

  /** A date written year, month and day with zero padding to four, two
      and two digits, separated by `sep`. */
  function FormatWith(d: Date, sep: char): (s: string)
    requires 0 <= d.year < 10000 && 0 <= d.month < 100 && 0 <= d.day < 100
    ensures |s| == 10 && s[4] == sep && s[7] == sep
    ensures AllDigits(s[..4]) && AllDigits(s[5..7]) && AllDigits(s[8..])
  {
    var y, m, dd := PadDigits(d.year, 4), PadDigits(d.month, 2), PadDigits(d.day, 2);
    var s := y + [sep] + m + [sep] + dd;
    assert s[..4] == y && s[5..7] == m && s[8..] == dd;
    s
  }

  /** `YYYY-MM-DD`. */
  function FormatIso(d: Date): string
    requires 0 <= d.year < 10000 && 0 <= d.month < 100 && 0 <= d.day < 100
  {
    FormatWith(d, '-')
  }

  /** `YYYY.MM.DD`, the form the dividend history carries. */
  function FormatDotted(d: Date): string
    requires 0 <= d.year < 10000 && 0 <= d.month < 100 && 0 <= d.day < 100
  {
    FormatWith(d, '.')
  }

  /** `pd.to_datetime(s, errors='coerce')` for one `YYYY-MM-DD` string: a
      date when the text is exactly that form, names a real calendar day and
      fits a `Timestamp`; `None` (NaT) otherwise. */
  function ParseIso(s: string): (r: Option<Date>)
    ensures r.Some? ==> ValidDate(r.value) && InTimestampRange(r.value)
    ensures r.Some? ==> 0 <= r.value.year < 10000 && FormatIso(r.value) == s
  {
    if |s| == 10 && s[4] == '-' && s[7] == '-'
       && AllDigits(s[..4]) && AllDigits(s[5..7]) && AllDigits(s[8..]) then
      var d := Date(DigitsValue(s[..4]), DigitsValue(s[5..7]), DigitsValue(s[8..]));
      if ValidDate(d) && InTimestampRange(d) then
        IsoFields(s);
        Some(d)
      else
        None
    else
      None
  }

  lemma IsoFields(s: string)
    requires |s| == 10 && s[4] == '-' && s[7] == '-'
    requires AllDigits(s[..4]) && AllDigits(s[5..7]) && AllDigits(s[8..])
    ensures FormatIso(Date(DigitsValue(s[..4]), DigitsValue(s[5..7]), DigitsValue(s[8..]))) == s
  {
    var y, m, d := s[..4], s[5..7], s[8..];
    PadDigitsOfValue(y);
    PadDigitsOfValue(m);
    PadDigitsOfValue(d);
    assert s == y + "-" + m + "-" + d;
  }

  /** Every valid date pandas can hold is read back from its ISO text. */
  lemma {:induction false} ParseFormatIso(d: Date)
    requires ValidDate(d) && InTimestampRange(d)
    ensures ParseIso(FormatIso(d)) == Some(d)
  {
    var y, m, dd := PadDigits(d.year, 4), PadDigits(d.month, 2), PadDigits(d.day, 2);
    var s := FormatIso(d);
    assert s[..4] == y;
    assert s[5..7] == m;
    assert s[8..] == dd;
  }

  /** Replacing the dots of `YYYY.MM.DD` by dashes gives `YYYY-MM-DD`. */
  lemma {:induction false} DottedToIso(d: Date)
    requires 0 <= d.year < 10000 && 0 <= d.month < 100 && 0 <= d.day < 100
    ensures ReplaceChar(FormatDotted(d), '.', '-') == FormatIso(d)
  {
    var y, m, dd := PadDigits(d.year, 4), PadDigits(d.month, 2), PadDigits(d.day, 2);
    var dotted, iso := FormatDotted(d), FormatIso(d);
    var r := ReplaceChar(dotted, '.', '-');
    forall k | 0 <= k < 10
      ensures r[k] == iso[k]
    {
      if k < 4 {
        assert dotted[k] == y[k] && iso[k] == y[k];
      } else if k == 4 || k == 7 {
      } else if k < 7 {
        assert dotted[k] == m[k - 5] && iso[k] == m[k - 5];
      } else {
        assert dotted[k] == dd[k - 8] && iso[k] == dd[k - 8];
      }
    }
  }
}
