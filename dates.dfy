/** Calendar dates of the proleptic Gregorian calendar as Python's `datetime`
    represents them (years 1 to 9999), their day numbers, the `YYYY-MM-DD`
    text form read by `strptime` and written by `strftime`, and the fetch-window
    arithmetic of graph.py built on them. */
module Dates {
  import opened Outcomes
  import opened Text

  datatype Date = Date(year: int, month: int, day: int)

  const MinYear: int := 1
  const MaxYear: int := 9999

  predicate IsLeap(y: int) { y % 4 == 0 && (y % 100 != 0 || y % 400 == 0) }

  function DaysInMonth(y: int, m: int): int
    requires 1 <= m <= 12
  {
    if m == 2 then (if IsLeap(y) then 29 else 28)
    else if m == 4 || m == 6 || m == 9 || m == 11 then 30
    else 31
  }

  function DaysInYear(y: int): int { if IsLeap(y) then 366 else 365 }

  /** A date that `datetime.date` accepts. */
  predicate Valid(d: Date)
  {
    MinYear <= d.year <= MaxYear && 1 <= d.month <= 12 && 1 <= d.day <= DaysInMonth(d.year, d.month)
  }

  /** Days in the years 1 .. y-1. */
  function DaysBeforeYear(y: int): int
    requires y >= 1
  {
    var p := y - 1;
    365 * p + p / 4 - p / 100 + p / 400
  }

  /** Days in the months 1 .. m-1 of year y. */
  function DaysBeforeMonth(y: int, m: int): int
    requires 1 <= m <= 12
  {
    (if m > 2 && IsLeap(y) then 1 else 0) +
    [0, 31, 59, 90, 120, 151, 181, 212, 243, 273, 304, 334][m - 1]
  }

  /** The day number of `date.toordinal()`: 0001-01-01 is day 1. */
  function Ordinal(d: Date): int
    requires Valid(d)
  {
    DaysBeforeYear(d.year) + DaysBeforeMonth(d.year, d.month) + d.day
  }

  const First: Date := Date(MinYear, 1, 1)
  const Last: Date := Date(MaxYear, 12, 31)
  const MaxOrdinal: int := 3652059

  function NextDay(d: Date): (r: Date)
    requires Valid(d) && d != Last
    ensures Valid(r)
  {
    if d.day < DaysInMonth(d.year, d.month) then d.(day := d.day + 1)
    else if d.month < 12 then Date(d.year, d.month + 1, 1)
    else Date(d.year + 1, 1, 1)
  }

  function PrevDay(d: Date): (r: Date)
    requires Valid(d) && d != First
    ensures Valid(r)
  {
    if d.day > 1 then d.(day := d.day - 1)
    else if d.month > 1 then Date(d.year, d.month - 1, DaysInMonth(d.year, d.month - 1))
    else Date(d.year - 1, 12, 31)
  }

  lemma DaysBeforeYearStep(y: int)
    requires y >= 1
    ensures DaysBeforeYear(y + 1) == DaysBeforeYear(y) + DaysInYear(y)
  {
    QuotientStep4(y);
    QuotientStep100(y);
    QuotientStep400(y);
    if y % 400 == 0 {
      MultipleOf400(y);
    }
    if y % 100 == 0 {
      MultipleOf100(y);
    }
  }

  lemma QuotientStep4(y: int)
    ensures y / 4 == (y - 1) / 4 + (if y % 4 == 0 then 1 else 0)
  {
  }

  lemma QuotientStep100(y: int)
    ensures y / 100 == (y - 1) / 100 + (if y % 100 == 0 then 1 else 0)
  {
  }

  lemma QuotientStep400(y: int)
    ensures y / 400 == (y - 1) / 400 + (if y % 400 == 0 then 1 else 0)
  {
  }

  lemma MultipleOf400(y: int)
    requires y % 400 == 0
    ensures y % 100 == 0
  {
    assert y == 400 * (y / 400);
  }

  lemma MultipleOf100(y: int)
    requires y % 100 == 0
    ensures y % 4 == 0
  {
    assert y == 100 * (y / 100);
  }

  lemma {:induction false} DaysBeforeYearMonotone(a: int, b: int)
    requires 1 <= a <= b
    ensures DaysBeforeYear(a) + 365 * (b - a) <= DaysBeforeYear(b)
    decreases b - a
  {
    if a < b {
      DaysBeforeYearStep(a);
      DaysBeforeYearMonotone(a + 1, b);
    }
  }

  lemma NextDayOrdinal(d: Date)
    requires Valid(d) && d != Last
    ensures Ordinal(NextDay(d)) == Ordinal(d) + 1
  {
    if d.day == DaysInMonth(d.year, d.month) && d.month == 12 {
      DaysBeforeYearStep(d.year);
    }
  }

  lemma PrevDayOrdinal(d: Date)
    requires Valid(d) && d != First
    ensures Ordinal(PrevDay(d)) == Ordinal(d) - 1
  {
    if d.day == 1 && d.month == 1 {
      DaysBeforeYearStep(d.year - 1);
    }
  }

  /** Day numbers run from 1 (0001-01-01) to MaxOrdinal (9999-12-31). */
  lemma OrdinalBounds(d: Date)
    requires Valid(d)
    ensures 1 <= Ordinal(d) <= MaxOrdinal
    ensures Ordinal(d) == 1 <==> d == First
    ensures Ordinal(d) == MaxOrdinal <==> d == Last
  {
    DaysBeforeYearStep(d.year);
    DaysBeforeYearMonotone(d.year + 1, MaxYear + 1);
    if d.year > 1 {
      DaysBeforeYearMonotone(1, d.year);
    }
  }

  /** Different dates have different day numbers. */
  lemma OrdinalInjective(a: Date, b: Date)
    requires Valid(a) && Valid(b) && Ordinal(a) == Ordinal(b)
    ensures a == b
  {
    if a.year < b.year {
      OrdinalYearOrder(a, b);
    } else if b.year < a.year {
      OrdinalYearOrder(b, a);
    } else if a.month < b.month {
      OrdinalMonthOrder(a, b);
    } else if b.month < a.month {
      OrdinalMonthOrder(b, a);
    }
  }

  /** Every day of an earlier year comes before every day of a later one. */
  lemma OrdinalYearOrder(a: Date, b: Date)
    requires Valid(a) && Valid(b) && a.year < b.year
    ensures Ordinal(a) < Ordinal(b)
  {
    DayOfYearBounds(a);
    DayOfYearBounds(b);
    DaysBeforeYearStep(a.year);
    DaysBeforeYearMonotone(a.year + 1, b.year);
  }

  /** Within a year, every day of an earlier month comes before every day of a later one. */
  lemma OrdinalMonthOrder(a: Date, b: Date)
    requires Valid(a) && Valid(b) && a.year == b.year && a.month < b.month
    ensures Ordinal(a) < Ordinal(b)
  {
    DaysBeforeMonthGap(a.year, a.month, b.month);
  }

  /** The day of the year of a valid date lies in 1 .. DaysInYear. */
  lemma DayOfYearBounds(d: Date)
    requires Valid(d)
    ensures 1 <= DaysBeforeMonth(d.year, d.month) + d.day <= DaysInYear(d.year)
  {
  }

  /** A later month starts after every day of an earlier one. */
  lemma DaysBeforeMonthGap(y: int, m1: int, m2: int)
    requires 1 <= m1 < m2 <= 12
    ensures DaysBeforeMonth(y, m1) + DaysInMonth(y, m1) <= DaysBeforeMonth(y, m2)
  {
  }

  /** `d + timedelta(days=n)`: OverflowError once the result leaves year 1..9999. */
  function Shift(d: Date, n: int): (r: Result<Date>)
    requires Valid(d)
    ensures r.Ok? ==> Valid(r.value)
    ensures r.Err? ==> r.error == DateOverflow
    decreases if n < 0 then -n else n
  {
    if n == 0 then Ok(d)
    else if n > 0 then (if d == Last then Err(DateOverflow) else Shift(NextDay(d), n - 1))
    else (if d == First then Err(DateOverflow) else Shift(PrevDay(d), n + 1))
  }

  /** Shifting by n days moves the day number by exactly n, and fails exactly
      when the target day number is outside Python's date range. */
  lemma ShiftOrdinal(d: Date, n: int)
    requires Valid(d)
    ensures Shift(d, n).Ok? <==> 1 <= Ordinal(d) + n <= MaxOrdinal
    ensures Shift(d, n).Ok? ==> Ordinal(Shift(d, n).value) == Ordinal(d) + n
  {
    OrdinalBounds(d);
    if n >= 0 {
      ShiftForward(d, n);
    } else {
      ShiftBackward(d, n);
    }
    if Shift(d, n).Ok? {
      if n >= 0 {
        ShiftForwardValue(d, n);
      } else {
        ShiftBackwardValue(d, n);
      }
    }
  }

  /** Moving forward n days: one NextDay per day, failing past 9999-12-31. */
  lemma {:induction false} ShiftForward(d: Date, n: int)
    requires Valid(d) && n >= 0
    ensures Shift(d, n).Ok? <==> Ordinal(d) + n <= MaxOrdinal
    decreases n
  {
    if n == 0 {
      OrdinalBounds(d);
    } else if d == Last {
      assert Ordinal(d) == MaxOrdinal;
    } else {
      NextDayOrdinal(d);
      ShiftForward(NextDay(d), n - 1);
    }
  }

  /** Where moving forward n days succeeds, it lands on the day number n higher. */
  lemma {:induction false} ShiftForwardValue(d: Date, n: int)
    requires Valid(d) && n >= 0 && Shift(d, n).Ok?
    ensures Ordinal(Shift(d, n).value) == Ordinal(d) + n
    decreases n
  {
    if n > 0 {
      NextDayOrdinal(d);
      ShiftForwardValue(NextDay(d), n - 1);
    }
  }

  /** Moving back -n days: one PrevDay per day, failing before 0001-01-01. */
  lemma {:induction false} ShiftBackward(d: Date, n: int)
    requires Valid(d) && n <= 0
    ensures Shift(d, n).Ok? <==> 1 <= Ordinal(d) + n
    decreases -n
  {
    if n == 0 {
      OrdinalBounds(d);
    } else if d == First {
      assert Ordinal(d) == 1;
    } else {
      PrevDayOrdinal(d);
      ShiftBackward(PrevDay(d), n + 1);
    }
  }

  /** Where moving back -n days succeeds, it lands on the day number -n lower. */
  lemma {:induction false} ShiftBackwardValue(d: Date, n: int)
    requires Valid(d) && n <= 0 && Shift(d, n).Ok?
    ensures Ordinal(Shift(d, n).value) == Ordinal(d) + n
    decreases -n
  {
    if n < 0 {
      PrevDayOrdinal(d);
      ShiftBackwardValue(PrevDay(d), n + 1);
    }
  }

  // ---------------------------------------------------------------------------
  // The `%Y-%m-%d` text form.

  /** `datetime.strptime(s, '%Y-%m-%d')` on zero-padded input: four year
      digits, two month digits, two day digits, and a date that exists. */
  function ParseDate(s: string): (r: Result<Date>)
    ensures r.Ok? ==> Valid(r.value)
    ensures r.Err? ==> r.error == InvalidDate
  {
    if |s| == 10 && s[4] == '-' && s[7] == '-'
       && IsDigits(s[..4]) && IsDigits(s[5..7]) && IsDigits(s[8..])
    then
      var d := Date(DigitsValue(s[..4]), DigitsValue(s[5..7]), DigitsValue(s[8..]));
      if Valid(d) then Ok(d) else Err(InvalidDate)
    else Err(InvalidDate)
  }

  /** `date.strftime('%Y-%m-%d')`. */
  function FormatDate(d: Date): (s: string)
    requires Valid(d)
    ensures |s| == 10
  {
    ZeroPad(d.year, 4) + "-" + ZeroPad(d.month, 2) + "-" + ZeroPad(d.day, 2)
  }

  lemma FormatDateParts(d: Date)
    requires Valid(d)
    ensures var s := FormatDate(d);
      s[..4] == ZeroPad(d.year, 4) && s[4] == '-' && s[5..7] == ZeroPad(d.month, 2)
      && s[7] == '-' && s[8..] == ZeroPad(d.day, 2)
  {
    var s := FormatDate(d);
    assert s == ZeroPad(d.year, 4) + "-" + ZeroPad(d.month, 2) + "-" + ZeroPad(d.day, 2);
  }

  /** Reading back what was written gives the same date. */
  lemma ParseFormat(d: Date)
    requires Valid(d)
    ensures ParseDate(FormatDate(d)) == Ok(d)
  {
    FormatDateParts(d);
    ZeroPadValue(d.year, 4);
    ZeroPadValue(d.month, 2);
    ZeroPadValue(d.day, 2);
  }

  /** Writing what was read gives the same text: the form is canonical. */
  lemma FormatParse(s: string)
    requires ParseDate(s).Ok?
    ensures FormatDate(ParseDate(s).value) == s
  {
    var y, m, dd := s[..4], s[5..7], s[8..];
    assert IsDigits(y) && IsDigits(m) && IsDigits(dd);
    var d := ParseDate(s).value;
    assert d == Date(DigitsValue(y), DigitsValue(m), DigitsValue(dd));
    ZeroPadOfValue(y);
    ZeroPadOfValue(m);
    ZeroPadOfValue(dd);
    calc {
      FormatDate(d);
      ZeroPad(d.year, 4) + "-" + ZeroPad(d.month, 2) + "-" + ZeroPad(d.day, 2);
      y + [s[4]] + m + [s[7]] + dd;
      s;
    }
  }

  // ---------------------------------------------------------------------------
  // The fetch window of graph.py.

  const PastDays: int := 14
  const FutureDays: int := 7

  /** GetPastDate: the date two weeks before, as text. */
  function GetPastDate(s: string): Result<string>
  {
    var d :- ParseDate(s);
    var p :- Shift(d, -PastDays);
    Ok(FormatDate(p))
  }

  /** GetFutureDate: the date one week after, as text. */
  function GetFutureDate(s: string): Result<string>
  {
    var d :- ParseDate(s);
    var f :- Shift(d, FutureDays);
    Ok(FormatDate(f))
  }

  /** GetPastDate succeeds exactly on a parsable date that is more than 14 days
      after 0001-01-01, and then yields the date whose day number is 14 less. */
  lemma PastDateSpec(s: string)
    ensures GetPastDate(s).Ok? <==> ParseDate(s).Ok? && Ordinal(ParseDate(s).value) > PastDays
    ensures GetPastDate(s).Ok? ==>
      ParseDate(GetPastDate(s).value).Ok?
      && Ordinal(ParseDate(GetPastDate(s).value).value) == Ordinal(ParseDate(s).value) - PastDays
    ensures GetPastDate(s).Err? && ParseDate(s).Ok? ==> GetPastDate(s).error == DateOverflow
  {
    if ParseDate(s).Ok? {
      var d := ParseDate(s).value;
      ShiftOrdinal(d, -PastDays);
      OrdinalBounds(d);
      if Shift(d, -PastDays).Ok? {
        ParseFormat(Shift(d, -PastDays).value);
      }
    }
  }

  /** GetFutureDate succeeds exactly on a parsable date at least 7 days before
      9999-12-31, and then yields the date whose day number is 7 more. */
  lemma FutureDateSpec(s: string)
    ensures GetFutureDate(s).Ok? <==> ParseDate(s).Ok? && Ordinal(ParseDate(s).value) + FutureDays <= MaxOrdinal
    ensures GetFutureDate(s).Ok? ==>
      ParseDate(GetFutureDate(s).value).Ok?
      && Ordinal(ParseDate(GetFutureDate(s).value).value) == Ordinal(ParseDate(s).value) + FutureDays
    ensures GetFutureDate(s).Err? && ParseDate(s).Ok? ==> GetFutureDate(s).error == DateOverflow
  {
    if ParseDate(s).Ok? {
      var d := ParseDate(s).value;
      ShiftOrdinal(d, FutureDays);
      OrdinalBounds(d);
      if Shift(d, FutureDays).Ok? {
        ParseFormat(Shift(d, FutureDays).value);
      }
    }
  }

  /** A historic fetch window spans exactly 21 days. */
  lemma WindowSpan(s: string)
    requires GetPastDate(s).Ok? && GetFutureDate(s).Ok?
    ensures ParseDate(GetPastDate(s).value).Ok? && ParseDate(GetFutureDate(s).value).Ok?
    ensures Ordinal(ParseDate(GetFutureDate(s).value).value)
            - Ordinal(ParseDate(GetPastDate(s).value).value) == PastDays + FutureDays
  {
    PastDateSpec(s);
    FutureDateSpec(s);
  }

  // ---------------------------------------------------------------------------
  // Historic anchors: the anchor text with its year replaced.

  const HistoryYears: int := 9

  /** `str(year) + anchor[4:]` */
  function HistoricAnchor(anchor: string, year: int): string
  {
    IntToString(year) + Drop(anchor, 4)
  }

  /** The anchors of `range(int(current_year) - 9, int(current_year))`, oldest first. */
  function HistoricAnchors(anchor: string, currentYear: int): (r: seq<string>)
    ensures |r| == HistoryYears
    ensures forall k :: 0 <= k < HistoryYears ==> r[k] == HistoricAnchor(anchor, currentYear - HistoryYears + k)
  {
    seq(HistoryYears, k requires 0 <= k < HistoryYears => HistoricAnchor(anchor, currentYear - HistoryYears + k))
  }

  /** A four-digit year spliced into a parsable anchor keeps month and day; the
      result parses unless it names 29 February of a non-leap year. */
  lemma HistoricAnchorParse(anchor: string, year: int)
    requires ParseDate(anchor).Ok?
    requires 1000 <= year <= MaxYear
    ensures var d := ParseDate(anchor).value;
      ParseDate(HistoricAnchor(anchor, year)) ==
        if d.month == 2 && d.day == 29 && !IsLeap(year) then Err(InvalidDate)
        else Ok(Date(year, d.month, d.day))
  {
    var d := ParseDate(anchor).value;
    assert d.month == DigitsValue(anchor[5..7]) && d.day == DigitsValue(anchor[8..]);
    NatToStringIsPadded(year, 4);
    var s := HistoricAnchor(anchor, year);
    assert s[..4] == ZeroPad(year, 4);
    assert s[4..] == anchor[4..];
    assert s[5..7] == anchor[5..7] && s[8..] == anchor[8..];
    ZeroPadValue(year, 4);
  }

  /** A year below 1000 spliced into an anchor never parses: `%Y` needs four digits. */
  lemma HistoricAnchorShortYear(anchor: string, year: int)
    requires ParseDate(anchor).Ok?
    requires year < 1000
    ensures ParseDate(HistoricAnchor(anchor, year)) == Err(InvalidDate)
  {
    var s := HistoricAnchor(anchor, year);
    if year >= 0 {
      NatToStringLength(year, 3);
      assert |s| < 10;
    } else {
      assert s[0] == '-';
      if |s| == 10 {
        assert s[..4][0] == '-';
      }
    }
  }

  /** Splicing a four-character year into a text and then its own first four
      characters back gives the text again. */
  lemma SpliceTwice(anchor: string, year: int, original: int)
    requires |anchor| >= 4 && |IntToString(year)| == 4 && IntToString(original) == anchor[..4]
    ensures HistoricAnchor(HistoricAnchor(anchor, year), original) == anchor
  {
    var s := HistoricAnchor(anchor, year);
    assert Drop(s, 4) == anchor[4..];
    assert anchor == anchor[..4] + anchor[4..];
  }

  /** Splicing the original year back in restores the anchor. */
  lemma HistoricAnchorRoundTrip(anchor: string, year: int)
    requires ParseDate(anchor).Ok?
    requires 1000 <= year <= MaxYear
    requires ParseDate(anchor).value.year >= 1000
    ensures HistoricAnchor(HistoricAnchor(anchor, year), ParseDate(anchor).value.year) == anchor
  {
    var d := ParseDate(anchor).value;
    FormatParse(anchor);
    FormatDateParts(d);
    NatToStringIsPadded(year, 4);
    NatToStringIsPadded(d.year, 4);
    SpliceTwice(anchor, year, d.year);
  }

  /** A 29 February anchor breaks history: at least one of the nine preceding
      years is not a leap year, so its anchor does not parse. */
  lemma LeapDayAnchorFails(anchor: string)
    requires ParseDate(anchor).Ok?
    requires ParseDate(anchor).value.month == 2 && ParseDate(anchor).value.day == 29
    ensures exists k :: 0 <= k < HistoryYears && ParseDate(HistoricAnchors(anchor, ParseDate(anchor).value.year)[k]).Err?
  {
    var y := ParseDate(anchor).value.year;
    if y < 1009 {
      // The earliest year has fewer than four digits.
      HistoricAnchorShortYear(anchor, y - 9);
      assert ParseDate(HistoricAnchors(anchor, y)[0]).Err?;
    } else {
      var k := if (y - HistoryYears) % 4 == 0 then 1 else 0;
      HistoricAnchorParse(anchor, y - 9 + k);
      assert ParseDate(HistoricAnchors(anchor, y)[k]).Err?;
    }
  }
}
