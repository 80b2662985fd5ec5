/** The timestamps of a discharge frame's index, their `str()` form
    `YYYY-MM-DD HH:MM:SS+HH:MM`, and DfToArray, which cuts the year off that
    text and reads the rest back with `'%m-%d %H:%M:%S%z'`.  strptime fills the
    missing year with 1900, so every series lands on one common calendar. */
module Stamps {
  import opened Outcomes
  import opened Text
  import opened Dates

  /** A moment with a fixed UTC offset in minutes east of UTC. */
  datatype Stamp = Stamp(date: Date, hour: int, minute: int, second: int, offset: int)

  predicate IsValid(st: Stamp)
  {
    Valid(st.date) && 0 <= st.hour < 24 && 0 <= st.minute < 60 && 0 <= st.second < 60
    && -1440 < st.offset < 1440
  }

  type Instant = st: Stamp | IsValid(st) witness Stamp(Date(1970, 1, 1), 0, 0, 0, 0)

  /** One row of a discharge frame: its index entry and its first column. */
  datatype Row = Row(stamp: Instant, value: real)

  /** One plotted point: the year-stripped timestamp and the value. */
  datatype Point = Point(x: Instant, y: real)

  /** The year strptime uses when the format has none. */
  const DefaultYear: int := 1900

  predicate IsLeapDay(d: Date) { d.month == 2 && d.day == 29 }

  /** The same moment moved to the default year. */
  function StripYear(st: Instant): Instant
    requires !IsLeapDay(st.date)
  {
    st.(date := Date(DefaultYear, st.date.month, st.date.day))
  }

  function OffsetText(offset: int): (s: string)
    requires -1440 < offset < 1440
    ensures |s| == 6
  {
    var a := if offset < 0 then -offset else offset;
    (if offset < 0 then "-" else "+") + ZeroPad(a / 60, 2) + ":" + ZeroPad(a % 60, 2)
  }

  function ClockText(st: Instant): (s: string)
    ensures |s| == 8
  {
    ZeroPad(st.hour, 2) + ":" + ZeroPad(st.minute, 2) + ":" + ZeroPad(st.second, 2)
  }

  /** `str(timestamp)` of a timezone-aware pandas Timestamp without sub-seconds. */
  function Render(st: Instant): (s: string)
    ensures |s| == 25
  {
    FormatDate(st.date) + " " + ClockText(st) + OffsetText(st.offset)
  }

  /** `datetime.strptime(t, '%m-%d %H:%M:%S%z')` on the zero-padded form. */
  function ParseTail(t: string): (r: Result<Instant>)
    ensures r.Err? ==> r.error == InvalidDate
  {
    if |t| == 20 && t[2] == '-' && t[5] == ' ' && t[8] == ':' && t[11] == ':'
       && (t[14] == '+' || t[14] == '-') && t[17] == ':'
       && IsDigits(t[0..2]) && IsDigits(t[3..5]) && IsDigits(t[6..8]) && IsDigits(t[9..11])
       && IsDigits(t[12..14]) && IsDigits(t[15..17]) && IsDigits(t[18..20])
    then
      var minutes := DigitsValue(t[15..17]) * 60 + DigitsValue(t[18..20]);
      var st := Stamp(Date(DefaultYear, DigitsValue(t[0..2]), DigitsValue(t[3..5])),
                      DigitsValue(t[6..8]), DigitsValue(t[9..11]), DigitsValue(t[12..14]),
                      if t[14] == '-' then -minutes else minutes);
      if IsValid(st) && DigitsValue(t[18..20]) < 60 then Ok(st) else Err(InvalidDate)
    else Err(InvalidDate)
  }

  /** `str(date)[5:]`: the text DfToArray hands to strptime. */
  function YearlessText(st: Instant): (t: string)
    ensures |t| == 20
  {
    Drop(Render(st), 5)
  }

  lemma YearlessParts(st: Instant)
    ensures var t := YearlessText(st);
      t[0..2] == ZeroPad(st.date.month, 2) && t[2] == '-' && t[3..5] == ZeroPad(st.date.day, 2)
      && t[5] == ' ' && t[6..8] == ZeroPad(st.hour, 2) && t[8] == ':'
      && t[9..11] == ZeroPad(st.minute, 2) && t[11] == ':' && t[12..14] == ZeroPad(st.second, 2)
      && t[14..] == OffsetText(st.offset)
  {
    var d := st.date;
    var t := YearlessText(st);
    assert t == ZeroPad(d.month, 2) + "-" + ZeroPad(d.day, 2) + " " + ClockText(st) + OffsetText(st.offset);
    var c := ClockText(st);
    assert c == ZeroPad(st.hour, 2) + ":" + ZeroPad(st.minute, 2) + ":" + ZeroPad(st.second, 2);
    assert t[6..14] == c;
  }

  lemma OffsetParts(offset: int)
    requires -1440 < offset < 1440
    ensures var o := OffsetText(offset); var a := if offset < 0 then -offset else offset;
      o[0] == (if offset < 0 then '-' else '+') && o[1..3] == ZeroPad(a / 60, 2) && o[3] == ':'
      && o[4..6] == ZeroPad(a % 60, 2)
  {
  }

  /** What strptime reads from a text whose fields are two-digit numbers. */
  lemma ParseTailFields(t: string, month: nat, day: nat, hour: nat, minute: nat, second: nat,
                        offsetHours: nat, offsetMinutes: nat, negative: bool)
    requires |t| == 20 && t[2] == '-' && t[5] == ' ' && t[8] == ':' && t[11] == ':'
    requires t[14] == (if negative then '-' else '+') && t[17] == ':'
    requires IsDigits(t[0..2]) && DigitsValue(t[0..2]) == month
    requires IsDigits(t[3..5]) && DigitsValue(t[3..5]) == day
    requires IsDigits(t[6..8]) && DigitsValue(t[6..8]) == hour
    requires IsDigits(t[9..11]) && DigitsValue(t[9..11]) == minute
    requires IsDigits(t[12..14]) && DigitsValue(t[12..14]) == second
    requires IsDigits(t[15..17]) && DigitsValue(t[15..17]) == offsetHours
    requires IsDigits(t[18..20]) && DigitsValue(t[18..20]) == offsetMinutes
    ensures var total := offsetHours * 60 + offsetMinutes;
      var st := Stamp(Date(DefaultYear, month, day), hour, minute, second, if negative then -total else total);
      ParseTail(t) == if IsValid(st) && offsetMinutes < 60 then Ok(st) else Err(InvalidDate)
  {
  }

  lemma YearlessFields(st: Instant)
    ensures var t := YearlessText(st); var a := if st.offset < 0 then -st.offset else st.offset;
      t[2] == '-' && t[5] == ' ' && t[8] == ':' && t[11] == ':'
      && t[14] == (if st.offset < 0 then '-' else '+') && t[17] == ':'
      && IsDigits(t[0..2]) && DigitsValue(t[0..2]) == st.date.month
      && IsDigits(t[3..5]) && DigitsValue(t[3..5]) == st.date.day
      && IsDigits(t[6..8]) && DigitsValue(t[6..8]) == st.hour
      && IsDigits(t[9..11]) && DigitsValue(t[9..11]) == st.minute
      && IsDigits(t[12..14]) && DigitsValue(t[12..14]) == st.second
      && IsDigits(t[15..17]) && DigitsValue(t[15..17]) == a / 60
      && IsDigits(t[18..20]) && DigitsValue(t[18..20]) == a % 60
  {
    var t := YearlessText(st);
    var a := if st.offset < 0 then -st.offset else st.offset;
    YearlessParts(st);
    OffsetParts(st.offset);
    assert t[15..17] == t[14..][1..3] && t[18..20] == t[14..][4..6];
    assert t[14] == t[14..][0] && t[17] == t[14..][3];
    ZeroPadValue(st.date.month, 2);
    ZeroPadValue(st.date.day, 2);
    ZeroPadValue(st.hour, 2);
    ZeroPadValue(st.minute, 2);
    ZeroPadValue(st.second, 2);
    ZeroPadValue(a / 60, 2);
    ZeroPadValue(a % 60, 2);
  }

  /** Reading back the year-stripped text gives the same moment in year 1900,
      except on 29 February, which 1900 does not have. */
  lemma YearlessRoundTrip(st: Instant)
    ensures ParseTail(YearlessText(st)) ==
      if IsLeapDay(st.date) then Err(InvalidDate) else Ok(StripYear(st))
  {
    var t := YearlessText(st);
    var a := if st.offset < 0 then -st.offset else st.offset;
    YearlessFields(st);
    ParseTailFields(t, st.date.month, st.date.day, st.hour, st.minute, st.second, a / 60, a % 60, st.offset < 0);
    StrippedFields(st);
  }

  /** The stamp strptime builds from the fields of `st` is `st` in 1900, and it
      exists unless `st` is 29 February. */
  lemma StrippedFields(st: Instant)
    ensures var a := if st.offset < 0 then -st.offset else st.offset;
      var total := a / 60 * 60 + a % 60;
      var back := Stamp(Date(DefaultYear, st.date.month, st.date.day), st.hour, st.minute, st.second,
                        if st.offset < 0 then -total else total);
      && a % 60 < 60
      && back == st.(date := Date(DefaultYear, st.date.month, st.date.day))
      && (IsValid(back) <==> !IsLeapDay(st.date))
  {
    assert !IsLeap(DefaultYear);
  }

  /** The points of `rows`, each timestamp passed through `read`; the first
      timestamp that `read` refuses decides the error. */
  function ReadRows(read: Instant -> Result<Instant>, rows: seq<Row>): Result<seq<Point>>
  {
    if rows == [] then Ok([])
    else
      var x :- read(rows[0].stamp);
      var rest :- ReadRows(read, rows[1..]);
      Ok([Point(x, rows[0].value)] + rest)
  }

  /** One index entry through `str`, `[5:]` and strptime. */
  function ReadBack(st: Instant): Result<Instant>
  {
    ParseTail(YearlessText(st))
  }

  /** DfToArray: every index entry read back without its year, zipped with its value. */
  function DfToArray(rows: seq<Row>): Result<seq<Point>>
  {
    ReadRows(ReadBack, rows)
  }

  /** No sample of the frame falls on 29 February. */
  predicate NoLeapDay(rows: seq<Row>)
  {
    forall k :: 0 <= k < |rows| ==> !IsLeapDay(rows[k].stamp.date)
  }

  /** Every sample moved to year 1900, with its value. */
  function Stripped(rows: seq<Row>): (p: seq<Point>)
    requires NoLeapDay(rows)
    ensures |p| == |rows|
  {
    seq(|rows|, k requires 0 <= k < |rows| => Point(StripYear(rows[k].stamp), rows[k].value))
  }

  /** A reader that behaves like ReadBack fails on the rows exactly when some
      sample falls on 29 February, and otherwise moves every sample to 1900. */
  lemma {:induction false} ReadRowsSpec(read: Instant -> Result<Instant>, rows: seq<Row>)
    requires forall st: Instant :: read(st) == if IsLeapDay(st.date) then Err(InvalidDate) else Ok(StripYear(st))
    ensures ReadRows(read, rows).Ok? <==> NoLeapDay(rows)
    ensures ReadRows(read, rows).Err? ==> ReadRows(read, rows).error == InvalidDate
    ensures ReadRows(read, rows).Ok? ==> ReadRows(read, rows).value == Stripped(rows)
  {
    if rows != [] {
      ReadRowsSpec(read, rows[1..]);
      if ReadRows(read, rows).Ok? {
        forall k | 0 <= k < |rows|
          ensures !IsLeapDay(rows[k].stamp.date)
          ensures ReadRows(read, rows).value[k] == Point(StripYear(rows[k].stamp), rows[k].value)
        {
          if k > 0 { assert rows[1..][k - 1] == rows[k]; }
        }
      }
      if NoLeapDay(rows) {
        assert NoLeapDay(rows[1..]) by {
          forall k | 0 <= k < |rows| - 1 ensures !IsLeapDay(rows[1..][k].stamp.date) {
            assert rows[1..][k] == rows[k + 1];
          }
        }
        assert ReadRows(read, rows).Ok?;
      }
    }
  }

  /** DfToArray fails exactly when some sample falls on 29 February; otherwise it
      keeps every value and moves every timestamp to the same day of year 1900. */
  lemma DfToArraySpec(rows: seq<Row>)
    ensures DfToArray(rows).Ok? <==> NoLeapDay(rows)
    ensures DfToArray(rows).Err? ==> DfToArray(rows).error == InvalidDate
    ensures DfToArray(rows).Ok? ==> DfToArray(rows).value == Stripped(rows)
  {
    forall st: Instant
      ensures ReadBack(st) == if IsLeapDay(st.date) then Err(InvalidDate) else Ok(StripYear(st))
    {
      YearlessRoundTrip(st);
    }
    ReadRowsSpec(ReadBack, rows);
  }

  /** The values column of a frame. */
  function Values(rows: seq<Row>): (v: seq<real>)
    ensures |v| == |rows| && forall k :: 0 <= k < |rows| ==> v[k] == rows[k].value
  {
    seq(|rows|, k requires 0 <= k < |rows| => rows[k].value)
  }

  /** The y values of a list of points. */
  function Ys(points: seq<Point>): (v: seq<real>)
    ensures |v| == |points| && forall k :: 0 <= k < |points| ==> v[k] == points[k].y
  {
    seq(|points|, k requires 0 <= k < |points| => points[k].y)
  }

  /** Python's day number of 1970-01-01. */
  const EpochOrdinal: int := 719163

  /** `timestamp.timestamp()`: seconds since 1970-01-01 00:00 UTC. */
  function Epoch(st: Instant): int
  {
    (Ordinal(st.date) - EpochOrdinal) * 86400 + st.hour * 3600 + st.minute * 60 + st.second - st.offset * 60
  }

  /** The same clock time on the next day is 86400 seconds later. */
  lemma EpochNextDay(st: Instant)
    requires st.date != Last
    ensures Epoch(st.(date := NextDay(st.date))) == Epoch(st) + 86400
  {
    NextDayOrdinal(st.date);
  }

  /** The index of a frame as POSIX seconds. */
  function Timestamps(rows: seq<Row>): (xs: seq<real>)
    ensures |xs| == |rows| && forall k :: 0 <= k < |rows| ==> xs[k] == Epoch(rows[k].stamp) as real
  {
    seq(|rows|, k requires 0 <= k < |rows| => Epoch(rows[k].stamp) as real)
  }
}
