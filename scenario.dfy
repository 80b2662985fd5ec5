/** The reference run at the bottom of graph.py: station 11527000 with the
    anchor date 2023-06-05. */
module Scenario {
  import opened Outcomes
  import opened Text
  import opened Dates

  lemma FormatAnchor()
    ensures FormatDate(Date(2023, 6, 5)) == "2023-06-05"
  {
  }

  lemma FormatPast()
    ensures FormatDate(Date(2023, 5, 22)) == "2023-05-22"
  {
  }

  lemma FormatFuture()
    ensures FormatDate(Date(2023, 6, 12)) == "2023-06-12"
  {
  }

  lemma ParseAnchor()
    ensures ParseDate("2023-06-05") == Ok(Date(2023, 6, 5))
  {
    FormatAnchor();
    ParseFormat(Date(2023, 6, 5));
  }

  lemma ShiftAnchor()
    ensures Shift(Date(2023, 6, 5), -PastDays) == Ok(Date(2023, 5, 22))
    ensures Shift(Date(2023, 6, 5), FutureDays) == Ok(Date(2023, 6, 12))
  {
    var a := Date(2023, 6, 5);
    ShiftOrdinal(a, -PastDays);
    ShiftOrdinal(a, FutureDays);
    OrdinalBounds(a);
    OrdinalInjective(Shift(a, -PastDays).value, Date(2023, 5, 22));
    OrdinalInjective(Shift(a, FutureDays).value, Date(2023, 6, 12));
  }

  /** The anchor of the reference run, 2023-06-05: its window is 2023-05-22 .. 2023-06-12. */
  lemma ReferenceWindow()
    ensures GetPastDate("2023-06-05") == Ok("2023-05-22")
    ensures GetFutureDate("2023-06-05") == Ok("2023-06-12")
  {
    ParseAnchor();
    ShiftAnchor();
    FormatPast();
    FormatFuture();
  }

  /** The anchors of the 2023-06-05 run are 5 June of 2014 through 2022, in that order. */
  lemma ReferenceAnchors()
    ensures forall k :: 0 <= k < HistoryYears ==>
      ParseDate(HistoricAnchors("2023-06-05", 2023)[k]) == Ok(Date(2014 + k, 6, 5))
  {
    ParseAnchor();
    forall k | 0 <= k < HistoryYears
      ensures ParseDate(HistoricAnchors("2023-06-05", 2023)[k]) == Ok(Date(2014 + k, 6, 5))
    {
      HistoricAnchorParse("2023-06-05", 2014 + k);
    }
  }
}
