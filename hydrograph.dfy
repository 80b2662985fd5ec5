/** The HydroGraph object: its fields, the frames it fetches and shares, and
    the steps of CreatePlot that fill them in. */
module Graph {
  import opened Outcomes
  import opened Text
  import opened Dates
  import opened Stamps
  import opened Metrics
  import opened Envelope
  import opened Sources

  /** A DataFrame with one discharge column.  Several fields of a HydroGraph
      can hold the same frame, and GetAverageFromData overwrites one in place. */
  class Frame {
    var rows: seq<Row>

    constructor (rows: seq<Row>)
      ensures this.rows == rows
    {
      this.rows := rows;
    }
  }

  /** No frame appears twice: the list holds separate objects. */
  predicate Distinct(frames: seq<Frame>)
  {
    forall a, b :: 0 <= a < b < |frames| ==> frames[a] != frames[b]
  }

  /** A frame not yet in the list keeps it free of repeats. */
  lemma DistinctAppend(frames: seq<Frame>, f: Frame)
    requires Distinct(frames) && f !in frames
    ensures Distinct(frames + [f])
  {
  }

  /** The value column of each frame. */
  function ValuesOf(frames: seq<Frame>): (r: seq<seq<real>>)
    reads frames
    ensures |r| == |frames| && forall k :: 0 <= k < |frames| ==> r[k] == Values(frames[k].rows)
  {
    seq(|frames|, k requires 0 <= k < |frames| reads frames => Values(frames[k].rows))
  }

  /** The value column of each list of rows. */
  function RowValues(rs: seq<seq<Row>>): (r: seq<seq<real>>)
    ensures |r| == |rs| && forall k :: 0 <= k < |rs| ==> r[k] == Values(rs[k])
  {
    seq(|rs|, k requires 0 <= k < |rs| => Values(rs[k]))
  }

  /** Each frame holds the rows at its position. */
  ghost predicate HoldsRows(frames: seq<Frame>, rows: seq<seq<Row>>)
    reads frames
  {
    |frames| == |rows| && forall k :: 0 <= k < |rows| ==> frames[k].rows == rows[k]
  }

  /** The first frame holds, on the timestamps of the first rows, the mean of
      each row over all of them; the other frames hold their rows. */
  ghost predicate HoldsMeans(frames: seq<Frame>, rows: seq<seq<Row>>)
    reads frames
  {
    && |frames| == |rows|
    && Rectangular(RowValues(rows))
    && frames[0].rows == WithValues(rows[0], RowMeans(RowValues(rows)))
    && forall k :: 1 <= k < |rows| ==> frames[k].rows == rows[k]
  }

  /** The rows with their timestamps kept and their values replaced. */
  function WithValues(rows: seq<Row>, values: seq<real>): (r: seq<Row>)
    requires |values| == |rows|
    ensures |r| == |rows|
    ensures forall k :: 0 <= k < |rows| ==> r[k].stamp == rows[k].stamp && r[k].value == values[k]
  {
    seq(|rows|, k requires 0 <= k < |rows| => Row(rows[k].stamp, values[k]))
  }

  /** What DfToArray makes of a frame field that may still be None, in the
      closed form DfToArraySpec gives it: 29 February has no year-1900 twin. */
  function Converted(f: Frame?): Result<seq<Point>>
    reads f
  {
    if f == null then Err(MissingValue)
    else if NoLeapDay(f.rows) then Ok(Stripped(f.rows))
    else Err(InvalidDate)
  }

  /** DfToArray on a frame field; a missing frame has no index to convert. */
  method ToPoints(f: Frame?) returns (r: Result<seq<Point>>)
    ensures r == Converted(f)
  {
    if f == null {
      return Err(MissingValue);
    }
    r := DfToArray(f.rows);
    DfToArraySpec(f.rows);
  }

  /** What the figure shows once CreatePlot has finished: the station name, the
      three year labels, the four curves, the gray band, the forecast line, and
      the volume and rate of change of the subtitle. */
  datatype Chart = Chart(
    title: string,
    currentYear: string, highestYear: string, lowestYear: string,
    modern: seq<Point>, highest: seq<Point>, lowest: seq<Point>, average: seq<Point>,
    band: (seq<real>, seq<real>),
    forecast: Line,
    volume: real, flow: real)

  class HydroGraph {
    var sensorId: string
    var anchorDate: string
    var sensorName: string
    var currentYear: string
    var lowestYear: string
    var highestYear: string

    var sensorDf: Frame?
    var historicDfs: Option<seq<Frame>>
    var averageDf: Frame?
    var lowestDf: Frame?
    var highestDf: Frame?

    var modernData: seq<Point>
    var lowestData: seq<Point>
    var highestData: seq<Point>
    var averageData: seq<Point>

    /** The figure: None for a new, empty one. */
    var chart: Option<Chart>
    var graphFinished: bool

    /** The state ResetVariables leaves. */
    ghost predicate IsReset()
      reads this
    {
      && sensorId == "" && anchorDate == "" && sensorName == ""
      && currentYear == "" && lowestYear == "" && highestYear == ""
      && sensorDf == null && historicDfs == None && averageDf == null
      && lowestDf == null && highestDf == null
      && modernData == [] && lowestData == [] && highestData == [] && averageData == []
      && chart == None && !graphFinished
    }

    /** The historic frames, none while they have not been fetched. */
    function Historic(): seq<Frame>
      reads this`historicDfs
    {
      if historicDfs.Some? then historicDfs.value else []
    }

    /** The frame GetAverageFromData overwrites. */
    function FirstHistoric(): set<Frame>
      reads this`historicDfs
    {
      if |Historic()| > 0 then {Historic()[0]} else {}
    }

    /** The current and historic frames are present and none of them is empty,
        so GetLowestDf and GetHighestDf can take their minima and maxima. */
    ghost predicate Loaded()
      reads this`sensorDf, this`historicDfs, sensorDf, Historic()
    {
      sensorDf != null && historicDfs.Some? && |sensorDf.rows| > 0 && AllNonEmpty(ValuesOf(Historic()))
    }

    /** The figure agrees with the data fields: every curve, the band of the
        averages widened by `spread`, the forecast from the current readings
        with the slope `fit` gives, the volume, and the rate of change. */
    ghost predicate Drawn(fit: (seq<real>, seq<real>) -> real, spread: seq<real> -> real)
      reads this`chart, this`sensorDf, this`sensorName, this`currentYear, this`highestYear, this`lowestYear,
            this`modernData, this`highestData, this`lowestData, this`averageData, sensorDf
    {
      && chart.Some? && sensorDf != null && |sensorDf.rows| > 0 && |modernData| > 0
      && var xs, ys, avg := Timestamps(sensorDf.rows), Ys(modernData), Ys(averageData);
         && chart.value == Chart(sensorName, currentYear, highestYear, lowestYear,
                                 modernData, highestData, lowestData, averageData,
                                 Band(avg, spread(avg)), Forecast(xs, ys, fit(xs, ys)),
                                 CalculateVolume(ys), chart.value.flow)
         && IsRateOfChange(ys, Some(chart.value.flow))
    }

    constructor ()
      ensures IsReset()
    {
      new;
      ResetVariables();
    }

    method ResetVariables()
      modifies this
      ensures IsReset()
    {
      ResetLabels();
      ResetFrames();
      ResetFigure();
    }

    method ResetLabels()
      modifies this`sensorId, this`anchorDate, this`sensorName, this`currentYear, this`lowestYear, this`highestYear
      ensures sensorId == "" && anchorDate == "" && sensorName == ""
      ensures currentYear == "" && lowestYear == "" && highestYear == ""
    {
      sensorId, anchorDate, sensorName := "", "", "";
      currentYear, lowestYear, highestYear := "", "", "";
    }

    method ResetFrames()
      modifies this`sensorDf, this`historicDfs, this`averageDf, this`lowestDf, this`highestDf
      ensures sensorDf == null && historicDfs == None && averageDf == null
      ensures lowestDf == null && highestDf == null
    {
      sensorDf, historicDfs, averageDf, lowestDf, highestDf := null, None, null, null, null;
    }

    method ResetFigure()
      modifies this`modernData, this`lowestData, this`highestData, this`averageData, this`chart, this`graphFinished
      ensures modernData == [] && lowestData == [] && highestData == [] && averageData == []
      ensures chart == None && !graphFinished
    {
      modernData, lowestData, highestData, averageData := [], [], [], [];
      chart := None;
      graphFinished := false;
    }

    /** Starts over with a new site and anchor date.  The figure is finished
        exactly when every step succeeded; after a failure the figure is the
        empty one ResetVariables made. */
    method SetFullInfo(date: string, id: string, source: Request -> Result<Response>,
                       fit: (seq<real>, seq<real>) -> real, spread: seq<real> -> real)
      returns (o: Outcome)
      modifies this
      ensures sensorId == id && anchorDate == date && currentYear == Take(date, 4)
      ensures o.Pass? <==> graphFinished
      ensures o.Pass? ==> Drawn(fit, spread)
      ensures o.Fail? ==> chart == None
    {
      ResetVariables();
      SetSensorId(id);
      o := SetAnchorDate(date, source, fit, spread);
    }

    method SetSensorId(id: string)
      modifies this`sensorId
      ensures sensorId == id
    {
      sensorId := id;
    }

    /** The year of the anchor date is its first four characters. */
    method SetAnchorDate(date: string, source: Request -> Result<Response>,
                         fit: (seq<real>, seq<real>) -> real, spread: seq<real> -> real)
      returns (o: Outcome)
      modifies this`anchorDate, this`currentYear, this`sensorName,
               this`sensorDf, this`historicDfs, this`highestDf, this`highestYear,
               this`lowestDf, this`lowestYear, this`averageDf,
               this`modernData, this`lowestData, this`highestData, this`averageData,
               this`chart, this`graphFinished
      ensures anchorDate == date && currentYear == Take(date, 4)
      ensures o.Pass? ==> graphFinished && Drawn(fit, spread)
      ensures o.Fail? ==> graphFinished == old(graphFinished) && chart == old(chart)
    {
      anchorDate := date;
      currentYear := Take(date, 4);
      o := NameAndPlot(source, fit, spread);
    }

    /** The two steps SetAnchorDate takes once the date is set. */
    method NameAndPlot(source: Request -> Result<Response>,
                       fit: (seq<real>, seq<real>) -> real, spread: seq<real> -> real)
      returns (o: Outcome)
      modifies this`sensorName,
               this`sensorDf, this`historicDfs, this`highestDf, this`highestYear,
               this`lowestDf, this`lowestYear, this`averageDf,
               this`modernData, this`lowestData, this`highestData, this`averageData,
               this`chart, this`graphFinished
      ensures o.Pass? ==> graphFinished && Drawn(fit, spread)
      ensures o.Fail? ==> graphFinished == old(graphFinished) && chart == old(chart)
    {
      o := GetSensorName(source);
      if o.Fail? {
        return;
      }
      o := CreatePlot(source, fit, spread);
    }

    /** Collects every series, converts them, and fills in the figure. */
    method CreatePlot(source: Request -> Result<Response>,
                      fit: (seq<real>, seq<real>) -> real, spread: seq<real> -> real)
      returns (o: Outcome)
      modifies this`sensorDf, this`historicDfs, this`highestDf, this`highestYear,
               this`lowestDf, this`lowestYear, this`averageDf,
               this`modernData, this`lowestData, this`highestData, this`averageData,
               this`chart, this`graphFinished
      ensures o.Pass? ==> graphFinished && Drawn(fit, spread) && Converted(sensorDf) == Ok(modernData)
      ensures o.Fail? ==> graphFinished == old(graphFinished) && chart == old(chart)
    {
      o := CollectSeries(source);
      if o.Fail? {
        return;
      }
      o := ConvertDfs();
      if o.Fail? {
        return;
      }
      o := DrawFigure(fit, spread);
    }

    /** The first part of CreatePlot: the frames are fetched, the highest and
        lowest years chosen, and the average computed, which overwrites the
        first historic frame. */
    method CollectSeries(source: Request -> Result<Response>) returns (o: Outcome)
      modifies this`sensorDf, this`historicDfs, this`highestDf, this`highestYear,
               this`lowestDf, this`lowestYear, this`averageDf
      ensures o.Pass? ==>
        && historicDfs.Some? && |historicDfs.value| == HistoryYears
        && sensorDf != null
        && FetchRows(source, sensorId, anchorDate, anchorDate, true) == Ok(sensorDf.rows)
        && averageDf == historicDfs.value[0]
        && HistoricAveraged(source, historicDfs)
    {
      o := FetchSeries(source);
      if o.Fail? {
        return;
      }
      ghost var fetched := FetchAll(source, sensorId, anchorDate, HistoricAnchors(anchorDate, ParseInt(currentYear).value)).value;
      o := ExtremesAndAverage(fetched);
    }

    /** ChooseExtremes, then GetAverageFromData, on historic frames that hold
        `fetched`: the first frame ends up holding the row means. */
    method ExtremesAndAverage(ghost fetched: seq<seq<Row>>) returns (o: Outcome)
      requires historicDfs.Some? && Distinct(historicDfs.value) && HoldsRows(historicDfs.value, fetched) && |fetched| > 0
      requires sensorDf != null && sensorDf != historicDfs.value[0]
      modifies this`highestDf, this`highestYear, this`lowestDf, this`lowestYear, this`averageDf, FirstHistoric()`rows
      ensures historicDfs == old(historicDfs) && sensorDf == old(sensorDf) && sensorDf.rows == old(sensorDf.rows)
      ensures o.Pass? ==> averageDf == historicDfs.value[0] && HoldsMeans(historicDfs.value, fetched)
    {
      o := ChooseExtremes();
      if o.Fail? {
        return;
      }
      assert ValuesOf(Historic()) == RowValues(fetched);
      o := GetAverageFromData();
    }

    /** After GetAverageFromData: the first historic frame holds, on the
        timestamps of the first fetched year, the mean of each row over the
        nine fetched years; the other frames hold their fetched rows. */
    ghost predicate HistoricAveraged(source: Request -> Result<Response>, frames: Option<seq<Frame>>)
      reads this`sensorId, this`anchorDate, this`currentYear
      reads if frames.Some? then set k | 0 <= k < |frames.value| :: frames.value[k] else {}
    {
      && ParseInt(currentYear).Ok?
      && frames.Some?
      && var fetched := FetchAll(source, sensorId, anchorDate, HistoricAnchors(anchorDate, ParseInt(currentYear).value));
      && fetched.Ok? && |fetched.value| == HistoryYears
      && HoldsMeans(frames.value, fetched.value)
    }

    /** The historic frames hold, in order, the rows of the nine historic
        fetches around the anchor date. */
    ghost predicate HistoricFetched(source: Request -> Result<Response>, frames: Option<seq<Frame>>)
      reads this`sensorId, this`anchorDate, this`currentYear
      reads if frames.Some? then set k | 0 <= k < |frames.value| :: frames.value[k] else {}
    {
      && ParseInt(currentYear).Ok?
      && frames.Some?
      && var fetched := FetchAll(source, sensorId, anchorDate, HistoricAnchors(anchorDate, ParseInt(currentYear).value));
      && fetched.Ok? && |fetched.value| == HistoryYears
      && HoldsRows(frames.value, fetched.value)
    }

    /** The current frame up to the anchor date, then the historic frames. */
    method FetchSeries(source: Request -> Result<Response>) returns (o: Outcome)
      modifies this`sensorDf, this`historicDfs
      ensures o.Pass? ==>
        && sensorDf != null
        && FetchRows(source, sensorId, anchorDate, anchorDate, true) == Ok(sensorDf.rows)
        && HistoricFetched(source, historicDfs)
        && Distinct(historicDfs.value)
        && forall k :: 0 <= k < HistoryYears ==> fresh(historicDfs.value[k]) && historicDfs.value[k] != sensorDf
    {
      var s := GetSensorDf(anchorDate, true, source);
      if s.Err? {
        return Fail(s.error);
      }
      sensorDf := s.value;
      o := GetHistoricDfs(source);
    }

    /** GetHighestDf, then GetLowestDf; both need the current and the
        historic frames, none of them empty. */
    method ChooseExtremes() returns (o: Outcome)
      modifies this`highestDf, this`highestYear, this`lowestDf, this`lowestYear
      ensures o.Pass? ==> old(Loaded())
    {
      ghost var highestIndex, lowestIndex;
      o, highestIndex := GetHighestDf();
      if o.Fail? {
        return;
      }
      o, lowestIndex := GetLowestDf();
    }

    /** The second part of CreatePlot: unpacking an empty list of points fails,
        numpy rejects timestamps and readings of different lengths, and the
        subtitle cannot format a missing rate of change. */
    method DrawFigure(fit: (seq<real>, seq<real>) -> real, spread: seq<real> -> real) returns (o: Outcome)
      modifies this`chart, this`graphFinished
      ensures o.Pass? <==>
        && |modernData| >= 2 && sensorDf != null && |sensorDf.rows| == |modernData|
        && |highestData| > 0 && |lowestData| > 0 && |averageData| > 0
      ensures o.Pass? ==> graphFinished && Drawn(fit, spread)
      ensures o.Fail? ==> graphFinished == old(graphFinished) && chart == old(chart)
    {
      if |modernData| == 0 {
        return Fail(EmptySeries);
      }
      var ys := Ys(modernData);
      var volume := CalculateVolume(ys);
      var flow := CalculateFlow(ys);
      if sensorDf == null {
        return Fail(MissingValue);
      }
      var xs := Timestamps(sensorDf.rows);
      if |xs| != |ys| {
        return Fail(ShapeMismatch);
      }
      var forecast := Forecast(xs, ys, fit(xs, ys));
      if |highestData| == 0 || |lowestData| == 0 || |averageData| == 0 {
        return Fail(EmptySeries);
      }
      var avg := Ys(averageData);
      var band := Band(avg, spread(avg));
      if flow.None? {
        return Fail(MissingValue);
      }
      chart := Some(Chart(sensorName, currentYear, highestYear, lowestYear,
                          modernData, highestData, lowestData, averageData,
                          band, forecast, volume, flow.value));
      graphFinished := true;
      return Pass;
    }

    /** The nine historic years, oldest first, each fetched over the full
        window around the anchor date with its year replaced. */
    method GetHistoricDfs(source: Request -> Result<Response>) returns (o: Outcome)
      modifies this`historicDfs
      ensures o.Pass? <==>
        ParseInt(currentYear).Ok?
        && FetchAll(source, sensorId, anchorDate, HistoricAnchors(anchorDate, ParseInt(currentYear).value)).Ok?
      ensures o.Pass? ==>
        var fetched := FetchAll(source, sensorId, anchorDate, HistoricAnchors(anchorDate, ParseInt(currentYear).value)).value;
        && historicDfs.Some? && |historicDfs.value| == |fetched| == HistoryYears
        && (forall k :: 0 <= k < HistoryYears ==> fresh(historicDfs.value[k]) && historicDfs.value[k].rows == fetched[k])
        && Distinct(historicDfs.value)
      ensures o.Fail? ==> historicDfs == old(historicDfs)
      ensures o.Fail? && ParseInt(currentYear).Err? ==> o.error == InvalidDate
      ensures o.Fail? && ParseInt(currentYear).Ok? ==>
        o.error == FetchAll(source, sensorId, anchorDate, HistoricAnchors(anchorDate, ParseInt(currentYear).value)).error
    {
      var parsed := ParseInt(currentYear);
      if parsed.Err? {
        return Fail(parsed.error);
      }
      var r := FetchHistoric(HistoricAnchors(anchorDate, parsed.value), source);
      if r.Err? {
        return Fail(r.error);
      }
      historicDfs := Some(r.value);
      return Pass;
    }

    /** The loop of GetHistoricDfs: one historic frame per anchor, in order,
        each a new object; the first fetch that fails stops it. */
    method FetchHistoric(anchors: seq<string>, source: Request -> Result<Response>) returns (r: Result<seq<Frame>>)
      ensures r.Ok? <==> FetchAll(source, sensorId, anchorDate, anchors).Ok?
      ensures r.Ok? ==>
        && |r.value| == |anchors| == |FetchAll(source, sensorId, anchorDate, anchors).value|
        && (forall k :: 0 <= k < |anchors| ==>
              fresh(r.value[k]) && r.value[k].rows == FetchAll(source, sensorId, anchorDate, anchors).value[k])
        && Distinct(r.value)
      ensures r.Err? ==> r.error == FetchAll(source, sensorId, anchorDate, anchors).error
    {
      var frames: seq<Frame> := [];
      ghost var fetched: seq<seq<Row>> := [];
      for i := 0 to |anchors|
        invariant |frames| == |fetched| == i
        invariant FetchAll(source, sensorId, anchorDate, anchors[..i]) == Ok(fetched)
        invariant forall k :: 0 <= k < i ==> fresh(frames[k]) && frames[k].rows == fetched[k]
        invariant Distinct(frames)
      {
        var f := GetHistoricDf(anchors, i, source);
        if f.Err? {
          return Err(f.error);
        }
        DistinctAppend(frames, f.value);
        frames, fetched := frames + [f.value], fetched + [f.value.rows];
      }
      assert anchors[..|anchors|] == anchors;
      return Ok(frames);
    }

    /** One turn of FetchHistoric's loop: the frame of year `i`, whose rows
        extend the series fetched so far, or the error that ends the series. */
    method GetHistoricDf(anchors: seq<string>, i: nat, source: Request -> Result<Response>)
      returns (r: Result<Frame>)
      requires i < |anchors| && FetchAll(source, sensorId, anchorDate, anchors[..i]).Ok?
      ensures r.Ok? ==>
        && fresh(r.value)
        && FetchAll(source, sensorId, anchorDate, anchors[..i + 1])
           == Ok(FetchAll(source, sensorId, anchorDate, anchors[..i]).value + [r.value.rows])
      ensures r.Err? ==> FetchAll(source, sensorId, anchorDate, anchors) == Err(r.error)
    {
      r := GetSensorDf(anchors[i], false, source);
      FetchAllStep(source, sensorId, anchorDate, anchors, i);
    }

    /** The current year's frame stops at the anchor date; a historic one spans
        the full window around `anchor`.  The frame is a new object. */
    method GetSensorDf(anchor: string, todayMax: bool, source: Request -> Result<Response>)
      returns (r: Result<Frame>)
      ensures r.Ok? <==> FetchRows(source, sensorId, anchorDate, anchor, todayMax).Ok?
      ensures r.Ok? ==> fresh(r.value) && FetchRows(source, sensorId, anchorDate, anchor, todayMax) == Ok(r.value.rows)
      ensures r.Err? ==> r.error == FetchRows(source, sensorId, anchorDate, anchor, todayMax).error
    {
      var rows :- FetchRows(source, sensorId, anchorDate, anchor, todayMax);
      var frame := new Frame(rows);
      return Ok(frame);
    }

    method GetSensorName(source: Request -> Result<Response>) returns (o: Outcome)
      modifies this`sensorName
      ensures o.Pass? <==> FetchName(source, sensorId, anchorDate).Ok?
      ensures o.Pass? ==> sensorName == FetchName(source, sensorId, anchorDate).value
      ensures o.Fail? ==> sensorName == old(sensorName) && o.error == FetchName(source, sensorId, anchorDate).error
    {
      var name := FetchName(source, sensorId, anchorDate);
      if name.Err? {
        return Fail(name.error);
      }
      sensorName := name.value;
      return Pass;
    }

    /** The frame with the lowest reading, the current one on a tie, and its
        year label.  `index` is the position the loop settles on. */
    method GetLowestDf() returns (o: Outcome, ghost index: int)
      modifies this`lowestDf, this`lowestYear
      ensures o.Pass? <==> old(Loaded()) && YearLabel(currentYear, index).Ok?
      ensures old(Loaded()) ==> index == old(LowestChoice(Values(sensorDf.rows), ValuesOf(Historic())))
      ensures o.Pass? ==>
        && lowestDf == (if index == -1 then sensorDf else Historic()[index])
        && lowestYear == YearLabel(currentYear, index).value
      ensures o.Fail? ==>
        && lowestYear == old(lowestYear)
        && (lowestDf == old(lowestDf) || (old(Loaded()) && 0 <= index && lowestDf == Historic()[index]))
      ensures !old(Loaded()) ==> o.Fail? && lowestDf == old(lowestDf)
    {
      index := -1;
      if sensorDf == null || historicDfs.None? {
        return Fail(MissingValue), index;
      }
      var frames := historicDfs.value;
      var r := LowestIndex(Values(sensorDf.rows), ValuesOf(frames));
      if r.Err? {
        return Fail(r.error), index;
      }
      var idx := r.value;
      index := idx;
      var y := YearLabel(currentYear, idx);
      lowestDf := if idx == -1 then sensorDf else frames[idx];
      if y.Err? {
        return Fail(y.error), index;
      }
      lowestYear := y.value;
      return Pass, index;
    }

    /** The frame with the highest reading, the current one on a tie, and its
        year label.  `index` is the position the loop settles on. */
    method GetHighestDf() returns (o: Outcome, ghost index: int)
      modifies this`highestDf, this`highestYear
      ensures o.Pass? <==> old(Loaded()) && YearLabel(currentYear, index).Ok?
      ensures old(Loaded()) ==> index == old(HighestChoice(Values(sensorDf.rows), ValuesOf(Historic())))
      ensures o.Pass? ==>
        && highestDf == (if index == -1 then sensorDf else Historic()[index])
        && highestYear == YearLabel(currentYear, index).value
      ensures o.Fail? ==>
        && highestYear == old(highestYear)
        && (highestDf == old(highestDf) || (old(Loaded()) && 0 <= index && highestDf == Historic()[index]))
      ensures !old(Loaded()) ==> o.Fail? && highestDf == old(highestDf)
    {
      index := -1;
      if sensorDf == null || historicDfs.None? {
        return Fail(MissingValue), index;
      }
      var frames := historicDfs.value;
      var r := HighestIndex(Values(sensorDf.rows), ValuesOf(frames));
      if r.Err? {
        return Fail(r.error), index;
      }
      var idx := r.value;
      index := idx;
      var y := YearLabel(currentYear, idx);
      highestDf := if idx == -1 then sensorDf else frames[idx];
      if y.Err? {
        return Fail(y.error), index;
      }
      highestYear := y.value;
      return Pass, index;
    }

    /** The row-by-row mean of the historic years, written over the values of
        the first historic frame, which becomes the average frame.  A lowest
        or highest frame that is that frame holds the means from then on. */
    method GetAverageFromData() returns (o: Outcome)
      modifies this`averageDf, FirstHistoric()`rows
      ensures o.Pass? <==> old(historicDfs).Some? && Rectangular(old(ValuesOf(Historic())))
      ensures o.Pass? ==>
        && averageDf == Historic()[0]
        && averageDf.rows == WithValues(old(Historic()[0].rows), RowMeans(old(ValuesOf(Historic()))))
      ensures o.Pass? && lowestDf == Historic()[0] ==> lowestDf.rows == averageDf.rows
      ensures o.Pass? && highestDf == Historic()[0] ==> highestDf.rows == averageDf.rows
      ensures o.Fail? ==> averageDf == old(averageDf) && forall f :: f in FirstHistoric() ==> f.rows == old(f.rows)
    {
      if historicDfs.None? {
        return Fail(MissingValue);
      }
      var frames := historicDfs.value;
      var r := AverageRows(ValuesOf(frames));
      if r.Err? {
        return Fail(r.error);
      }
      var target := frames[0];
      target.rows := WithValues(target.rows, r.value);
      averageDf := target;
      return Pass;
    }

    /** Each frame's rows through DfToArray; a conversion that fails leaves its
        field and the later ones as they were. */
    method ConvertDfs() returns (o: Outcome)
      modifies this`modernData, this`lowestData, this`highestData, this`averageData
      ensures o.Pass? <==>
        Converted(sensorDf).Ok? && Converted(lowestDf).Ok? && Converted(highestDf).Ok? && Converted(averageDf).Ok?
      ensures o.Pass? ==>
        && Converted(sensorDf) == Ok(modernData) && Converted(lowestDf) == Ok(lowestData)
        && Converted(highestDf) == Ok(highestData) && Converted(averageDf) == Ok(averageData)
      ensures o.Fail? && Converted(sensorDf).Err? ==>
        && o.error == Converted(sensorDf).error
        && modernData == old(modernData) && lowestData == old(lowestData)
        && highestData == old(highestData) && averageData == old(averageData)
      ensures o.Fail? && Converted(sensorDf).Ok? && Converted(lowestDf).Err? ==>
        && o.error == Converted(lowestDf).error
        && Converted(sensorDf) == Ok(modernData) && lowestData == old(lowestData)
        && highestData == old(highestData) && averageData == old(averageData)
      ensures o.Fail? && Converted(sensorDf).Ok? && Converted(lowestDf).Ok? && Converted(highestDf).Err? ==>
        && o.error == Converted(highestDf).error
        && Converted(sensorDf) == Ok(modernData) && Converted(lowestDf) == Ok(lowestData)
        && highestData == old(highestData) && averageData == old(averageData)
      ensures o.Fail? && Converted(sensorDf).Ok? && Converted(lowestDf).Ok? && Converted(highestDf).Ok? ==>
        && o.error == Converted(averageDf).error
        && Converted(sensorDf) == Ok(modernData) && Converted(lowestDf) == Ok(lowestData)
        && Converted(highestDf) == Ok(highestData) && averageData == old(averageData)
    {
      var r := ToPoints(sensorDf);
      if r.Err? {
        return Fail(r.error);
      }
      modernData := r.value;
      r := ToPoints(lowestDf);
      if r.Err? {
        return Fail(r.error);
      }
      lowestData := r.value;
      r := ToPoints(highestDf);
      if r.Err? {
        return Fail(r.error);
      }
      highestData := r.value;
      r := ToPoints(averageDf);
      if r.Err? {
        return Fail(r.error);
      }
      averageData := r.value;
      return Pass;
    }
  }

  /** The forecast of a chart drawn from `rows` starts at their last reading. */
  lemma ForecastFromRows(rows: seq<Row>, modern: seq<Point>, slope: real)
    requires |rows| > 0 && NoLeapDay(rows) && modern == Stripped(rows)
    ensures Forecast(Timestamps(rows), Ys(modern), slope).xs[0] == Epoch(rows[|rows| - 1].stamp) as real
    ensures Forecast(Timestamps(rows), Ys(modern), slope).ys[0] == rows[|rows| - 1].value
  {
    var xs, ys := Timestamps(rows), Ys(modern);
    assert ys[|ys| - 1] == modern[|rows| - 1].y == rows[|rows| - 1].value;
    ForecastAnchored(xs, ys, slope);
  }

  /** The forecast of a finished figure starts at the time and value of the
      last current reading. */
  lemma ForecastFollowsReadings(g: HydroGraph, fit: (seq<real>, seq<real>) -> real, spread: seq<real> -> real)
    requires g.Drawn(fit, spread) && Converted(g.sensorDf) == Ok(g.modernData)
    ensures var rows := g.sensorDf.rows;
      && g.chart.value.forecast.xs[0] == Epoch(rows[|rows| - 1].stamp) as real
      && g.chart.value.forecast.ys[0] == rows[|rows| - 1].value
  {
    var rows, modern := g.sensorDf.rows, g.modernData;
    var xs, ys := Timestamps(rows), Ys(modern);
    assert g.chart.value.forecast == Forecast(xs, ys, fit(xs, ys));
    ForecastFromRows(rows, modern, fit(xs, ys));
  }

  /** The rate of change in a finished figure's subtitle is never negative. */
  lemma DrawnFlowNonNegative(g: HydroGraph, fit: (seq<real>, seq<real>) -> real, spread: seq<real> -> real)
    requires g.Drawn(fit, spread)
    ensures g.chart.value.flow >= 0.0
  {
    RateOfChangeSign(Ys(g.modernData), Some(g.chart.value.flow));
  }
}
