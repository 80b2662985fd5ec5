/** The requests HydroGraph sends to the water-data service and what it makes
    of the answers: the fetch window of GetSensorDf and the station name of
    GetSensorName.  The service itself is a function parameter. */
module Sources {
  import opened Outcomes
  import opened Text
  import opened Dates
  import opened Stamps

  /** A request for the instantaneous values ('iv') of one site between two dates. */
  datatype Request = Request(site: string, start: string, end: string)

  /** An answer: the text `str(request)` begins with, and the discharge column. */
  datatype Response = Response(header: string, discharge: seq<Row>)

  // ---------------------------------------------------------------------------
  // GetSensorDf

  /** Both ends of the window are computed first; the current year's fetch
      then stops at the object's anchor date instead of one week later. */
  function WindowRequest(site: string, anchorDate: string, anchor: string, todayMax: bool): Result<Request>
  {
    var past :- GetPastDate(anchor);
    var future :- GetFutureDate(anchor);
    Ok(Request(site, past, if todayMax then anchorDate else future))
  }

  /** A historic fetch asks for the 21 days from 14 days before its anchor to
      7 days after it, and fails exactly when one of those ends is not a date. */
  lemma HistoricWindow(site: string, anchorDate: string, anchor: string)
    ensures WindowRequest(site, anchorDate, anchor, false).Ok? <==>
      ParseDate(anchor).Ok? && PastDays < Ordinal(ParseDate(anchor).value)
      && Ordinal(ParseDate(anchor).value) + FutureDays <= MaxOrdinal
    ensures var r := WindowRequest(site, anchorDate, anchor, false);
      r.Ok? ==>
        && r.value.site == site
        && ParseDate(r.value.start).Ok? && ParseDate(r.value.end).Ok?
        && Ordinal(ParseDate(r.value.start).value) == Ordinal(ParseDate(anchor).value) - PastDays
        && Ordinal(ParseDate(r.value.end).value) == Ordinal(ParseDate(anchor).value) + FutureDays
  {
    PastDateSpec(anchor);
    FutureDateSpec(anchor);
  }

  /** The current year's fetch ends at the anchor date, even though the date a
      week later is still computed and can still overflow. */
  lemma CurrentWindow(site: string, anchorDate: string)
    ensures WindowRequest(site, anchorDate, anchorDate, true).Ok? <==>
      ParseDate(anchorDate).Ok? && PastDays < Ordinal(ParseDate(anchorDate).value)
      && Ordinal(ParseDate(anchorDate).value) + FutureDays <= MaxOrdinal
    ensures var r := WindowRequest(site, anchorDate, anchorDate, true);
      r.Ok? ==>
        && r.value.site == site
        && r.value.end == anchorDate
        && ParseDate(r.value.start).Ok?
        && Ordinal(ParseDate(r.value.start).value) == Ordinal(ParseDate(anchorDate).value) - PastDays
  {
    PastDateSpec(anchorDate);
    FutureDateSpec(anchorDate);
  }

  /** The discharge rows GetSensorDf obtains from the service. */
  function FetchRows(source: Request -> Result<Response>, site: string, anchorDate: string,
                     anchor: string, todayMax: bool): Result<seq<Row>>
  {
    var request :- WindowRequest(site, anchorDate, anchor, todayMax);
    var response :- source(request);
    Ok(response.discharge)
  }

  /** The rows of `fetch` applied to each anchor in turn, stopping at the first
      one that fails, whose error it is. */
  function Collect(fetch: string -> Result<seq<Row>>, anchors: seq<string>): Result<seq<seq<Row>>>
    decreases |anchors|
  {
    if anchors == [] then Ok([])
    else
      var init :- Collect(fetch, anchors[..|anchors| - 1]);
      var rows :- fetch(anchors[|anchors| - 1]);
      Ok(init + [rows])
  }

  /** Collect succeeds exactly when every fetch does, and then holds each
      fetch's rows at its anchor's position; otherwise its error is that of the
      first fetch that fails. */
  lemma {:induction false} CollectSpec(fetch: string -> Result<seq<Row>>, anchors: seq<string>)
    ensures Collect(fetch, anchors).Ok? <==> forall k :: 0 <= k < |anchors| ==> fetch(anchors[k]).Ok?
    ensures var r := Collect(fetch, anchors);
      r.Ok? ==> |r.value| == |anchors| && forall k :: 0 <= k < |anchors| ==> fetch(anchors[k]) == Ok(r.value[k])
    ensures var r := Collect(fetch, anchors);
      r.Err? ==> exists k ::
        && 0 <= k < |anchors|
        && (forall j :: 0 <= j < k ==> fetch(anchors[j]).Ok?)
        && fetch(anchors[k]) == Err(r.error)
    decreases |anchors|
  {
    if anchors != [] {
      var n := |anchors| - 1;
      var init := anchors[..n];
      CollectSpec(fetch, init);
      assert forall k :: 0 <= k < n ==> init[k] == anchors[k];
      var before := Collect(fetch, init);
      if before.Err? {
        var k :| && 0 <= k < n
                 && (forall j :: 0 <= j < k ==> fetch(init[j]).Ok?)
                 && fetch(init[k]) == Err(before.error);
        assert anchors[k] == init[k];
      } else if fetch(anchors[n]).Ok? {
        var rows := Collect(fetch, anchors).value;
        assert forall k :: 0 <= k < n ==> rows[k] == before.value[k];
      }
    }
  }

  /** Once a prefix of the anchors fails, the whole series fails the same way. */
  lemma {:induction false} CollectPrefixErr(fetch: string -> Result<seq<Row>>, anchors: seq<string>, i: nat)
    requires i <= |anchors| && Collect(fetch, anchors[..i]).Err?
    ensures Collect(fetch, anchors) == Collect(fetch, anchors[..i])
    decreases |anchors| - i
  {
    if i < |anchors| {
      var n := |anchors| - 1;
      assert anchors[..n][..i] == anchors[..i];
      CollectPrefixErr(fetch, anchors[..n], i);
    } else {
      assert anchors[..i] == anchors;
    }
  }

  /** The historic fetches of GetHistoricDfs: one 21-day window per anchor. */
  function FetchAll(source: Request -> Result<Response>, site: string, anchorDate: string,
                    anchors: seq<string>): Result<seq<seq<Row>>>
  {
    Collect(a => FetchRows(source, site, anchorDate, a, false), anchors)
  }

  /** One more year: its rows are appended, or its error ends the series. */
  lemma FetchAllStep(source: Request -> Result<Response>, site: string, anchorDate: string,
                     anchors: seq<string>, i: nat)
    requires i < |anchors| && FetchAll(source, site, anchorDate, anchors[..i]).Ok?
    ensures var rows := FetchRows(source, site, anchorDate, anchors[i], false);
      rows.Ok? ==> FetchAll(source, site, anchorDate, anchors[..i + 1])
                   == Ok(FetchAll(source, site, anchorDate, anchors[..i]).value + [rows.value])
    ensures var rows := FetchRows(source, site, anchorDate, anchors[i], false);
      rows.Err? ==> FetchAll(source, site, anchorDate, anchors) == Err(rows.error)
  {
    var fetch := a => FetchRows(source, site, anchorDate, a, false);
    assert anchors[..i + 1][..i] == anchors[..i];
    if fetch(anchors[i]).Err? {
      CollectPrefixErr(fetch, anchors, i + 1);
    }
  }

  /** FetchAll succeeds exactly when every year's fetch does, and then holds
      that fetch's rows at the year's position; otherwise its error is that of
      the first year whose fetch fails. */
  lemma FetchAllSpec(source: Request -> Result<Response>, site: string, anchorDate: string, anchors: seq<string>)
    ensures FetchAll(source, site, anchorDate, anchors).Ok? <==>
      forall k :: 0 <= k < |anchors| ==> FetchRows(source, site, anchorDate, anchors[k], false).Ok?
    ensures var r := FetchAll(source, site, anchorDate, anchors);
      r.Ok? ==>
        && |r.value| == |anchors|
        && forall k :: 0 <= k < |anchors| ==> FetchRows(source, site, anchorDate, anchors[k], false) == Ok(r.value[k])
    ensures var r := FetchAll(source, site, anchorDate, anchors);
      r.Err? ==> exists k ::
        && 0 <= k < |anchors|
        && (forall j :: 0 <= j < k ==> FetchRows(source, site, anchorDate, anchors[j], false).Ok?)
        && FetchRows(source, site, anchorDate, anchors[k], false) == Err(r.error)
  {
    CollectSpec(a => FetchRows(source, site, anchorDate, a, false), anchors);
  }

  // ---------------------------------------------------------------------------
  // GetSensorName

  /** The header is cut from its first blank (kept) to its first line break
      (dropped) and title-cased, all but the last two characters, which keep
      their original case (the state code). */
  function SensorName(header: string): Result<string>
  {
    var i :- IndexOf(header, ' ');
    var j :- IndexOf(header, '\n');
    var caps := Slice(header, i, j);
    Ok(DropLast(Title(caps), 2) + TakeLast(caps, 2))
  }

  /** SensorName fails exactly when the header has no blank or no line break.
      Otherwise the name is as long as the cut, title-cased up to its last two
      characters, which are copied, and it starts with the blank. */
  lemma SensorNameSpec(header: string)
    ensures SensorName(header).Ok? <==> ' ' in header && '\n' in header
    ensures SensorName(header).Err? ==> SensorName(header).error == SubstringNotFound
    ensures SensorName(header).Ok? ==>
      var caps := Slice(header, IndexOf(header, ' ').value, IndexOf(header, '\n').value);
      var name := SensorName(header).value;
      && |name| == |caps|
      && (forall k :: 0 <= k < |caps| - 2 ==> name[k] == TitleChar(caps, k))
      && (forall k :: |caps| - 2 <= k < |caps| && 0 <= k ==> name[k] == caps[k])
      && (|caps| > 0 ==> name[0] == ' ')
  {
    if ' ' in header && '\n' in header {
      var i, j := IndexOf(header, ' ').value, IndexOf(header, '\n').value;
      var caps := Slice(header, i, j);
      var name := SensorName(header).value;
      forall k | 0 <= k < |caps| - 2 ensures name[k] == TitleChar(caps, k) {
        TitleAt(caps, k);
      }
      if |caps| > 0 {
        assert caps[0] == header[i];
        if |caps| > 2 {
          TitleAt(caps, 0);
        }
      }
    }
  }

  /** GetSensorName asks for the two weeks up to the anchor date. */
  function NameRequest(site: string, anchorDate: string): Result<Request>
  {
    var past :- GetPastDate(anchorDate);
    Ok(Request(site, past, anchorDate))
  }

  /** The name GetSensorName stores. */
  function FetchName(source: Request -> Result<Response>, site: string, anchorDate: string): Result<string>
  {
    var request :- NameRequest(site, anchorDate);
    var response :- source(request);
    SensorName(response.header)
  }
}
