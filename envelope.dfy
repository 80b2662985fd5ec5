/** The historical envelope: which year holds the lowest and the highest
    reading (GetLowestDf, GetHighestDf), the label given to that year, and the
    row-by-row average of the historic years (GetAverageFromData). */
module Envelope {
  import opened Outcomes
  import opened Text
  import opened Numbers

  predicate AllNonEmpty(hist: seq<seq<real>>)
  {
    forall k :: 0 <= k < |hist| ==> |hist[k]| > 0
  }

  /** The series an index stands for: -1 is the current year, k the k-th historic year. */
  function Chosen(current: seq<real>, hist: seq<seq<real>>, idx: int): seq<real>
    requires idx == -1 || 0 <= idx < |hist|
  {
    if idx == -1 then current else hist[idx]
  }

  // ---------------------------------------------------------------------------
  // GetLowestDf

  /** idx is what GetLowestDf's loop holds after the first n historic years:
      the current year (-1) unless one of them has a strictly smaller minimum,
      and then the first of them with the smallest minimum. */
  ghost predicate LowestAmong(current: seq<real>, hist: seq<seq<real>>, n: nat, idx: int)
    requires |current| > 0 && n <= |hist| && forall k :: 0 <= k < n ==> |hist[k]| > 0
  {
    if idx == -1 then forall k :: 0 <= k < n ==> Minimum(current) <= Minimum(hist[k])
    else
      && 0 <= idx < n
      && Minimum(hist[idx]) < Minimum(current)
      && (forall k :: 0 <= k < idx ==> Minimum(hist[idx]) < Minimum(hist[k]))
      && (forall k :: idx < k < n ==> Minimum(hist[idx]) <= Minimum(hist[k]))
  }

  /** The index GetLowestDf settles on, over all historic years. */
  ghost predicate IsLowestChoice(current: seq<real>, hist: seq<seq<real>>, idx: int)
    requires |current| > 0 && AllNonEmpty(hist)
  {
    LowestAmong(current, hist, |hist|, idx)
  }

  /** One turn of GetLowestDf's loop, over year n - 1: keep the index unless that year is strictly lower. */
  lemma LowestStep(current: seq<real>, hist: seq<seq<real>>, n: nat, idx: int)
    requires |current| > 0 && 0 < n <= |hist| && forall k :: 0 <= k < n ==> |hist[k]| > 0
    requires LowestAmong(current, hist, n - 1, idx)
    ensures LowestAmong(current, hist, n,
      if Minimum(hist[n - 1]) < Minimum(Chosen(current, hist, idx)) then n - 1 else idx)
  {
    var m := Minimum(hist[n - 1]);
    if m < Minimum(Chosen(current, hist, idx)) {
      assert forall k :: 0 <= k < n - 1 ==> m < Minimum(hist[k]);
      assert LowestAmong(current, hist, n, n - 1);
    } else if idx == -1 {
      assert LowestAmong(current, hist, n, -1);
    } else {
      assert LowestAmong(current, hist, n, idx);
    }
  }

  /** The index GetLowestDf's loop holds after the first n historic years,
      computed as a fold. */
  function LowestUpTo(current: seq<real>, hist: seq<seq<real>>, n: nat): (idx: int)
    requires |current| > 0 && n <= |hist| && forall k :: 0 <= k < n ==> |hist[k]| > 0
    ensures idx == -1 || 0 <= idx < n
  {
    if n == 0 then -1
    else
      var idx := LowestUpTo(current, hist, n - 1);
      if Minimum(hist[n - 1]) < Minimum(Chosen(current, hist, idx)) then n - 1 else idx
  }

  /** The index GetLowestDf settles on. */
  function LowestChoice(current: seq<real>, hist: seq<seq<real>>): (idx: int)
    requires |current| > 0 && AllNonEmpty(hist)
    ensures idx == -1 || 0 <= idx < |hist|
  {
    LowestUpTo(current, hist, |hist|)
  }

  /** The fold meets the description of GetLowestDf's choice. */
  lemma {:induction false} LowestUpToSpec(current: seq<real>, hist: seq<seq<real>>, n: nat)
    requires |current| > 0 && n <= |hist| && forall k :: 0 <= k < n ==> |hist[k]| > 0
    ensures LowestAmong(current, hist, n, LowestUpTo(current, hist, n))
  {
    if n > 0 {
      var idx := LowestUpTo(current, hist, n - 1);
      LowestUpToSpec(current, hist, n - 1);
      LowestStep(current, hist, n, idx);
    }
  }

  lemma LowestChoiceSpec(current: seq<real>, hist: seq<seq<real>>)
    requires |current| > 0 && AllNonEmpty(hist)
    ensures IsLowestChoice(current, hist, LowestChoice(current, hist))
  {
    LowestUpToSpec(current, hist, |hist|);
  }

  /** The loop of GetLowestDf over the value columns: min() of an empty column raises. */
  method LowestIndex(current: seq<real>, hist: seq<seq<real>>) returns (r: Result<int>)
    ensures r.Err? <==> |current| == 0 || !AllNonEmpty(hist)
    ensures r.Err? ==> r.error == EmptySeries
    ensures r.Ok? ==> AllNonEmpty(hist) && r.value == LowestChoice(current, hist)
  {
    if |current| == 0 {
      return Err(EmptySeries);
    }
    var lowest := Minimum(current);
    var idx := -1;
    for i := 0 to |hist|
      invariant forall k :: 0 <= k < i ==> |hist[k]| > 0
      invariant idx == LowestUpTo(current, hist, i)
      invariant lowest == Minimum(Chosen(current, hist, idx))
    {
      if |hist[i]| == 0 {
        return Err(EmptySeries);
      }
      var historicLowest := Minimum(hist[i]);
      if historicLowest < lowest {
        lowest := historicLowest;
        idx := i;
      }
    }
    return Ok(idx);
  }

  /** The chosen year holds the lowest reading of all years, current and historic. */
  lemma LowestIsGlobalMinimum(current: seq<real>, hist: seq<seq<real>>, idx: int)
    requires |current| > 0 && AllNonEmpty(hist) && IsLowestChoice(current, hist, idx)
    ensures idx == -1 || 0 <= idx < |hist|
    ensures forall j :: 0 <= j < |current| ==> Minimum(Chosen(current, hist, idx)) <= current[j]
    ensures forall k, j :: 0 <= k < |hist| && 0 <= j < |hist[k]| ==> Minimum(Chosen(current, hist, idx)) <= hist[k][j]
  {
    var m := Minimum(Chosen(current, hist, idx));
    MinimumSpec(current);
    forall k, j | 0 <= k < |hist| && 0 <= j < |hist[k]| ensures m <= hist[k][j] {
      MinimumSpec(hist[k]);
    }
  }

  /** The choice is determined by the data. */
  lemma LowestChoiceUnique(current: seq<real>, hist: seq<seq<real>>, a: int, b: int)
    requires |current| > 0 && AllNonEmpty(hist)
    requires IsLowestChoice(current, hist, a) && IsLowestChoice(current, hist, b)
    ensures a == b
  {
  }

  // ---------------------------------------------------------------------------
  // GetHighestDf

  /** idx is what GetHighestDf's loop holds after the first n historic years:
      as LowestAmong, with maxima. */
  ghost predicate HighestAmong(current: seq<real>, hist: seq<seq<real>>, n: nat, idx: int)
    requires |current| > 0 && n <= |hist| && forall k :: 0 <= k < n ==> |hist[k]| > 0
  {
    if idx == -1 then forall k :: 0 <= k < n ==> Maximum(hist[k]) <= Maximum(current)
    else
      && 0 <= idx < n
      && Maximum(current) < Maximum(hist[idx])
      && (forall k :: 0 <= k < idx ==> Maximum(hist[k]) < Maximum(hist[idx]))
      && (forall k :: idx < k < n ==> Maximum(hist[k]) <= Maximum(hist[idx]))
  }

  /** The index GetHighestDf settles on, over all historic years. */
  ghost predicate IsHighestChoice(current: seq<real>, hist: seq<seq<real>>, idx: int)
    requires |current| > 0 && AllNonEmpty(hist)
  {
    HighestAmong(current, hist, |hist|, idx)
  }

  /** One turn of GetHighestDf's loop, over year n - 1: keep the index unless that year is strictly higher. */
  lemma HighestStep(current: seq<real>, hist: seq<seq<real>>, n: nat, idx: int)
    requires |current| > 0 && 0 < n <= |hist| && forall k :: 0 <= k < n ==> |hist[k]| > 0
    requires HighestAmong(current, hist, n - 1, idx)
    ensures HighestAmong(current, hist, n,
      if Maximum(hist[n - 1]) > Maximum(Chosen(current, hist, idx)) then n - 1 else idx)
  {
    var m := Maximum(hist[n - 1]);
    if m > Maximum(Chosen(current, hist, idx)) {
      assert forall k :: 0 <= k < n - 1 ==> Maximum(hist[k]) < m;
      assert HighestAmong(current, hist, n, n - 1);
    } else if idx == -1 {
      assert HighestAmong(current, hist, n, -1);
    } else {
      assert HighestAmong(current, hist, n, idx);
    }
  }

  /** The index GetHighestDf's loop holds after the first n historic years,
      computed as a fold. */
  function HighestUpTo(current: seq<real>, hist: seq<seq<real>>, n: nat): (idx: int)
    requires |current| > 0 && n <= |hist| && forall k :: 0 <= k < n ==> |hist[k]| > 0
    ensures idx == -1 || 0 <= idx < n
  {
    if n == 0 then -1
    else
      var idx := HighestUpTo(current, hist, n - 1);
      if Maximum(hist[n - 1]) > Maximum(Chosen(current, hist, idx)) then n - 1 else idx
  }

  /** The index GetHighestDf settles on. */
  function HighestChoice(current: seq<real>, hist: seq<seq<real>>): (idx: int)
    requires |current| > 0 && AllNonEmpty(hist)
    ensures idx == -1 || 0 <= idx < |hist|
  {
    HighestUpTo(current, hist, |hist|)
  }

  /** The fold meets the description of GetHighestDf's choice. */
  lemma {:induction false} HighestUpToSpec(current: seq<real>, hist: seq<seq<real>>, n: nat)
    requires |current| > 0 && n <= |hist| && forall k :: 0 <= k < n ==> |hist[k]| > 0
    ensures HighestAmong(current, hist, n, HighestUpTo(current, hist, n))
  {
    if n > 0 {
      var idx := HighestUpTo(current, hist, n - 1);
      HighestUpToSpec(current, hist, n - 1);
      HighestStep(current, hist, n, idx);
    }
  }

  lemma HighestChoiceSpec(current: seq<real>, hist: seq<seq<real>>)
    requires |current| > 0 && AllNonEmpty(hist)
    ensures IsHighestChoice(current, hist, HighestChoice(current, hist))
  {
    HighestUpToSpec(current, hist, |hist|);
  }

  /** The loop of GetHighestDf over the value columns: max() of an empty column raises. */
  method HighestIndex(current: seq<real>, hist: seq<seq<real>>) returns (r: Result<int>)
    ensures r.Err? <==> |current| == 0 || !AllNonEmpty(hist)
    ensures r.Err? ==> r.error == EmptySeries
    ensures r.Ok? ==> AllNonEmpty(hist) && r.value == HighestChoice(current, hist)
  {
    if |current| == 0 {
      return Err(EmptySeries);
    }
    var highest := Maximum(current);
    var idx := -1;
    for i := 0 to |hist|
      invariant forall k :: 0 <= k < i ==> |hist[k]| > 0
      invariant idx == HighestUpTo(current, hist, i)
      invariant highest == Maximum(Chosen(current, hist, idx))
    {
      if |hist[i]| == 0 {
        return Err(EmptySeries);
      }
      var historicHighest := Maximum(hist[i]);
      if historicHighest > highest {
        highest := historicHighest;
        idx := i;
      }
    }
    return Ok(idx);
  }

  /** The chosen year holds the highest reading of all years, current and historic. */
  lemma HighestIsGlobalMaximum(current: seq<real>, hist: seq<seq<real>>, idx: int)
    requires |current| > 0 && AllNonEmpty(hist) && IsHighestChoice(current, hist, idx)
    ensures idx == -1 || 0 <= idx < |hist|
    ensures forall j :: 0 <= j < |current| ==> current[j] <= Maximum(Chosen(current, hist, idx))
    ensures forall k, j :: 0 <= k < |hist| && 0 <= j < |hist[k]| ==> hist[k][j] <= Maximum(Chosen(current, hist, idx))
  {
    var m := Maximum(Chosen(current, hist, idx));
    MaximumSpec(current);
    forall k, j | 0 <= k < |hist| && 0 <= j < |hist[k]| ensures hist[k][j] <= m {
      MaximumSpec(hist[k]);
    }
  }

  lemma HighestChoiceUnique(current: seq<real>, hist: seq<seq<real>>, a: int, b: int)
    requires |current| > 0 && AllNonEmpty(hist)
    requires IsHighestChoice(current, hist, a) && IsHighestChoice(current, hist, b)
    ensures a == b
  {
  }

  // ---------------------------------------------------------------------------
  // The year label

  /** `str(int(current_year) - index + 1)` for a historic winner, `current_year` otherwise. */
  function YearLabel(currentYear: string, idx: int): (r: Result<string>)
    ensures idx == -1 ==> r == Ok(currentYear)
  {
    if idx != -1 then
      var y :- ParseInt(currentYear);
      Ok(IntToString(y - idx + 1))
    else Ok(currentYear)
  }

  /** The historic series at index k was fetched for year current-9+k, but its
      label names year current-k+1: the two agree only for k = 5. */
  lemma YearLabelOffByOne(currentYear: string, idx: int)
    requires ParseInt(currentYear).Ok?
    requires 1009 <= ParseInt(currentYear).value <= 9999
    requires 0 <= idx < 9
    ensures YearLabel(currentYear, idx).Ok?
    ensures var y := ParseInt(currentYear).value;
      YearLabel(currentYear, idx).value == IntToString(y - 9 + idx) <==> idx == 5
  {
    var y := ParseInt(currentYear).value;
    YearTextsDiffer(y - idx + 1, y - 9 + idx);
  }

  /** Two years from 1000 to 10000 print alike only when they are equal. */
  lemma YearTextsDiffer(named: int, fetched: int)
    requires 1000 <= named <= 10000 && 1000 <= fetched < 10000
    ensures IntToString(named) == IntToString(fetched) <==> named == fetched
  {
    assert Pow10(3) == 1000 && Pow10(4) == 10000 && Pow10(5) == 100000;
    NatToStringIsPadded(fetched, 4);
    if named == 10000 {
      // The label has five digits, the year four.
      NatToStringIsPadded(named, 5);
    } else {
      NatToStringIsPadded(named, 4);
      if IntToString(named) == IntToString(fetched) {
        ZeroPadValue(named, 4);
        ZeroPadValue(fetched, 4);
      }
    }
  }

  // ---------------------------------------------------------------------------
  // GetAverageFromData

  predicate AllLongerThan(hist: seq<seq<real>>, i: nat)
  {
    forall j :: 0 <= j < |hist| ==> i < |hist[j]|
  }

  /** Row i of every historic year. */
  function Column(hist: seq<seq<real>>, i: nat): (c: seq<real>)
    requires AllLongerThan(hist, i)
    ensures |c| == |hist| && forall j :: 0 <= j < |hist| ==> c[j] == hist[j][i]
  {
    seq(|hist|, j requires 0 <= j < |hist| => hist[j][i])
  }

  /** The arithmetic mean of row i over all historic years. */
  function RowMean(hist: seq<seq<real>>, i: nat): real
    requires |hist| > 0 && AllLongerThan(hist, i)
  {
    Sum(Column(hist, i)) / |hist| as real
  }

  /** No historic year is shorter than the first one, so every row of the
      first year can be read in each of them. */
  predicate Rectangular(hist: seq<seq<real>>)
  {
    |hist| > 0 && forall j :: 0 <= j < |hist| ==> |hist[0]| <= |hist[j]|
  }

  /** The mean of each row of the first historic year over all years. */
  function RowMeans(hist: seq<seq<real>>): (m: seq<real>)
    requires Rectangular(hist)
    ensures |m| == |hist[0]|
  {
    seq(|hist[0]|, i requires 0 <= i < |hist[0]| => RowMean(hist, i))
  }

  /** The loops of GetAverageFromData: for each row of the first historic year,
      the mean of that row over every year.  A year shorter than the first one
      makes the positional read fail. */
  method AverageRows(hist: seq<seq<real>>) returns (r: Result<seq<real>>)
    ensures r.Err? <==> !Rectangular(hist)
    ensures r.Err? ==> r.error == IndexOutOfRange
    ensures r.Ok? ==> r.value == RowMeans(hist)
  {
    if |hist| == 0 {
      return Err(IndexOutOfRange);
    }
    var values: seq<real> := [];
    for i := 0 to |hist[0]|
      invariant |values| == i
      invariant forall j :: 0 <= j < |hist| ==> i <= |hist[j]|
      invariant forall k :: 0 <= k < i ==> AllLongerThan(hist, k) && values[k] == RowMean(hist, k)
    {
      var row: seq<real> := [];
      for j := 0 to |hist|
        invariant |row| == j
        invariant forall q :: 0 <= q < j ==> i < |hist[q]| && row[q] == hist[q][i]
      {
        if |hist[j]| <= i {
          assert |hist[j]| < |hist[0]|;
          return Err(IndexOutOfRange);
        }
        row := row + [hist[j][i]];
      }
      assert row == Column(hist, i);
      values := values + [Sum(row) / |row| as real];
    }
    assert Rectangular(hist);
    return Ok(values);
  }

  lemma {:induction false} SumBounds(s: seq<real>, lo: real, hi: real)
    requires forall k :: 0 <= k < |s| ==> lo <= s[k] <= hi
    ensures |s| as real * lo <= Sum(s) <= |s| as real * hi
  {
    if s != [] {
      SumBounds(s[..|s| - 1], lo, hi);
    }
  }

  /** A row mean lies between the smallest and the largest reading of its row. */
  lemma RowMeanBetween(hist: seq<seq<real>>, i: nat, lo: real, hi: real)
    requires |hist| > 0 && AllLongerThan(hist, i)
    requires forall j :: 0 <= j < |hist| ==> lo <= hist[j][i] <= hi
    ensures lo <= RowMean(hist, i) <= hi
  {
    var c := Column(hist, i);
    SumBounds(c, lo, hi);
    var n := |hist| as real;
    DivideBounds(Sum(c), n, lo, hi);
  }

  lemma DivideBounds(a: real, n: real, lo: real, hi: real)
    requires n > 0.0 && n * lo <= a <= n * hi
    ensures lo <= a / n <= hi
  {
    assert a / n - lo == (a - n * lo) / n;
    assert hi - a / n == (n * hi - a) / n;
  }

  /** When every year reads the same value in row i, the mean is that value. */
  lemma RowMeanOfEqual(hist: seq<seq<real>>, i: nat, v: real)
    requires |hist| > 0 && AllLongerThan(hist, i)
    requires forall j :: 0 <= j < |hist| ==> hist[j][i] == v
    ensures RowMean(hist, i) == v
  {
    RowMeanBetween(hist, i, v, v);
  }
}
