# FlowForecast hydrograph core in Dafny

FlowForecast draws a three-week hydrograph for a USGS stream gauge. It shows
the current year's discharge up to an anchor date, the nine years before it,
the lowest and highest of those years, their row-by-row average with a band
around it, and a one-week linear forecast. This project models the
`HydroGraph` class of `graph.py`, which computes all of this, and the site
number validator of `GUI.py`. It then proves what these steps promise.

The modules follow the program's structure:

- `Outcomes`: the errors Python would raise, `Result`, `Option`, and `Outcome`. `Outcome` is the pass/fail result of a method that only changes state.
- `Text`: ASCII digits, `str(int)`, `int(str)`, Python slicing with clamping, `str.index`, and `str.title`.
- `Dates`: proleptic Gregorian dates for years 1 to 9999, day numbers, and `strptime`/`strftime` with `%Y-%m-%d`. It also holds `GetPastDate`, `GetFutureDate` and the historic anchors.
- `Stamps`: the frame index timestamps, their `str()` form, `DfToArray`'s year stripping, and POSIX seconds.
- `Numbers`: `sum`, `min` and `max` as left-to-right folds.
- `Sources`: the requests `GetSensorDf` and `GetSensorName` send, and what they keep from the answer.
- `Envelope`: the lowest and highest year loops, the year label, and the average loops.
- `Metrics`: volume, rate of change, the forecast line and the band.
- `Graph`: `Frame`, a DataFrame as an object whose rows can be overwritten in place, and the `HydroGraph` class itself.
- `Gui`: `validate_input` and the Tk entry that consults it.
- `Scenario`: the reference run at the bottom of `graph.py`.

Several boundaries are parameters:

- The water-data service is a function from a request to a response. The response carries the header text and the discharge rows.
- `np.polyfit`'s slope and `np.std` are function parameters.
- The matplotlib figure is a `Chart` value holding everything drawn on it.

Each step of `CreatePlot` that raises in Python, except the forecast re-formatting listed under "## Left out", is a `Fail` outcome or an `Err` result, with the error Python would raise:

- A date that does not parse.
- A date outside year 1..9999.
- `min()` of an empty column.
- A historic year shorter than the first one.
- Unpacking an empty list of points.
- x and y of different lengths.
- Formatting a `None` rate of change.

A method that fails leaves the fields it had not yet reached unchanged.

## Model

| member | source | states |
|---|---|---|
| Text.ParseInt | graph.py:155 | `int()` succeeds exactly on a non-empty string of digits |
| Text.Take | graph.py:66 | `date[:4]` has length min(4, len) and is a prefix |
| Text.Drop | graph.py:156 | `anchor[4:]` is the suffix after the first four characters, or empty |
| Text.Slice | graph.py:184 | `s[i:j]` equals the subsequence when in range, and is empty when j <= i |
| Text.DropLast | graph.py:187 | `s[:-2]` is the prefix without the last two characters, or empty |
| Text.TakeLast | graph.py:187 | `s[-2:]` is the suffix of length min(2, len) |
| Text.IndexOf | graph.py:184 | `str.index` gives the first position of the character, or fails exactly when it is absent |
| Text.TitleAt | graph.py:185 | each character of `title()` is upper-cased after a non-letter and lower-cased after a letter; other characters are kept |
| Text.TitleIdempotent | graph.py:185 | title-casing twice equals title-casing once |
| Text.ZeroPadValue | graph.py:194 | reading back a zero-padded number gives the number |
| Dates.ShiftOrdinal | graph.py:193 | adding n days moves the day number by n, and overflows exactly outside year 1..9999 |
| Dates.OrdinalInjective | graph.py:192-194 | different valid dates have different day numbers |
| Dates.ParseFormat | graph.py:192-194 | `strptime` reads back what `strftime('%Y-%m-%d')` wrote |
| Dates.FormatParse | graph.py:192-194 | `strftime` writes back exactly the text `strptime` read: the form is canonical |
| Dates.PastDateSpec | graph.py:190-194 | GetPastDate succeeds exactly on a parsable date at least 14 days after 0001-01-01, and yields a parsable date 14 days earlier; otherwise it overflows |
| Dates.FutureDateSpec | graph.py:197-201 | GetFutureDate succeeds exactly on a parsable date at least 7 days before 9999-12-31, and yields a parsable date 7 days later |
| Dates.WindowSpan | graph.py:165-170 | a historic fetch window spans exactly 21 days |
| Dates.HistoricAnchors | graph.py:155-156 | exactly nine anchors, oldest first; entry k splices year current-9+k into the anchor |
| Dates.HistoricAnchorParse | graph.py:156 | a four-digit year spliced into an anchor keeps its month and day, and fails to parse exactly on 29 February of a non-leap year |
| Dates.HistoricAnchorShortYear | graph.py:156 | a year below 1000 spliced in never parses, because `%Y` needs four digits |
| Dates.HistoricAnchorRoundTrip | graph.py:156 | splicing the original year back restores the anchor |
| Dates.LeapDayAnchorFails | graph.py:155-158 | a 29 February anchor makes at least one of the nine historic anchors unparsable |
| Sources.CollectSpec | graph.py:155-158 | collecting one fetch per anchor succeeds exactly when every fetch does, then holds every fetch's rows in order; otherwise its error is that of the first fetch that fails |
| Sources.CollectPrefixErr | graph.py:155-158 | once a prefix of the anchors fails, the whole series fails with the same error |
| Sources.FetchAllSpec | graph.py:155-158 | the nine historic fetches succeed exactly when each year's 21-day fetch does, and then hold each year's rows at its position; otherwise the error is the first failing year's |
| Sources.HistoricWindow | graph.py:165-170 | a historic request asks for anchor-14 to anchor+7 days, and fails exactly when either end is not a date |
| Sources.CurrentWindow | graph.py:165-172 | the current year's request ends at the anchor date, yet fails whenever the unused date a week later overflows |
| Sources.SensorNameSpec | graph.py:184-187 | the name fails exactly when the header lacks a blank or a line break; otherwise it is the cut from the first blank to the first line break, title-cased except for its last two characters, which are copied |
| Stamps.YearlessRoundTrip | graph.py:280-281 | `strptime(str(ts)[5:], '%m-%d %H:%M:%S%z')` gives the same moment in year 1900, and fails on 29 February |
| Stamps.DfToArraySpec | graph.py:276-282 | DfToArray fails exactly when a sample falls on 29 February; otherwise it keeps every value and moves every timestamp to year 1900 |
| Stamps.Values | graph.py:207 | the value column has one entry per row, in order |
| Stamps.Ys | graph.py:84 | the y values of the points, one per point, in order |
| Stamps.Timestamps | graph.py:92 | one POSIX time per index entry, in order |
| Stamps.EpochNextDay | graph.py:92 | the same clock time one day later is 86400 seconds later |
| Numbers.SumAppend | graph.py:259 | `sum` of a concatenation is the sum of the sums |
| Numbers.MinimumSpec | graph.py:207 | `min()` is a member of the column and at most every entry |
| Numbers.MaximumSpec | graph.py:228 | `max()` is a member of the column and at least every entry |
| Envelope.LowestIndex | graph.py:207-215 | the loop fails exactly on an empty column, and otherwise returns the index of LowestChoice |
| Envelope.LowestStep | graph.py:211-215 | one iteration keeps its invariant: the index is the first strictly lowest year so far, or -1 |
| Envelope.LowestUpToSpec | graph.py:210-215 | after n iterations the index is -1 when no year beats the current one, else the earliest historic year with the smallest minimum |
| Envelope.LowestChoiceSpec | graph.py:210-215 | that holds for the index after the whole loop |
| Envelope.LowestIsGlobalMinimum | graph.py:207-215 | the chosen series holds the lowest reading of the current and all historic series |
| Envelope.LowestChoiceUnique | graph.py:213 | the choice is determined by the data (current year wins ties, then the earliest year) |
| Envelope.HighestIndex | graph.py:228-236 | the loop fails exactly on an empty column, and otherwise returns the index of HighestChoice |
| Envelope.HighestStep | graph.py:232-236 | one iteration keeps its invariant, with maxima |
| Envelope.HighestUpToSpec | graph.py:231-236 | after n iterations the index is -1 or the earliest historic year with the largest maximum |
| Envelope.HighestChoiceSpec | graph.py:231-236 | that holds for the index after the whole loop |
| Envelope.HighestIsGlobalMaximum | graph.py:228-236 | the chosen series holds the highest reading of all series |
| Envelope.HighestChoiceUnique | graph.py:234 | the choice is determined by the data |
| Envelope.YearLabel | graph.py:217-222 | the current year wins with its own label |
| Envelope.YearLabelOffByOne | graph.py:219 | the label `current - index + 1` names the fetched year `current - 9 + index` only for index 5 |
| Envelope.Column | graph.py:255-257 | row i of every year, one entry per year |
| Envelope.RowMeans | graph.py:251-260 | one mean per row of the first historic year |
| Envelope.AverageRows | graph.py:249-260 | the nested loops fail exactly when some year is shorter than the first one; otherwise they return RowMeans |
| Envelope.RowMeanBetween | graph.py:259 | a row mean lies between the smallest and the largest reading of its row |
| Envelope.RowMeanOfEqual | graph.py:259 | a row whose readings are all equal averages to that reading |
| Metrics.CubicFeetIsScaledSum | graph.py:290 | the summed cubic feet are `sum(y) * 900` |
| Metrics.VolumeIsScaledSum | graph.py:288-293 | the volume is `sum(y) * 900 / 43560` |
| Metrics.VolumeOfNothing | graph.py:290-293 | no readings have volume 0 |
| Metrics.VolumeScale | graph.py:290-293 | scaling the readings scales the volume |
| Metrics.VolumeAppend | graph.py:290-293 | the volume of two stretches is the sum of their volumes |
| Metrics.VolumeNonNegative | graph.py:290-293 | non-negative readings have non-negative volume |
| Metrics.CalculateFlow | graph.py:296-305 | None below two readings; 0 when all readings are equal; otherwise 4 times the size of the last change |
| Metrics.RateOfChangeSign | graph.py:303-305 | the rate is never negative, and it is 0 exactly when nothing changed |
| Metrics.RateOfChangeUnique | graph.py:296-305 | the promise of CalculateFlow determines its result |
| Metrics.Linspace | graph.py:97 | n values from start to exactly stop, evenly spaced |
| Metrics.Forecast | graph.py:94-98 | 469 x values from the last timestamp to one week later, evenly spaced |
| Metrics.ForecastAnchored | graph.py:94-98 | the line starts at the last observed reading, and each step changes it by slope times the spacing |
| Metrics.Band | graph.py:120-122 | one lower and one upper value per average |
| Metrics.BandEncloses | graph.py:121-122 | with a non-negative spread the band encloses the average and is twice the spread wide |
| Graph.ValuesOf | graph.py:256 | one value column per frame, in order |
| Graph.WithValues | graph.py:263-264 | the timestamps are kept and the values replaced |
| Graph.ToPoints | graph.py:276-282 | DfToArray of a frame field; a missing frame fails |
| Graph.ForecastFromRows | graph.py:92-98 | the forecast drawn from a frame starts at the time and value of its last reading |
| Graph.ForecastFollowsReadings | graph.py:92-98 | in a finished figure the forecast starts at the time and value of the last current reading |
| Graph.DrawnFlowNonNegative | graph.py:136 | the rate of change in a finished figure's subtitle is never negative |
| Graph.HydroGraph.constructor | graph.py:16-17 | a new object is in the reset state |
| Graph.HydroGraph.ResetVariables | graph.py:19-49 | every label is empty, every frame missing, every list empty, the figure empty and unfinished |
| Graph.HydroGraph.ResetLabels | graph.py:23-29 | the six labels are empty |
| Graph.HydroGraph.ResetFrames | graph.py:31-36 | the five frame fields are missing |
| Graph.HydroGraph.ResetFigure | graph.py:38-49 | the four lists are empty, the figure is empty and unfinished |
| Graph.HydroGraph.SetFullInfo | graph.py:51-57 | site and date are set; the figure is finished exactly on success, and then agrees with every data field; after a failure the figure is empty |
| Graph.HydroGraph.SetSensorId | graph.py:59-61 | the site is set |
| Graph.HydroGraph.SetAnchorDate | graph.py:63-68 | the date is set and the year is its first four characters; on success the figure is drawn; on failure the figure is untouched |
| Graph.HydroGraph.NameAndPlot | graph.py:67-68 | on success the figure is drawn; on failure the figure is untouched |
| Graph.HydroGraph.CreatePlot | graph.py:70-144 | on success the figure agrees with every data field and the current series is DfToArray of the current frame; on failure the figure is untouched |
| Graph.HydroGraph.CollectSeries | graph.py:74-78 | on success the current frame holds the rows fetched up to the anchor date; nine historic frames are held; the first of them is the average frame and holds, on the timestamps of the first fetched year, the mean of each row over the nine fetched years; every other one holds the rows of its year's fetch |
| Graph.HydroGraph.ExtremesAndAverage | graph.py:76-78 | with historic frames holding the fetched rows, success leaves the first frame holding the row means and makes it the average frame, the others keep their rows, and the current frame is untouched |
| Graph.HydroGraph.FetchSeries | graph.py:74-75 | on success the current frame holds the fetched rows up to the anchor date, and nine distinct new historic frames, none of them the current one, hold the rows of the nine historic fetches in order |
| Graph.HydroGraph.ChooseExtremes | graph.py:76-77 | success needs the current and historic frames, none of them empty |
| Graph.HydroGraph.DrawFigure | graph.py:84-144 | fails exactly on an empty or short series, or mismatched lengths; on success the figure shows every curve, the band, the forecast, the volume and the rate of change |
| Graph.HydroGraph.GetHistoricDfs | graph.py:152-159 | succeeds exactly when the year parses and the nine historic fetches succeed; then it holds nine distinct new frames, the k-th with the rows of the k-th fetch; otherwise the field is unchanged and the error is the bad year or the first failed fetch |
| Graph.HydroGraph.FetchHistoric | graph.py:154-158 | one new frame per anchor, in order, all distinct, each with the rows FetchAll gives for its anchor; it fails exactly when FetchAll does, with its error |
| Graph.HydroGraph.GetHistoricDf | graph.py:157-158 | the new frame of one more year extends the series fetched so far, or its error is the error of the whole series |
| Graph.HydroGraph.GetSensorDf | graph.py:162-176 | a new frame with the rows the service returns for the window |
| Graph.HydroGraph.GetSensorName | graph.py:179-187 | succeeds exactly when the name can be cut from the header, and then stores it; otherwise the name is unchanged |
| Graph.HydroGraph.GetLowestDf | graph.py:204-222 | succeeds exactly when the frames are loaded and the label can be formed; the lowest frame is the current one or the chosen historic one, labelled as YearLabel says |
| Graph.HydroGraph.GetHighestDf | graph.py:225-243 | the same for the highest frame |
| Graph.HydroGraph.GetAverageFromData | graph.py:246-265 | succeeds exactly when no year is shorter than the first; the first historic frame then holds its timestamps with the row means, and becomes the average frame, and so does any lowest or highest frame aliasing it |
| Graph.HydroGraph.ConvertDfs | graph.py:268-273 | succeeds exactly when all four frames convert; each list is then DfToArray of its frame; they convert in the order current, lowest, highest, average, and a failure carries the error of the first frame that does not convert, keeps the lists converted before it and leaves the remaining lists unchanged |
| Scenario.ReferenceWindow | graph.py:308-312 | for anchor 2023-06-05 the window is 2023-05-22 to 2023-06-12 |
| Scenario.ReferenceAnchors | graph.py:308-312 | for anchor 2023-06-05 the historic anchors are 5 June 2014 through 2022, in order |
| Gui.ValidateInput | GUI.py:28-29 | accepts exactly strings of at most eight digits: the empty one, 1 to 8 digits; a non-digit or a ninth digit is rejected |
| Gui.PrefixAccepted | GUI.py:28-29 | every prefix of an accepted string is accepted |
| Gui.Edit | GUI.py:31-32 | an accepted proposal becomes the content, a rejected one changes nothing |
| Gui.EditsKeepSiteNumber | GUI.py:28-32 | after any series of keystrokes the box holds at most eight digits |
| Gui.EditAllLast | GUI.py:31-32 | the box ends with the last accepted proposal |
| Gui.RejectedEditsKeep | GUI.py:31-32 | rejected proposals leave the box unchanged |

## Left out

- The water-data service (`hf.NWIS`), its parquet cache files and the `request.df('00060')` column selection (graph.py:170-175, 182) are a function parameter. It returns the header text and the discharge rows.
- `np.polyfit` (graph.py:93) and `np.std` (graph.py:120) are floating-point library numerics. They are parameters `fit` and `spread`.
- The `utcfromtimestamp`/`strftime`/`strptime` re-formatting of the forecast x values (graph.py:100-105) is left out. The forecast keeps POSIX seconds.
- DrawFigure, CreatePlot, SetAnchorDate, NameAndPlot, SetFullInfo: these succeed where Python raises `ValueError` because a forecast sample falls on 29 February (for example with anchor 2024-02-25). The `strptime` at graph.py:104 has no year, so it reads year 1900, which has no 29 February.
- matplotlib rendering, legend, tick formatting and `savefig` (graph.py:107-143) are left out. The figure is the `Chart` value that records what is drawn.
- The vertical anchor line label (graph.py:129) is left out. So is the `GetPlot` accessor (graph.py:147-149).
- CreatePlot: a failure in Python can leave a partly drawn figure. Here the figure changes only when every step succeeded.
- Tkinter widgets, the busy-wait on `graph_finished`, and `clear_cache`/`makedirs` in `GUI.py` are UI, polling and file-system work. `main.py` as a whole is left out.
- Floating point is modelled as exact real arithmetic, so rounding in sums, means and the forecast is not captured.
- `strptime` is modelled on its zero-padded form. Its lenient one-digit fields are not captured; the date picker always pads. `%Y` for years below 1000 is platform-dependent when written, and is modelled as four digits.
- `int()` is modelled on ASCII digits only. Signs, surrounding blanks and underscores are not captured. `str.isdigit` and `str.title` are restricted to ASCII.
- Timestamps carry whole seconds and a whole-minute UTC offset. Sub-second parts are not modelled.
- SetFullInfo, SetAnchorDate, NameAndPlot, CreatePlot: these do not restate which rows the current, historic and average frames hold, which CollectSeries states.
- ChooseExtremes, CollectSeries, CreatePlot: these do not restate which frames were chosen, which GetLowestDf and GetHighestDf state with Envelope.LowestChoice and Envelope.HighestChoice.
- CreatePlot: it does not restate the converted lowest, highest and average series, which ConvertDfs states.
- SetAnchorDate, SetFullInfo, NameAndPlot: these do not restate any converted series, which CreatePlot and ConvertDfs state. They also do not restate that the name is the one fetched from the header, which GetSensorName states; the figure's title is that name.
- The loops of GetLowestDf, GetHighestDf, GetAverageFromData and GetHistoricDfs run in the methods Envelope.LowestIndex, Envelope.HighestIndex, Envelope.AverageRows and FetchHistoric. They work on the value columns, and the HydroGraph method assigns the fields from the result.
