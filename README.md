# health-stats in Dafny

`health-stats.py` reads a health log exported as CSV. The log has a header
row, then one row per reading: date, time, blood sugar, upper and lower
blood pressure, heart rate, weight and notes. It ends with a statistics row.
The script turns the rows into six aligned series and then plots them:
timestamps under a year given on the command line, plus the five metrics,
each of which may be absent. It also bins the sugar readings by hour of the
day.

This project models the data path of the script and proves what it
guarantees:

- **Numbers** (`Numbers.dfy`): decimal digit strings, and the number grammar
  that stands in for Python's `float(value)`. The grammar is an optional sign,
  digits, and an optional point followed by more digits, with at least one
  digit in all. The parser reads left to right, the way a scanner does, and
  is proved against the digit-string values (`ParseNatString`,
  `ParseDecimalString`).
- **Timestamps** (`Timestamps.dfy`): the restricted parser that stands in for
  `datetime.strptime("<year>/<date> <time>", "%Y/%m/%d %H:%M")`.
  - The year is exactly four digits, so a year below 1000 gives no timestamp.
  - Month, day, hour and minute take one or two digits each.
  - Each field is range-checked the way the `datetime` constructor checks it,
    with Gregorian month lengths and leap years.
  - The one-pass parser `ParseTimestamp` is proved equal to a
    match-then-construct reading of the format (`ScanMatches`). It is also
    proved to invert the log's own "M/D" and "H:MM" rendering
    (`ParseComposed`).
- **SeriesBuilder** (`SeriesBuilder.dfy`): `str2float` and
  `getTimeStampedData`, both as methods that follow the code step by step.
  - Each row is classified: it is skipped when its date or time is blank,
    rejected with one message when its timestamp does not parse, and
    otherwise accepted.
  - The loop of `getTimeStampedData` is proved to build exactly the series
    and the messages that this per-row classification gives.
  - The printed messages are returned as a list of diagnostics.
- **Aggregate** (`Aggregate.dfy`):
  - `meanData`: the mean of the present values, or 0.0 when there are none.
  - The binning loop of `binSugars`: it works in place on a 24-entry count
    array and a 24-entry bucket array, and is proved to put every pair
    `(dt, sugar)` of `zip(dts, sugars)` into the bucket of its hour.
- **Report** (`Report.dfy`): `plotData` without the plots.
  - It checks the header, takes the rows strictly between the first and the
    last, and builds the series.
  - It computes the means shown in the five plot titles and the hourly sugar
    bins.
  - It models the three ways the script stops with an exception: an empty
    file, a wrong header, or a data row that does not have eight fields.

Python floats are modelled by exact real numbers. A Python `None` is
`Option.None`.

`dateStr, timeStr, sugar, upper, lower, bpm, weight, _ = raw` requires
exactly eight fields, so a row written with seven fields, even a blank one,
stops the run with an unpacking error (`Report.SevenFieldRowsStop`).

## Model

| member | source | states |
|---|---|---|
| Numbers.ParseNatString | health-stats.py:25 | `float` applied to the decimal rendering of any natural number n gives back exactly n |
| Numbers.ParseNegatedNatString | health-stats.py:25 | a minus sign in front of a rendered natural number n reads as -n |
| Numbers.ParseDecimalString | health-stats.py:25 | "w.f", for rendered naturals w and f, reads as w plus the fraction f / 10^len(f) |
| Numbers.ParseUnsignedDecimal | health-stats.py:25 | any non-empty run of digits, a point and any run of digits reads as the whole part plus the fraction |
| Numbers.NumberShape | health-stats.py:23-27 | every text that converts consists only of signs, digits and points and contains at least one digit, so text such as "n/a" always lands on the error path |
| Numbers.ReadDigitsThen | health-stats.py:25 | reading a run of digits in the scanner accumulates exactly those digits, whatever follows them |
| Numbers.AccumulateValue | health-stats.py:25 | accumulating digits on top of a value w gives w shifted past them plus their value |
| Numbers.NatToStringLength | health-stats.py:49 | the `%s` rendering of n fits in k characters exactly when n < 10^k |
| Numbers.NatToStringValue | health-stats.py:49 | the `%s` rendering of n has digit value n |
| Numbers.SplitDigitsAt | health-stats.py:51 | the digit group strptime takes from digits followed by a non-digit is exactly those digits |
| Timestamps.YearLength | health-stats.py:51 | the twelve Gregorian month lengths add up to 365 days, or 366 in a leap year |
| Timestamps.LeapDay | health-stats.py:51 | 29 February gives a timestamp exactly in leap years (2000 is one, 1900 is not); 30 February and a 32nd day of any month never do |
| Timestamps.DaysInMonth | health-stats.py:51 | every month has between 28 and 31 days |
| Timestamps.MatchFormat | health-stats.py:43 | a text matching "%Y/%m/%d %H:%M" yields one value per numeric directive |
| Timestamps.MatchTimestampText | health-stats.py:43 | four year digits, then one or two digits for each of month, day, hour and minute, with the separators "/", "/", " " and ":", match the format and yield the five digit values |
| Timestamps.ScanMatches | health-stats.py:49-55 | the one-pass parser gives what matching the format and then constructing the `datetime` gives, including failure |
| Timestamps.ParseMatched | health-stats.py:49-55 | a text that matches the format parses to the `datetime` of its five values, or fails when they are out of range |
| Timestamps.ParseUnmatched | health-stats.py:49-55 | a text that does not match the format does not parse |
| Timestamps.ParseComposed | health-stats.py:49-51 | a timestamp written as "M/D" and "H:MM" and composed with its own four-digit year parses back to itself |
| Timestamps.YearOutOfFormatRejected | health-stats.py:49-55 | under a year outside 1000-9999 no date and time parse |
| SeriesBuilder.Str2Float | health-stats.py:20-28 | an empty value gives None and no message; a non-empty value that does not convert gives None and exactly one message naming the field, the value and the row; a value that converts gives its number and no message |
| SeriesBuilder.GetTimeStampedData | health-stats.py:30-64 | the loop returns exactly the six series and the messages that the per-row outcomes of all rows give, in row order |
| SeriesBuilder.Outcomes | health-stats.py:44-62 | there is one outcome per input row |
| SeriesBuilder.OutcomesAt | health-stats.py:44-62 | the outcome of row i depends on row i and the year alone |
| SeriesBuilder.OutcomeCases | health-stats.py:46-57 | a row is skipped exactly when its date or time is blank, rejected exactly when its composed timestamp does not parse, and otherwise accepted with the parsed timestamp |
| SeriesBuilder.SeriesOf | health-stats.py:57-64 | the six series always have the same length, which is at most the number of rows |
| SeriesBuilder.AcceptedRows | health-stats.py:44-62 | the indices of the accepted rows are in bounds, strictly increasing, and contain every accepted row and no other |
| SeriesBuilder.SeriesAreAcceptedReadings | health-stats.py:57-64 | entry k of every series comes from the k-th accepted row, so the series hold one entry per accepted row, in input order |
| SeriesBuilder.AppendRow | health-stats.py:44-62 | one more row adds its own outcome at the end and appends its own messages after the earlier ones |
| SeriesBuilder.BlankRowSkipped | health-stats.py:46-48 | a row with a blank date or time changes no series and adds no message |
| SeriesBuilder.BadTimestampReported | health-stats.py:49-55 | a row whose timestamp does not parse changes no series, even when its metrics are valid, and adds exactly one message naming its date, time and index |
| SeriesBuilder.GoodRowAppended | health-stats.py:57-62 | an accepted row appends its timestamp and each of its five field values to its own series; a field that does not convert is absent at that index alone; the row adds the five fields' messages in field order |
| SeriesBuilder.LoggedRowAccepted | health-stats.py:49-62 | a row whose date and time are written as "M/D" and "H:MM" is accepted under its own year with its own timestamp |
| SeriesBuilder.NoFourDigitYearNoData | health-stats.py:49-55 | under a year outside 1000-9999 every series is empty |
| SeriesBuilder.DiagnosticsInRowOrder | health-stats.py:44-62 | every message names a row that exists, and messages come out in non-decreasing row order |
| SeriesBuilder.RowDiagnosticsNameRow | health-stats.py:44-62 | every message printed for row i names row i |
| Aggregate.MeanData | health-stats.py:77-83 | with no present value the mean is 0.0; otherwise the mean times the number of present values is their sum |
| Aggregate.PresentMembers | health-stats.py:79 | a value is kept by the filter exactly when it occurs present in the input |
| Aggregate.PresentConcat | health-stats.py:79 | filtering a concatenation filters each part |
| Aggregate.MeanIgnoresAbsent | health-stats.py:77-83 | an absent value at any position leaves the mean unchanged |
| Aggregate.MeanOfAbsent | health-stats.py:80-81 | a list of absent values only, the empty list included, has no present value and mean 0.0 |
| Aggregate.SumBounds | health-stats.py:83 | values between lo and hi sum to between lo and hi times their count |
| Aggregate.AverageWithin | health-stats.py:83 | the average of a non-empty list of values between lo and hi lies between lo and hi |
| Aggregate.MeanWithinRange | health-stats.py:77-83 | when some value is present and all present values lie between lo and hi, so does the mean |
| Aggregate.MeanExample | health-stats.py:77-83 | the mean of 10.0, an absent value and 20.0 is 15.0 |
| Aggregate.CountsSumToPairs | health-stats.py:92-101 | the 24 counts add up to the number of zipped pairs |
| Aggregate.BucketMembers | health-stats.py:99-101 | a value is in the bucket of hour h exactly when some pair of hour h carries it |
| Aggregate.BucketStep | health-stats.py:99-101 | one more pair extends the bucket of its own hour by its value and leaves the other 23 buckets unchanged |
| Aggregate.BinSugars | health-stats.py:92-105 | 24 counts, buckets and means; bucket h holds the sugars of the pairs of hour h in order; count h is its size; mean h is its mean; the counts add up to the number of pairs |
| Report.DataRows | health-stats.py:125-132 | an empty file stops with an index error; a first row other than the expected header stops the run with that row; otherwise the data rows are the rows strictly between the first and the last, none at all for a file of one or two rows |
| Report.FramedBody | health-stats.py:130-132 | header, body and one trailing row give exactly the body |
| Report.HeaderOnly | health-stats.py:132 | the header alone, or the header and one more row, give no data rows |
| Report.WrongHeaderRefused | health-stats.py:125-128 | any first row other than the expected header stops the run, whatever follows |
| Report.FirstBadRow | health-stats.py:44-45 | there is no bad row exactly when every data row has eight fields; otherwise the one found lacks eight fields and every row before it has them |
| Report.FirstBadRowIsFirst | health-stats.py:44-45 | a row without eight fields, with only eight-field rows before it, is the row the loop stops at |
| Report.SevenFieldRowsStop | health-stats.py:44-45 | a full eight-field row followed by two seven-field rows stops at index 1 |
| Report.PlotData | health-stats.py:120-141 | empty file, wrong header and short row stop the run with the matching error, and no other input does; otherwise the summary holds the series and messages of the data rows, the five title means, and the hourly bins, counts and means of the zipped sugars |
| Report.ExampleStamps | health-stats.py:31-35 | "9/28" with "11:30", and with "12:00", under the year 2020, parse to 2020-09-28 11:30 and 2020-09-28 12:00 |
| Report.ExampleMetrics | health-stats.py:31-35 | the fields "121", "108", "67" and "70" of the docstring row convert to 121.0, 108.0, 67.0 and 70.0 |
| Report.ExampleMean | health-stats.py:77-83 | the sugar mean of a reading of 121.0 and an absent reading is 121.0 |

## Left out

- Plotting: `basicPlot`, the bar charts of `binSugars`, `savefig` and `show` (health-stats.py:66-75, 107-118) draw through matplotlib and are not modelled. The numbers they are drawn from are (`Report.PlotData`, `Aggregate.BinSugars`).
- File reading: `getRawData` (health-stats.py:11-18) goes through `open` and the `csv` module. The model takes the list of rows as its input.
- The command line: `main` (health-stats.py:143-157) is argument parsing. The year is a parameter of the model.
- Console output: every `print` is a returned `Diagnostic` in the same order. The `print("header: ", hdr)` echo and the exact message wording are not modelled.
- Numbers.ParseNumber: only part of Python's `float` grammar is modelled. Surrounding whitespace, exponents, `inf`, `nan`, underscores between digits and non-ASCII digits are rejected here, although Python accepts them.
- Timestamps.ParseTimestamp: only part of `strptime` is modelled.
  - The space in the format is read as exactly one space, not as any run of whitespace.
  - The space-padded day form (" 5") is not accepted.
  - Non-ASCII digits are not accepted.
- Aggregate.MeanData: reals stand for IEEE doubles, so rounding in `sum` and in the division is not modelled.
- Aggregate.BinSugars: `binSugars` leaves its arrays in place. The method returns copies of them as sequences. Indexing by `dt.hour` cannot go out of range, because a timestamp's hour is 0-23 by its type.
- Report.PlotData: when a data row lacks eight fields, the run stops at that row. The messages printed for the rows before it are not part of the `RowShape` result.
- Report.PlotData: the header check is an `assert`, which `python -O` would skip. The model always performs the check.
- A lemma for a whole three-row log (a full reading, a reading with only a date and a time, and a blank row) is not included. Its parts are included: `Report.ExampleStamps`, `Report.ExampleMetrics`, `Report.ExampleMean`, `SeriesBuilder.GoodRowAppended` and `SeriesBuilder.BlankRowSkipped`.
- Idempotence of building the series twice on the same rows is not stated as a lemma. The series and messages are functions of the rows and the year, so it holds by construction.
