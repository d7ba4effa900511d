/**
 * Turning the raw CSV rows of the health log into index-aligned series:
 * `str2float` and `getTimeStampedData` of health-stats.py. Diagnostics that
 * the script prints are collected here as values instead.
 */
module SeriesBuilder {
  import opened Wrappers
  import opened Numbers
  import opened Timestamps

  /** One CSV row: date, time, sugar, upper, lower, bpm, weight, notes. */
  type Row = seq<string>

  const DateField := 0
  const TimeField := 1
  const SugarField := 2
  const UpperField := 3
  const LowerField := 4
  const BpmField := 5
  const WeightField := 6

  /** Every row unpacks into the eight names of health-stats.py:45. */
  predicate WellFormed(rows: seq<Row>) { forall i :: 0 <= i < |rows| ==> |rows[i]| == 8 }

  /** A message the script prints while it converts the data. */
  datatype Diagnostic =
    | FieldError(name: string, value: string, row: nat)
    | TimestampError(date: string, time: string, row: nat)

  /** The value `str2float` returns for a field. */
  function FieldValue(value: string): Option<real>
  {
    if value == "" then None else ParseNumber(value)
  }

  /** The message `str2float` prints for a field, if any. */
  function FieldDiagnostics(value: string, name: string, row: nat): seq<Diagnostic>
  {
    if value != "" && FieldValue(value).None? then [FieldError(name, value, row)] else []
  }

  /**
   * `str2float(value, name, row)`: an empty field is absent without a message; a
   * field that does not parse is absent with one message naming the field, its
   * text and the row; any other field is its number.
   */
  method Str2Float(value: string, name: string, row: nat) returns (floatValue: Option<real>, diags: seq<Diagnostic>)
    ensures floatValue == FieldValue(value) && diags == FieldDiagnostics(value, name, row)
    ensures value == "" ==> floatValue == None && diags == []
    ensures value != "" && ParseNumber(value).None? ==> floatValue == None && diags == [FieldError(name, value, row)]
    ensures ParseNumber(value).Some? ==> floatValue == ParseNumber(value) && diags == []
  {
    floatValue, diags := None, [];
    if value != "" {
      var parsed := ParseNumber(value);
      if parsed.Some? {
        floatValue := parsed;
      } else {
        diags := [FieldError(name, value, row)];
      }
    }
  }

  /** One observation: a timestamp and five metrics that may each be absent. */
  datatype Reading = Reading(dt: Timestamp, sugar: Option<real>, upper: Option<real>,
                             lower: Option<real>, bpm: Option<real>, weight: Option<real>)

  /** What the loop body of `getTimeStampedData` does with one row. */
  datatype RowOutcome =
    | Incomplete          // blank date or time: skipped without a message
    | Unparsable          // the timestamp does not parse: skipped with a message
    | Accepted(reading: Reading)

  function ParseRow(row: Row, year: int): RowOutcome
    requires |row| == 8
  {
    if row[DateField] == "" || row[TimeField] == "" then Incomplete
    else
      match ParseTimestamp(Compose(year, row[DateField], row[TimeField]))
      case None => Unparsable
      case Some(dt) =>
        Accepted(Reading(dt, FieldValue(row[SugarField]), FieldValue(row[UpperField]),
                         FieldValue(row[LowerField]), FieldValue(row[BpmField]), FieldValue(row[WeightField])))
  }

  /** The messages printed while the row at index i is handled, given what the loop did with it. */
  function RowDiagnostics(row: Row, o: RowOutcome, i: nat): seq<Diagnostic>
    requires |row| == 8
  {
    match o
    case Incomplete => []
    case Unparsable => [TimestampError(row[DateField], row[TimeField], i)]
    case Accepted(_) =>
      FieldDiagnostics(row[SugarField], "sugar", i) + FieldDiagnostics(row[UpperField], "upper", i)
      + FieldDiagnostics(row[LowerField], "lower", i) + FieldDiagnostics(row[BpmField], "bpm", i)
      + FieldDiagnostics(row[WeightField], "weight", i)
  }

  /** The six lists `getTimeStampedData` returns. */
  datatype SeriesSet = SeriesSet(dts: seq<Timestamp>, sugars: seq<Option<real>>, uppers: seq<Option<real>>,
                                 lowers: seq<Option<real>>, bpms: seq<Option<real>>, weights: seq<Option<real>>)
  {
    /** All six lists have the same length, so index k refers to one row throughout. */
    predicate Aligned()
    {
      |sugars| == |dts| && |uppers| == |dts| && |lowers| == |dts| && |bpms| == |dts| && |weights| == |dts|
    }

    /** The reading at index k, gathered across the six lists. */
    function At(k: nat): Reading
      requires Aligned() && k < |dts|
    {
      Reading(dts[k], sugars[k], uppers[k], lowers[k], bpms[k], weights[k])
    }

    /** Appends one reading to each of the six lists. */
    function Add(r: Reading): SeriesSet
    {
      SeriesSet(dts + [r.dt], sugars + [r.sugar], uppers + [r.upper], lowers + [r.lower],
                bpms + [r.bpm], weights + [r.weight])
    }
  }

  const EmptySeries := SeriesSet([], [], [], [], [], [])

  /** What the loop does with each row, in order. */
  function Outcomes(rows: seq<Row>, year: int): (os: seq<RowOutcome>)
    requires WellFormed(rows)
    ensures |os| == |rows|
    decreases |rows|
  {
    if rows == [] then [] else Outcomes(rows[..|rows| - 1], year) + [ParseRow(rows[|rows| - 1], year)]
  }

  /** Each row's outcome depends on that row alone. */
  lemma {:induction false} OutcomesAt(rows: seq<Row>, year: int, i: nat)
    requires WellFormed(rows) && i < |rows|
    ensures Outcomes(rows, year)[i] == ParseRow(rows[i], year)
    decreases |rows|
  {
    var n := |rows| - 1;
    if i < n {
      assert rows[..n][i] == rows[i];
      OutcomesAt(rows[..n], year, i);
    }
  }

  /** The lists built from a sequence of row outcomes: one entry per accepted row. */
  function SeriesOf(os: seq<RowOutcome>): (s: SeriesSet)
    ensures s.Aligned() && |s.dts| <= |os|
    decreases |os|
  {
    if os == [] then EmptySeries
    else
      var prev := SeriesOf(os[..|os| - 1]);
      match os[|os| - 1]
      case Accepted(r) => prev.Add(r)
      case _ => prev
  }

  /** The messages printed for the rows `rows`, handled as `os` says, in order. */
  function DiagnosticsOf(rows: seq<Row>, os: seq<RowOutcome>): seq<Diagnostic>
    requires WellFormed(rows) && |os| == |rows|
    decreases |rows|
  {
    if rows == [] then []
    else
      var n := |rows| - 1;
      DiagnosticsOf(rows[..n], os[..n]) + RowDiagnostics(rows[n], os[n], n)
  }

  /** The messages printed while `rows` is read. */
  function BuildDiagnostics(rows: seq<Row>, year: int): seq<Diagnostic>
    requires WellFormed(rows)
  {
    DiagnosticsOf(rows, Outcomes(rows, year))
  }

  /** The positions of the accepted outcomes, in increasing order. */
  function AcceptedRows(os: seq<RowOutcome>): (idx: seq<nat>)
    ensures forall k :: 0 <= k < |idx| ==> idx[k] < |os|
    ensures forall k, l :: 0 <= k < l < |idx| ==> idx[k] < idx[l]
    ensures forall i :: 0 <= i < |os| ==> (i in idx <==> os[i].Accepted?)
    decreases |os|
  {
    if os == [] then []
    else
      var n := |os| - 1;
      var prev := AcceptedRows(os[..n]);
      assert forall i :: 0 <= i < n ==> os[..n][i] == os[i];
      if os[n].Accepted? then prev + [n] else prev
  }

  /**
   * Entry k of every list comes from the k-th accepted row: the lists hold
   * exactly the accepted readings, in row order, and stay index-aligned.
   */
  lemma {:induction false} SeriesAreAcceptedReadings(os: seq<RowOutcome>)
    ensures |SeriesOf(os).dts| == |AcceptedRows(os)|
    ensures forall k :: 0 <= k < |AcceptedRows(os)| ==>
      os[AcceptedRows(os)[k]].Accepted? && SeriesOf(os).At(k) == os[AcceptedRows(os)[k]].reading
    decreases |os|
  {
    if os != [] {
      var n := |os| - 1;
      var pre := os[..n];
      SeriesAreAcceptedReadings(pre);
      var prev, idx := SeriesOf(pre), AcceptedRows(pre);
      forall k | 0 <= k < |AcceptedRows(os)|
        ensures os[AcceptedRows(os)[k]].Accepted? && SeriesOf(os).At(k) == os[AcceptedRows(os)[k]].reading
      {
        if k < |idx| {
          assert AcceptedRows(os)[k] == idx[k] && pre[idx[k]] == os[idx[k]];
          assert SeriesOf(os).At(k) == prev.At(k);
        }
      }
    }
  }

  /** Reading one more row extends the outcomes and the messages by that row's. */
  lemma AppendRow(rows: seq<Row>, row: Row, year: int)
    requires WellFormed(rows) && |row| == 8
    ensures WellFormed(rows + [row])
    ensures Outcomes(rows + [row], year) == Outcomes(rows, year) + [ParseRow(row, year)]
    ensures BuildDiagnostics(rows + [row], year)
      == BuildDiagnostics(rows, year) + RowDiagnostics(row, ParseRow(row, year), |rows|)
  {
    var rows' := rows + [row];
    assert rows'[..|rows|] == rows && rows'[|rows|] == row;
    var os' := Outcomes(rows', year);
    assert os'[..|rows|] == Outcomes(rows, year);
  }

  /** A row with a blank date or time adds nothing and prints nothing. */
  lemma BlankRowSkipped(rows: seq<Row>, row: Row, year: int)
    requires WellFormed(rows) && |row| == 8
    requires row[DateField] == "" || row[TimeField] == ""
    ensures WellFormed(rows + [row])
    ensures SeriesOf(Outcomes(rows + [row], year)) == SeriesOf(Outcomes(rows, year))
    ensures BuildDiagnostics(rows + [row], year) == BuildDiagnostics(rows, year)
  {
    AppendRow(rows, row, year);
    var os := Outcomes(rows, year) + [Incomplete];
    assert os[..|os| - 1] == Outcomes(rows, year);
    assert BuildDiagnostics(rows, year) + [] == BuildDiagnostics(rows, year);
  }

  /** A row whose timestamp does not parse adds nothing and prints one message naming it. */
  lemma BadTimestampReported(rows: seq<Row>, row: Row, year: int)
    requires WellFormed(rows) && |row| == 8
    requires row[DateField] != "" && row[TimeField] != ""
    requires ParseTimestamp(Compose(year, row[DateField], row[TimeField])).None?
    ensures WellFormed(rows + [row])
    ensures SeriesOf(Outcomes(rows + [row], year)) == SeriesOf(Outcomes(rows, year))
    ensures BuildDiagnostics(rows + [row], year)
      == BuildDiagnostics(rows, year) + [TimestampError(row[DateField], row[TimeField], |rows|)]
  {
    AppendRow(rows, row, year);
    var os := Outcomes(rows, year) + [Unparsable];
    assert os[..|os| - 1] == Outcomes(rows, year);
  }

  /**
   * A row whose timestamp parses appends one entry to every list, the
   * timestamp and the value of each of the five metric fields, and prints
   * the messages of the fields that do not convert.
   */
  lemma GoodRowAppended(rows: seq<Row>, row: Row, year: int, t: Timestamp)
    requires WellFormed(rows) && |row| == 8
    requires row[DateField] != "" && row[TimeField] != ""
    requires ParseTimestamp(Compose(year, row[DateField], row[TimeField])) == Some(t)
    ensures WellFormed(rows + [row])
    ensures SeriesOf(Outcomes(rows + [row], year)) == SeriesOf(Outcomes(rows, year)).Add(
      Reading(t, FieldValue(row[SugarField]), FieldValue(row[UpperField]), FieldValue(row[LowerField]),
              FieldValue(row[BpmField]), FieldValue(row[WeightField])))
    ensures BuildDiagnostics(rows + [row], year) == BuildDiagnostics(rows, year)
      + (FieldDiagnostics(row[SugarField], "sugar", |rows|) + FieldDiagnostics(row[UpperField], "upper", |rows|)
         + FieldDiagnostics(row[LowerField], "lower", |rows|) + FieldDiagnostics(row[BpmField], "bpm", |rows|)
         + FieldDiagnostics(row[WeightField], "weight", |rows|))
  {
    AppendRow(rows, row, year);
    var os := Outcomes(rows, year) + [ParseRow(row, year)];
    assert os[..|os| - 1] == Outcomes(rows, year);
  }

  /**
   * A row whose date and time are written the way the log writes them, "M/D"
   * and "H:MM", is accepted under its own year with its own timestamp.
   */
  lemma LoggedRowAccepted(t: Timestamp, metrics: seq<string>)
    requires t.year >= 1000 && |metrics| == 6
    ensures var row := [DateText(t), TimeText(t)] + metrics;
      ParseRow(row, t.year) == Accepted(Reading(t, FieldValue(metrics[0]), FieldValue(metrics[1]),
        FieldValue(metrics[2]), FieldValue(metrics[3]), FieldValue(metrics[4])))
  {
    ParseComposed(t);
  }

  /** A year strptime cannot read as four digits makes every row fail, so the lists stay empty. */
  lemma {:induction false} NoFourDigitYearNoData(rows: seq<Row>, year: int)
    requires WellFormed(rows)
    requires year < 1000 || year > 9999
    ensures SeriesOf(Outcomes(rows, year)) == EmptySeries
    decreases |rows|
  {
    if rows != [] {
      var n := |rows| - 1;
      NoFourDigitYearNoData(rows[..n], year);
      YearOutOfFormatRejected(year, rows[n][DateField], rows[n][TimeField]);
      assert Outcomes(rows, year)[..n] == Outcomes(rows[..n], year);
    }
  }

  /** Every message names a row that exists, and the messages come in row order. */
  lemma {:induction false} DiagnosticsInRowOrder(rows: seq<Row>, os: seq<RowOutcome>)
    requires WellFormed(rows) && |os| == |rows|
    ensures forall k :: 0 <= k < |DiagnosticsOf(rows, os)| ==> DiagnosticsOf(rows, os)[k].row < |rows|
    ensures forall k, l :: 0 <= k < l < |DiagnosticsOf(rows, os)| ==>
      DiagnosticsOf(rows, os)[k].row <= DiagnosticsOf(rows, os)[l].row
    decreases |rows|
  {
    if rows != [] {
      var n := |rows| - 1;
      DiagnosticsInRowOrder(rows[..n], os[..n]);
      RowDiagnosticsNameRow(rows[n], os[n], n);
    }
  }

  /** The message of a field, if any, is about that field's value in that row. */
  lemma FieldDiagnosticsNameField(value: string, name: string, row: nat)
    ensures forall d :: d in FieldDiagnostics(value, name, row) ==> d == FieldError(name, value, row)
  {
  }

  /** The messages of one row all carry that row's index. */
  lemma RowDiagnosticsNameRow(row: Row, o: RowOutcome, i: nat)
    requires |row| == 8
    ensures forall d :: d in RowDiagnostics(row, o, i) ==> d.row == i
  {
    if o.Accepted? {
      var d1, d2, d3 := FieldDiagnostics(row[SugarField], "sugar", i), FieldDiagnostics(row[UpperField], "upper", i),
        FieldDiagnostics(row[LowerField], "lower", i);
      var d4, d5 := FieldDiagnostics(row[BpmField], "bpm", i), FieldDiagnostics(row[WeightField], "weight", i);
      FieldDiagnosticsNameField(row[SugarField], "sugar", i);
      FieldDiagnosticsNameField(row[UpperField], "upper", i);
      FieldDiagnosticsNameField(row[LowerField], "lower", i);
      FieldDiagnosticsNameField(row[BpmField], "bpm", i);
      FieldDiagnosticsNameField(row[WeightField], "weight", i);
      assert RowDiagnostics(row, o, i) == d1 + d2 + d3 + d4 + d5;
    }
  }

  /** What the loop does with row i, case by case. */
  lemma OutcomeCases(rows: seq<Row>, year: int, i: nat)
    requires WellFormed(rows) && i < |rows|
    ensures var row := rows[i]; var o := Outcomes(rows, year)[i];
      var parsed := ParseTimestamp(Compose(year, row[DateField], row[TimeField]));
      && (row[DateField] == "" || row[TimeField] == "" ==> o == Incomplete)
      && (row[DateField] != "" && row[TimeField] != "" && parsed.None? ==> o == Unparsable)
      && (row[DateField] != "" && row[TimeField] != "" && parsed.Some? ==>
            o == Accepted(Reading(parsed.value, FieldValue(row[SugarField]), FieldValue(row[UpperField]),
                                  FieldValue(row[LowerField]), FieldValue(row[BpmField]), FieldValue(row[WeightField]))))
  {
    OutcomesAt(rows, year, i);
  }

  /** Handling row i extends the lists and the messages of the rows before it by that row's. */
  lemma PrefixStep(rows: seq<Row>, os: seq<RowOutcome>, i: nat)
    requires WellFormed(rows) && |os| == |rows| && i < |rows|
    ensures SeriesOf(os[..i + 1]) == match os[i] case Accepted(r) => SeriesOf(os[..i]).Add(r) case _ => SeriesOf(os[..i])
    ensures DiagnosticsOf(rows[..i + 1], os[..i + 1])
      == DiagnosticsOf(rows[..i], os[..i]) + RowDiagnostics(rows[i], os[i], i)
  {
    assert os[..i + 1][..i] == os[..i] && os[..i + 1][i] == os[i];
    assert rows[..i + 1][..i] == rows[..i] && rows[..i + 1][i] == rows[i];
  }

  /**
   * `getTimeStampedData(rawData, year)`: walks the rows in order and appends
   * one entry to each of the six lists for every row it accepts.
   */
  method GetTimeStampedData(rawData: seq<Row>, year: int)
    returns (dts: seq<Timestamp>, sugars: seq<Option<real>>, uppers: seq<Option<real>>,
             lowers: seq<Option<real>>, bpms: seq<Option<real>>, weights: seq<Option<real>>,
             diags: seq<Diagnostic>)
    requires WellFormed(rawData)
    ensures SeriesSet(dts, sugars, uppers, lowers, bpms, weights) == SeriesOf(Outcomes(rawData, year))
    ensures diags == BuildDiagnostics(rawData, year)
  {
    ghost var os := Outcomes(rawData, year);
    dts, sugars, uppers, lowers, bpms, weights, diags := [], [], [], [], [], [], [];
    for i := 0 to |rawData|
      invariant SeriesSet(dts, sugars, uppers, lowers, bpms, weights) == SeriesOf(os[..i])
      invariant diags == DiagnosticsOf(rawData[..i], os[..i])
    {
      OutcomeCases(rawData, year, i);
      PrefixStep(rawData, os, i);
      var raw := rawData[i];
      var dateStr, timeStr := raw[DateField], raw[TimeField];
      if dateStr == "" || timeStr == "" {
        assert diags + [] == diags;
        continue;
      }
      var parsed := ParseTimestamp(Compose(year, dateStr, timeStr));
      if parsed.None? {
        diags := diags + [TimestampError(dateStr, timeStr, i)];
        continue;
      }
      var sugar, d1 := Str2Float(raw[SugarField], "sugar", i);
      var upper, d2 := Str2Float(raw[UpperField], "upper", i);
      var lower, d3 := Str2Float(raw[LowerField], "lower", i);
      var bpm, d4 := Str2Float(raw[BpmField], "bpm", i);
      var weight, d5 := Str2Float(raw[WeightField], "weight", i);
      dts := dts + [parsed.value];
      sugars := sugars + [sugar];
      uppers := uppers + [upper];
      lowers := lowers + [lower];
      bpms := bpms + [bpm];
      weights := weights + [weight];
      diags := diags + (d1 + d2 + d3 + d4 + d5);
    }
    assert rawData[..|rawData|] == rawData && os[..|rawData|] == os;
  }
}
