/**
 * The data path of `plotData` in health-stats.py: the header check on the first
 * row, the slice `rawData[1:-1]` that drops the header and the trailing
 * statistics row, the series built from the rows in between, and the numbers
 * the plots are drawn from (the mean shown in each plot title and the hourly
 * bins of the sugar readings). The plots themselves are not part of this model.
 */
module Report {
  import opened Wrappers
  import opened Numbers
  import opened Timestamps
  import opened SeriesBuilder
  import opened Aggregate

  /** The only header row `plotData` accepts. */
  const ExpectedHeader: Row := ["Date", "Time", "Sugar", "Upper", "Lower", "BPM", "Weight", "Notes"]

  /** The ways `plotData` stops with an exception before any plot is drawn. */
  datatype Fatal =
    | MissingHeader            // `rawData[0]` on an empty file raises IndexError
    | HeaderMismatch(found: Row) // `assert hdr == expHdr` fails
    | RowShape(row: nat)       // unpacking a data row that does not have eight fields raises ValueError

  /**
   * The header check followed by `rawData[1:-1]`: the rows strictly between
   * the first and the last, provided the first row is the expected header.
   */
  function DataRows(rawData: seq<Row>): (r: Result<seq<Row>, Fatal>)
    ensures rawData == [] <==> r == Failure(MissingHeader)
    ensures rawData != [] ==> (rawData[0] != ExpectedHeader <==> r == Failure(HeaderMismatch(rawData[0])))
    ensures r.Success? <==> rawData != [] && rawData[0] == ExpectedHeader
    ensures r.Success? ==> |r.value| == (if |rawData| >= 2 then |rawData| - 2 else 0)
    ensures r.Success? ==> forall k :: 0 <= k < |r.value| ==> r.value[k] == rawData[k + 1]
  {
    if rawData == [] then Failure(MissingHeader)
    else if rawData[0] != ExpectedHeader then Failure(HeaderMismatch(rawData[0]))
    else if |rawData| < 2 then Success([])
    else Success(rawData[1..|rawData| - 1])
  }

  /** A file laid out as header, body and one trailing row yields exactly the body. */
  lemma FramedBody(body: seq<Row>, footer: Row)
    ensures DataRows([ExpectedHeader] + body + [footer]) == Success(body)
  {
    var raw := [ExpectedHeader] + body + [footer];
    assert raw[0] == ExpectedHeader;
    assert raw[1..|raw| - 1] == body;
  }

  /** A file holding the header alone, or the header and one row, has no data rows. */
  lemma HeaderOnly(footer: Row)
    ensures DataRows([ExpectedHeader]) == Success([])
    ensures DataRows([ExpectedHeader, footer]) == Success([])
  {
  }

  /** The first data row that does not have eight fields, where the unpacking in the loop fails. */
  function FirstBadRow(rows: seq<Row>): (r: Option<nat>)
    ensures r.None? <==> WellFormed(rows)
    ensures r.Some? ==> r.value < |rows| && |rows[r.value]| != 8 && WellFormed(rows[..r.value])
    decreases |rows|
  {
    if rows == [] then None
    else if |rows[0]| != 8 then Some(0)
    else
      match FirstBadRow(rows[1..])
      case None =>
        assert forall i :: 1 <= i < |rows| ==> rows[i] == rows[1..][i - 1];
        None
      case Some(k) =>
        assert forall i :: 1 <= i < k + 1 ==> rows[i] == rows[1..][i - 1];
        Some(k + 1)
  }

  /** A bad row with only well-formed rows before it is the one the loop stops at. */
  lemma FirstBadRowIsFirst(rows: seq<Row>, k: nat)
    requires k < |rows| && |rows[k]| != 8 && WellFormed(rows[..k])
    ensures FirstBadRow(rows) == Some(k)
  {
    assert !WellFormed(rows);
  }

  /**
   * Rows written with seven fields, one short of the header's eight, stop the
   * loop with an unpacking error at the first of them.
   */
  lemma SevenFieldRowsStop(rows: seq<Row>)
    requires rows == [
      ["9/28", "11:30", "121", "108", "67", "70", "", ""],
      ["9/28", "12:00", "", "", "", "", ""],
      ["", "", "", "", "", "", ""]]
    ensures FirstBadRow(rows) == Some(1)
  {
    assert WellFormed(rows[..1]);
    FirstBadRowIsFirst(rows, 1);
  }

  /** Everything `plotData` computes for its plots. */
  datatype Summary = Summary(
    series: SeriesSet,                 // the six lists `getTimeStampedData` returns
    diags: seq<Diagnostic>,            // the conversion messages it prints
    counts: seq<nat>,                  // `num` of `binSugars`
    buckets: seq<seq<Option<real>>>,   // `data` of `binSugars`
    hourMeans: seq<real>,              // `meanSugars` of `binSugars`
    titleMeans: seq<real>)             // the means in the five `basicPlot` titles

  /** The means in the titles of the five plots, in the order they are drawn. */
  function TitleMeans(s: SeriesSet): (ms: seq<real>)
    ensures |ms| == 5
    ensures ms[0] == MeanData(s.sugars) && ms[1] == MeanData(s.uppers) && ms[2] == MeanData(s.lowers)
    ensures ms[3] == MeanData(s.bpms) && ms[4] == MeanData(s.weights)
  {
    [MeanData(s.sugars), MeanData(s.uppers), MeanData(s.lowers), MeanData(s.bpms), MeanData(s.weights)]
  }

  /**
   * `plotData(fn, year)` on the rows `getRawData(fn)` returned: either the
   * exception it stops with, or the numbers its plots show.
   */
  method PlotData(rawData: seq<Row>, year: int) returns (r: Result<Summary, Fatal>)
    ensures DataRows(rawData).Failure? ==> r == Failure(DataRows(rawData).error)
    ensures DataRows(rawData).Success? && FirstBadRow(DataRows(rawData).value).Some? ==>
      r == Failure(RowShape(FirstBadRow(DataRows(rawData).value).value))
    ensures r.Success? <==> DataRows(rawData).Success? && WellFormed(DataRows(rawData).value)
    ensures r.Success? ==>
      var rows := DataRows(rawData).value;
      WellFormed(rows) &&
      r.value.series == SeriesOf(Outcomes(rows, year)) &&
      r.value.diags == BuildDiagnostics(rows, year) &&
      r.value.titleMeans == TitleMeans(r.value.series)
    ensures r.Success? ==>
      var s := r.value;
      var pairs := Zip(s.series.dts, s.series.sugars);
      |s.counts| == 24 && |s.buckets| == 24 && |s.hourMeans| == 24 &&
      Total(s.counts) == |pairs| &&
      forall h :: 0 <= h < 24 ==>
        s.buckets[h] == HourBucket(pairs, h) && s.counts[h] == |s.buckets[h]| &&
        s.hourMeans[h] == MeanData(s.buckets[h])
  {
    var rows := DataRows(rawData);
    if rows.Failure? {
      return Failure(rows.error);
    }
    var bad := FirstBadRow(rows.value);
    if bad.Some? {
      return Failure(RowShape(bad.value));
    }
    var dts, sugars, uppers, lowers, bpms, weights, diags := GetTimeStampedData(rows.value, year);
    var series := SeriesSet(dts, sugars, uppers, lowers, bpms, weights);
    var num, data, meanSugars := BinSugars(dts, sugars);
    return Success(Summary(series, diags, num, data, meanSugars, TitleMeans(series)));
  }

  /** A field holding a whole number written in decimal reads as that number. */
  lemma WholeField(n: nat, s: string)
    requires s == NatToString(n)
    ensures FieldValue(s) == Some(n as real)
  {
    ParseNatString(n);
  }

  /**
   * The dates and times of the example rows in the `getTimeStampedData` docstring:
   * "9/28" at "11:30" and at "12:00", read under the year 2020.
   *
   * The texts are parameters pinned by `requires` rather than literals in the
   * `ensures`: given literal arguments, Dafny unfolds the recursive parsers all
   * the way down, which is far more work for the solver than the proof below.
   */
  lemma ExampleStamps(date: string, first: string, second: string, year: int)
    requires date == "9/28" && first == "11:30" && second == "12:00" && year == 2020
    ensures ParseTimestamp(Compose(year, date, first)) == Some(DateTime(2020, 9, 28, 11, 30))
    ensures ParseTimestamp(Compose(year, date, second)) == Some(DateTime(2020, 9, 28, 12, 0))
  {
    var t1: Timestamp := DateTime(2020, 9, 28, 11, 30);
    var t2: Timestamp := DateTime(2020, 9, 28, 12, 0);
    assert date == DateText(t1) == DateText(t2);
    assert first == TimeText(t1);
    assert second == TimeText(t2);
    ParseComposed(t1);
    ParseComposed(t2);
  }

  /**
   * The four whole-number metrics of the docstring's example row, "121", "108",
   * "67" and "70". The texts are pinned parameters for the same reason as in
   * `ExampleStamps`.
   */
  lemma ExampleMetrics(sugar: string, upper: string, lower: string, bpm: string)
    requires sugar == "121" && upper == "108" && lower == "67" && bpm == "70"
    ensures FieldValue(sugar) == Some(121.0) && FieldValue(upper) == Some(108.0)
    ensures FieldValue(lower) == Some(67.0) && FieldValue(bpm) == Some(70.0)
  {
    assert sugar == NatToString(121);
    assert upper == NatToString(108);
    assert lower == NatToString(67);
    assert bpm == NatToString(70);
    WholeField(121, sugar);
    WholeField(108, upper);
    WholeField(67, lower);
    WholeField(70, bpm);
  }

  /** The sugar mean of the two example readings: 121.0 and one absent value. */
  lemma ExampleMean()
    ensures MeanData([Some(121.0), None]) == 121.0
  {
    MeanIgnoresAbsent([Some(121.0)], []);
    assert [Some(121.0)] + [None] + [] == [Some(121.0), None];
    assert [Some(121.0)] + [] == [Some(121.0)];
    assert Present([Some(121.0)]) == [121.0] by { assert [Some(121.0)][..0] == []; }
    assert Sum([121.0]) == 121.0 by { assert [121.0][..0] == []; }
  }

  /** A log whose first row is not the expected header is refused whatever follows it. */
  lemma WrongHeaderRefused(header: Row, body: seq<Row>)
    requires header != ExpectedHeader
    ensures DataRows([header] + body) == Failure(HeaderMismatch(header))
  {
  }
}
