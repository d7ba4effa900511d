/**
 * Minute-precision timestamps and the restricted parser that stands in for
 * `datetime.strptime(dtStr, "%Y/%m/%d %H:%M")` in health-stats.py.
 */
module Timestamps {
  import opened Wrappers
  import opened Numbers

  /** The fields of a Python `datetime` that the script uses. */
  datatype DateTime = DateTime(year: int, month: int, day: int, hour: int, minute: int)

  predicate IsLeapYear(y: int) { y % 4 == 0 && (y % 100 != 0 || y % 400 == 0) }

  /** Days in a month of the proleptic Gregorian calendar, as `datetime` counts them. */
  function DaysInMonth(y: int, m: int): (d: int)
    requires 1 <= m <= 12
    ensures 28 <= d <= 31
  {
    if m == 2 then (if IsLeapYear(y) then 29 else 28)
    else if m == 4 || m == 6 || m == 9 || m == 11 then 30
    else 31
  }

  /** The ranges a `datetime` object enforces on its fields. */
  predicate ValidDateTime(t: DateTime)
  {
    1 <= t.year <= 9999 && 1 <= t.month <= 12 && 1 <= t.day <= DaysInMonth(t.year, t.month)
    && 0 <= t.hour < 24 && 0 <= t.minute < 60
  }

  type Timestamp = t: DateTime | ValidDateTime(t) witness DateTime(1970, 1, 1, 0, 0)

  /** The `datetime` with these fields, or None where the constructor raises. */
  function MakeTimestamp(year: int, month: int, day: int, hour: int, minute: int): (r: Option<Timestamp>)
    ensures r.Some? <==> ValidDateTime(DateTime(year, month, day, hour, minute))
    ensures r.Some? ==> r.value == DateTime(year, month, day, hour, minute)
  {
    var t := DateTime(year, month, day, hour, minute);
    if ValidDateTime(t) then Some(t) else None
  }

  /** The twelve months of a year add up to 365 days, or 366 in a leap year. */
  lemma YearLength(y: int)
    ensures DaysInMonth(y, 1) + DaysInMonth(y, 2) + DaysInMonth(y, 3) + DaysInMonth(y, 4)
      + DaysInMonth(y, 5) + DaysInMonth(y, 6) + DaysInMonth(y, 7) + DaysInMonth(y, 8)
      + DaysInMonth(y, 9) + DaysInMonth(y, 10) + DaysInMonth(y, 11) + DaysInMonth(y, 12)
      == if IsLeapYear(y) then 366 else 365
  {
  }

  /**
   * 29 February exists exactly in leap years: divisible by 4, and by 400 when
   * divisible by 100 (so 2000 has one and 1900 does not). No month has a 32nd day.
   */
  lemma LeapDay(y: int, hour: int, minute: int)
    requires 1 <= y <= 9999 && 0 <= hour < 24 && 0 <= minute < 60
    ensures MakeTimestamp(y, 2, 29, hour, minute).Some? <==> IsLeapYear(y)
    ensures MakeTimestamp(y, 2, 30, hour, minute) == None
    ensures forall m :: MakeTimestamp(y, m, 32, hour, minute) == None
    ensures MakeTimestamp(2000, 2, 29, hour, minute).Some? && MakeTimestamp(1900, 2, 29, hour, minute) == None
  {
  }

  /** The string the script hands to strptime: `"%s/%s %s" % (year, dateStr, timeStr)`. */
  function Compose(year: int, date: string, time: string): string
  {
    IntToString(year) + "/" + date + " " + time
  }

  /** One directive of a strptime format, as far as "%Y/%m/%d %H:%M" needs them. */
  datatype Directive =
    | Number(minWidth: nat, maxWidth: nat)  // a run of digits of the given width
    | Literal(c: char)                      // exactly this character

  /**
   * "%Y/%m/%d %H:%M": %Y is four digits; %m, %d, %H and %M are one or two digits
   * each. Every digit run is followed by a non-digit or by the end, so taking
   * the longest run of digits agrees with the backtracking regular expression
   * that strptime compiles from the format.
   */
  const TimestampFormat: seq<Directive> :=
    [Number(4, 4), Literal('/'), Number(1, 2), Literal('/'), Number(1, 2), Literal(' '),
     Number(1, 2), Literal(':'), Number(1, 2)]

  /** The number of values a format yields. */
  function Fields(fmt: seq<Directive>): nat
  {
    if fmt == [] then 0 else (if fmt[0].Number? then 1 else 0) + Fields(fmt[1..])
  }

  /** Matches all of `s` against `fmt`, giving the values of its numeric directives in order. */
  function MatchFormat(fmt: seq<Directive>, s: string): (r: Option<seq<int>>)
    ensures r.Some? ==> |r.value| == Fields(fmt)
    decreases |fmt|
  {
    if fmt == [] then (if s == [] then Some([]) else None)
    else
      match fmt[0]
      case Literal(c) =>
        if s != [] && s[0] == c then MatchFormat(fmt[1..], s[1..]) else None
      case Number(lo, hi) =>
        var split := SplitDigits(s);
        if lo <= |split.0| <= hi then
          match MatchFormat(fmt[1..], split.1)
          case None => None
          case Some(vs) => Some([DigitsValue(split.0)] + vs)
        else None
  }

  /** The datetime built from the values of "%Y/%m/%d %H:%M", once all five are read. */
  function Finish(vs: seq<int>): Option<Timestamp>
  {
    if |vs| == 5 then MakeTimestamp(vs[0], vs[1], vs[2], vs[3], vs[4]) else None
  }

  /**
   * strptime's walk over a format: each directive consumes its part of the text
   * and numeric directives add their value to `vs`; once format and text are
   * both used up, the collected values are turned into a datetime.
   */
  function Scan(fmt: seq<Directive>, s: string, vs: seq<int>): Option<Timestamp>
    decreases |fmt|, |s|
  {
    if fmt == [] then (if s == [] then Finish(vs) else None)
    else
      match fmt[0]
      case Literal(c) =>
        if s != [] && s[0] == c then Scan(fmt[1..], s[1..], vs) else None
      case Number(lo, hi) =>
        var split := SplitDigits(s);
        if lo <= |split.0| <= hi then Scan(fmt[1..], split.1, vs + [DigitsValue(split.0)]) else None
  }

  /**
   * `datetime.strptime(s, "%Y/%m/%d %H:%M")`: None where it raises, because the
   * text does not match the format or the values do not form a valid datetime.
   */
  function ParseTimestamp(s: string): Option<Timestamp>
  {
    Scan(TimestampFormat, s, [])
  }

  /** Walking the format yields the datetime of exactly the values that matching it yields. */
  lemma {:induction false} ScanMatches(fmt: seq<Directive>, s: string, vs: seq<int>)
    ensures Scan(fmt, s, vs) == match MatchFormat(fmt, s) case None => None case Some(ws) => Finish(vs + ws)
    decreases |fmt|
  {
    if fmt == [] {
      assert vs + [] == vs;
    } else {
      match fmt[0]
      case Literal(c) =>
        if s != [] && s[0] == c {
          assert Scan(fmt, s, vs) == Scan(fmt[1..], s[1..], vs);
          assert MatchFormat(fmt, s) == MatchFormat(fmt[1..], s[1..]);
          ScanMatches(fmt[1..], s[1..], vs);
        }
      case Number(lo, hi) =>
        var split := SplitDigits(s);
        if lo <= |split.0| <= hi {
          var v := DigitsValue(split.0);
          assert Scan(fmt, s, vs) == Scan(fmt[1..], split.1, vs + [v]);
          ScanMatches(fmt[1..], split.1, vs + [v]);
          match MatchFormat(fmt[1..], split.1)
          case None =>
            assert MatchFormat(fmt, s) == None;
          case Some(ws) =>
            assert MatchFormat(fmt, s) == Some([v] + ws);
            assert vs + [v] + ws == vs + ([v] + ws);
        }
    }
  }

  /** Two digits with a leading zero, as the minutes of a "H:MM" time are written. */
  function TwoDigits(n: nat): (s: string)
    requires n < 100
    ensures |s| == 2 && AllDigits(s) && DigitsValue(s) == n
  {
    var s := [Digit(n / 10), Digit(n % 10)];
    assert s[..1] == [Digit(n / 10)] && [Digit(n / 10)][..0] == [];
    assert DigitsValue(s[..1]) == n / 10;
    assert DigitsValue(s) == (n / 10) * 10 + n % 10;
    s
  }

  /** The "M/D" text of a date field in the health log. */
  function DateText(t: Timestamp): string
  {
    NatToString(t.month) + "/" + NatToString(t.day)
  }

  /** The "H:MM" text of a time field in the health log. */
  function TimeText(t: Timestamp): string
  {
    NatToString(t.hour) + ":" + TwoDigits(t.minute)
  }

  /** A number below 100 renders as one or two digits with its own value. */
  lemma ShortRendering(n: nat)
    requires n < 100
    ensures 1 <= |NatToString(n)| <= 2 && DigitsValue(NatToString(n)) == n
  {
    NatToStringLength(n, 2);
    assert Pow10(2) == 100;
    NatToStringValue(n);
  }

  /** `fmt` matches all of `s` and yields exactly `vs`. */
  predicate Matches(fmt: seq<Directive>, s: string, vs: seq<int>)
  {
    var r := MatchFormat(fmt, s); r.Some? && r.value == vs
  }

  /** A digit run of admissible width, followed by a non-digit, contributes its value. */
  lemma MatchNumberAt(fmt: seq<Directive>, ds: string, rest: string, v: int, vs: seq<int>)
    requires fmt != [] && fmt[0].Number? && fmt[0].minWidth <= |ds| <= fmt[0].maxWidth
    requires AllDigits(ds) && DigitsValue(ds) == v && (rest == [] || !IsDigit(rest[0]))
    requires Matches(fmt[1..], rest, vs)
    ensures Matches(fmt, ds + rest, [v] + vs)
  {
    SplitDigitsAt(ds, rest);
  }

  /** A literal character of the format consumes that character. */
  lemma MatchLiteralAt(fmt: seq<Directive>, rest: string, vs: seq<int>)
    requires fmt != [] && fmt[0].Literal?
    requires Matches(fmt[1..], rest, vs)
    ensures Matches(fmt, [fmt[0].c] + rest, vs)
  {
    assert ([fmt[0].c] + rest)[1..] == rest;
  }

  /** A digit run followed by a literal separator contributes the run's value. */
  lemma MatchGroupThen(fmt: seq<Directive>, ds: string, c: char, rest: string, v: int, vs: seq<int>)
    requires |fmt| >= 2 && fmt[0].Number? && fmt[0].minWidth <= |ds| <= fmt[0].maxWidth
    requires fmt[1] == Literal(c) && !IsDigit(c)
    requires AllDigits(ds) && DigitsValue(ds) == v
    requires Matches(fmt[2..], rest, vs)
    ensures Matches(fmt, ds + [c] + rest, [v] + vs)
  {
    assert fmt[1..][1..] == fmt[2..];
    MatchLiteralAt(fmt[1..], rest, vs);
    assert ds + [c] + rest == ds + ([c] + rest);
    MatchNumberAt(fmt, ds, [c] + rest, v, vs);
  }

  /** "%M" at the end of the text. */
  lemma MatchMinute(mis: string)
    requires AllDigits(mis) && 1 <= |mis| <= 2
    ensures Matches(TimestampFormat[8..], mis, [DigitsValue(mis)])
  {
    var f := TimestampFormat[8..];
    assert f[1..] == [];
    assert mis + [] == mis && [DigitsValue(mis)] + [] == [DigitsValue(mis)];
    MatchNumberAt(f, mis, [], DigitsValue(mis), []);
  }

  /** "%H:%M" at the end of the text. */
  lemma MatchTime(hs: string, mis: string)
    requires AllDigits(hs) && AllDigits(mis) && 1 <= |hs| <= 2 && 1 <= |mis| <= 2
    ensures Matches(TimestampFormat[6..], hs + [':'] + mis, [DigitsValue(hs)] + [DigitsValue(mis)])
  {
    var f := TimestampFormat[6..];
    assert f[2..] == TimestampFormat[8..];
    MatchMinute(mis);
    MatchGroupThen(f, hs, ':', mis, DigitsValue(hs), [DigitsValue(mis)]);
  }

  /** "%d %H:%M" at the end of the text. */
  lemma MatchDayTime(ds: string, hs: string, mis: string)
    requires AllDigits(ds) && AllDigits(hs) && AllDigits(mis)
    requires 1 <= |ds| <= 2 && 1 <= |hs| <= 2 && 1 <= |mis| <= 2
    ensures Matches(TimestampFormat[4..], ds + [' '] + (hs + [':'] + mis),
                    [DigitsValue(ds)] + ([DigitsValue(hs)] + [DigitsValue(mis)]))
  {
    var f := TimestampFormat[4..];
    assert f[2..] == TimestampFormat[6..];
    MatchTime(hs, mis);
    MatchGroupThen(f, ds, ' ', hs + [':'] + mis, DigitsValue(ds), [DigitsValue(hs)] + [DigitsValue(mis)]);
  }

  /** "%m/%d %H:%M" at the end of the text. */
  lemma MatchMonthDayTime(ms: string, ds: string, hs: string, mis: string)
    requires AllDigits(ms) && AllDigits(ds) && AllDigits(hs) && AllDigits(mis)
    requires 1 <= |ms| <= 2 && 1 <= |ds| <= 2 && 1 <= |hs| <= 2 && 1 <= |mis| <= 2
    ensures Matches(TimestampFormat[2..], ms + ['/'] + (ds + [' '] + (hs + [':'] + mis)),
                    [DigitsValue(ms)] + ([DigitsValue(ds)] + ([DigitsValue(hs)] + [DigitsValue(mis)])))
  {
    var f := TimestampFormat[2..];
    assert f[2..] == TimestampFormat[4..];
    MatchDayTime(ds, hs, mis);
    MatchGroupThen(f, ms, '/', ds + [' '] + (hs + [':'] + mis), DigitsValue(ms),
                   [DigitsValue(ds)] + ([DigitsValue(hs)] + [DigitsValue(mis)]));
  }

  /** "%Y/%m/%d %H:%M", the whole format. */
  lemma {:induction false} MatchTimestampText(ys: string, ms: string, ds: string, hs: string, mis: string)
    requires AllDigits(ys) && AllDigits(ms) && AllDigits(ds) && AllDigits(hs) && AllDigits(mis)
    requires |ys| == 4 && 1 <= |ms| <= 2 && 1 <= |ds| <= 2 && 1 <= |hs| <= 2 && 1 <= |mis| <= 2
    ensures Matches(TimestampFormat, ys + ['/'] + (ms + ['/'] + (ds + [' '] + (hs + [':'] + mis))),
      [DigitsValue(ys)] + ([DigitsValue(ms)] + ([DigitsValue(ds)] + ([DigitsValue(hs)] + [DigitsValue(mis)]))))
  {
    var rest: string := ms + ['/'] + (ds + [' '] + (hs + [':'] + mis));
    var vs: seq<int> := [DigitsValue(ms)] + ([DigitsValue(ds)] + ([DigitsValue(hs)] + [DigitsValue(mis)]));
    MatchMonthDayTime(ms, ds, hs, mis);
    MatchGroupThen(TimestampFormat, ys, '/', rest, DigitsValue(ys), vs);
  }

  /** A text that matches the format parses to the timestamp its five values make. */
  lemma ParseMatched(s: string, vs: seq<int>)
    requires Matches(TimestampFormat, s, vs)
    ensures |vs| == 5 && ParseTimestamp(s) == MakeTimestamp(vs[0], vs[1], vs[2], vs[3], vs[4])
  {
    assert Fields(TimestampFormat) == 5;
    ScanMatches(TimestampFormat, s, []);
    assert [] + vs == vs;
  }

  /** A text that does not match the format does not parse. */
  lemma ParseUnmatched(s: string)
    requires MatchFormat(TimestampFormat, s).None?
    ensures ParseTimestamp(s).None?
  {
    ScanMatches(TimestampFormat, s, []);
  }

  /** The composed string, regrouped as the parser takes it apart. */
  lemma ComposeShape(year: int, ms: string, ds: string, hs: string, mis: string)
    ensures Compose(year, ms + "/" + ds, hs + ":" + mis)
      == IntToString(year) + ['/'] + (ms + ['/'] + (ds + [' '] + (hs + [':'] + mis)))
  {
  }

  /** Writing a timestamp's fields the way the health log does and parsing them gives it back. */
  lemma ParseComposed(t: Timestamp)
    requires t.year >= 1000
    ensures ParseTimestamp(Compose(t.year, DateText(t), TimeText(t))) == Some(t)
  {
    var ys, ms, ds, hs, mis := NatToString(t.year), NatToString(t.month), NatToString(t.day),
      NatToString(t.hour), TwoDigits(t.minute);
    assert |ys| == 4 && DigitsValue(ys) == t.year by {
      NatToStringLength(t.year, 4);
      NatToStringLength(t.year, 3);
      assert Pow10(4) == 10000 && Pow10(3) == 1000;
      NatToStringValue(t.year);
    }
    ShortRendering(t.month);
    ShortRendering(t.day);
    ShortRendering(t.hour);
    var vs := [t.year] + ([t.month] + ([t.day] + ([t.hour] + [t.minute])));
    assert vs[0] == t.year && vs[1] == t.month && vs[2] == t.day && vs[3] == t.hour && vs[4] == t.minute;
    ComposeShape(t.year, ms, ds, hs, mis);
    MatchTimestampText(ys, ms, ds, hs, mis);
    ParseMatched(Compose(t.year, DateText(t), TimeText(t)), vs);
  }

  /**
   * A year that does not print as exactly four digits makes strptime fail,
   * whatever the date and time fields hold.
   */
  lemma YearOutOfFormatRejected(year: int, date: string, time: string)
    requires year < 1000 || year > 9999
    ensures ParseTimestamp(Compose(year, date, time)) == None
  {
    var s := Compose(year, date, time);
    if year < 0 {
      assert s[0] == '-';
      assert SplitDigits(s).0 == [];
    } else {
      var ys := NatToString(year);
      assert s == ys + ("/" + date + " " + time);
      SplitDigitsAt(ys, "/" + date + " " + time);
      NatToStringLength(year, 3);
      NatToStringLength(year, 4);
      assert Pow10(4) == 10000 && Pow10(3) == 1000;
    }
    assert MatchFormat(TimestampFormat, s) == None;
    ParseUnmatched(s);
  }
}
