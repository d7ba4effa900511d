/**
 * Decimal digit strings and the restricted number grammar that stands in
 * for Python's `float(value)` when a CSV field is converted.
 */
module Numbers {
  import opened Wrappers

  predicate IsDigit(c: char) { '0' <= c <= '9' }

  predicate AllDigits(s: string) { forall i :: 0 <= i < |s| ==> IsDigit(s[i]) }

  function DigitValue(c: char): (d: nat)
    requires IsDigit(c)
    ensures d < 10
  {
    c as int - '0' as int
  }

  function Digit(d: nat): (c: char)
    requires d < 10
    ensures IsDigit(c) && DigitValue(c) == d
  {
    ('0' as int + d) as char
  }

  function Pow10(k: nat): (p: nat)
    ensures p >= 1
  {
    if k == 0 then 1 else 10 * Pow10(k - 1)
  }

  /** The value of a string of decimal digits, most significant digit first. */
  function DigitsValue(s: string): nat
    requires AllDigits(s)
    decreases |s|
  {
    if s == [] then 0 else DigitsValue(s[..|s| - 1]) * 10 + DigitValue(s[|s| - 1])
  }

  /** Decimal rendering of a natural number without leading zeros (Python's `str`). */
  function NatToString(n: nat): (s: string)
    ensures AllDigits(s) && |s| >= 1
    ensures |s| > 1 ==> s[0] != '0'
    decreases n
  {
    if n < 10 then [Digit(n)] else NatToString(n / 10) + [Digit(n % 10)]
  }

  /** Decimal rendering of an integer, as `"%s" % n` gives it. */
  function IntToString(n: int): string
  {
    if n < 0 then "-" + NatToString(-n) else NatToString(n)
  }

  /** Splits `s` into its longest prefix of digits and the rest. */
  function SplitDigits(s: string): (r: (string, string))
    ensures AllDigits(r.0) && r.0 + r.1 == s
    ensures r.1 == [] || !IsDigit(r.1[0])
  {
    if s == [] || !IsDigit(s[0]) then ([], s)
    else
      var t := SplitDigits(s[1..]);
      var ds := [s[0]] + t.0;
      assert forall i :: 1 <= i < |ds| ==> ds[i] == t.0[i - 1];
      assert ds + t.1 == [s[0]] + (t.0 + t.1);
      (ds, t.1)
  }

  /** The value of the digits after a decimal point. */
  function Fraction(ds: string): real
    requires AllDigits(ds)
  {
    DigitsValue(ds) as real / Pow10(|ds|) as real
  }

  /** Characters that can occur in a number accepted by `ParseNumber`. */
  predicate IsNumberChar(c: char) { IsDigit(c) || c == '+' || c == '-' || c == '.' }

  /**
   * Reads an unsigned decimal from left to right: digits, optionally followed
   * by a point and more digits, with at least one digit in all ("12", "12.5",
   * "12.", ".5"). `w` is the value of the `n` digits read before `s`.
   */
  function ReadWhole(s: string, w: nat, n: nat): Option<real>
    decreases |s|
  {
    if s == [] then (if n == 0 then None else Some(w as real))
    else if IsDigit(s[0]) then ReadWhole(s[1..], w * 10 + DigitValue(s[0]), n + 1)
    else if s[0] == '.' && AllDigits(s[1..]) && n + |s| > 1 then Some(w as real + Fraction(s[1..]))
    else None
  }

  /** The unsigned decimal written in `s`. */
  function ParseUnsigned(s: string): Option<real>
  {
    ReadWhole(s, 0, 0)
  }

  /**
   * The number written in `s`: an optional sign followed by an unsigned
   * decimal. This is the part of Python's `float` grammar that a health log
   * uses; anything else is a conversion failure.
   */
  function ParseNumber(s: string): Option<real>
  {
    if |s| > 0 && (s[0] == '+' || s[0] == '-') then
      match ParseUnsigned(s[1..])
      case None => None
      case Some(v) => Some(if s[0] == '-' then -v else v)
    else
      ParseUnsigned(s)
  }

  /** (a * 10 + d) * p == a * (10 * p) + d * p, stated on plain variables. */
  lemma ShiftDigit(a: int, d: int, p: int)
    ensures (a * 10 + d) * p == a * (10 * p) + d * p
  {
  }

  /** (a * p + b) * 10 + d == a * (p * 10) + (b * 10 + d), stated on plain variables. */
  lemma ShiftValue(a: int, p: int, b: int, d: int)
    ensures (a * p + b) * 10 + d == a * (p * 10) + (b * 10 + d)
  {
  }

  /** Two digit strings put together are a digit string. */
  lemma AllDigitsConcat(a: string, b: string)
    requires AllDigits(a) && AllDigits(b)
    ensures AllDigits(a + b)
  {
    var ab := a + b;
    forall i | 0 <= i < |ab| ensures IsDigit(ab[i]) {
      if i < |a| { assert ab[i] == a[i]; } else { assert ab[i] == b[i - |a|]; }
    }
  }

  /** Appending digits shifts the value of the earlier ones. */
  lemma {:induction false} DigitsValueAppend(a: string, b: string)
    requires AllDigits(a) && AllDigits(b)
    ensures AllDigits(a + b) && DigitsValue(a + b) == DigitsValue(a) * Pow10(|b|) + DigitsValue(b)
    decreases |b|
  {
    AllDigitsConcat(a, b);
    var ab := a + b;
    if b == [] {
      assert ab == a;
    } else {
      var b' := b[..|b| - 1];
      var c := b[|b| - 1];
      assert ab[..|ab| - 1] == a + b' && ab[|ab| - 1] == c;
      DigitsValueAppend(a, b');
      var va, vb', p, last := DigitsValue(a), DigitsValue(b'), Pow10(|b'|), DigitValue(c);
      assert DigitsValue(ab) == DigitsValue(a + b') * 10 + last;
      assert DigitsValue(b) == vb' * 10 + last;
      assert Pow10(|b|) == p * 10;
      ShiftValue(va, p, vb', last);
    }
  }

  /** The running value after reading the digits `ds` on top of the value `w`, one digit at a time. */
  function Accumulate(w: nat, ds: string): nat
    requires AllDigits(ds)
    decreases |ds|
  {
    if ds == [] then w else Accumulate(w * 10 + DigitValue(ds[0]), ds[1..])
  }

  /** Reading a run of digits accumulates them into the running value and count. */
  lemma {:induction false} ReadDigitsThen(ds: string, rest: string, w: nat, n: nat)
    requires AllDigits(ds)
    ensures ReadWhole(ds + rest, w, n) == ReadWhole(rest, Accumulate(w, ds), n + |ds|)
    decreases |ds|
  {
    if ds == [] {
      assert ds + rest == rest;
    } else {
      var d, ds' := ds[0], ds[1..];
      assert (ds + rest)[0] == d && (ds + rest)[1..] == ds' + rest;
      ReadDigitsThen(ds', rest, w * 10 + DigitValue(d), n + 1);
    }
  }

  /** Accumulating digits on top of w shifts w past them and adds their value. */
  lemma {:induction false} AccumulateValue(w: nat, ds: string)
    requires AllDigits(ds)
    ensures Accumulate(w, ds) == w * Pow10(|ds|) + DigitsValue(ds)
    decreases |ds|
  {
    if ds != [] {
      var d, ds' := ds[0], ds[1..];
      var dv, p := DigitValue(d), Pow10(|ds'|);
      AccumulateValue(w * 10 + dv, ds');
      DigitsValueAppend([d], ds');
      assert [d] + ds' == ds;
      assert DigitsValue([d]) == dv by { assert [d][..0] == []; }
      assert Pow10(|ds|) == 10 * p;
      ShiftDigit(w, dv, p);
    }
  }

  /** What the scan accepts is made of digits and points and holds a digit somewhere. */
  lemma {:induction false} ReadWholeShape(s: string, w: nat, n: nat)
    requires ReadWhole(s, w, n).Some?
    ensures forall i :: 0 <= i < |s| ==> IsDigit(s[i]) || s[i] == '.'
    ensures n > 0 || exists i :: 0 <= i < |s| && IsDigit(s[i])
    decreases |s|
  {
    if s != [] {
      if IsDigit(s[0]) {
        ReadWholeShape(s[1..], w * 10 + DigitValue(s[0]), n + 1);
        assert forall i :: 1 <= i < |s| ==> s[i] == s[1..][i - 1];
      } else {
        assert forall i :: 1 <= i < |s| ==> s[i] == s[1..][i - 1];
        if n == 0 {
          assert IsDigit(s[1]);
        }
      }
    }
  }

  /**
   * A number that parses is made of signs, digits and points only and holds at
   * least one digit: text such as "n/a" or "--" never converts.
   */
  lemma NumberShape(s: string)
    requires ParseNumber(s).Some?
    ensures forall i :: 0 <= i < |s| ==> IsNumberChar(s[i])
    ensures exists i :: 0 <= i < |s| && IsDigit(s[i])
  {
    if |s| > 0 && (s[0] == '+' || s[0] == '-') {
      ReadWholeShape(s[1..], 0, 0);
      assert forall i :: 1 <= i < |s| ==> s[i] == s[1..][i - 1];
      var j :| 0 <= j < |s[1..]| && IsDigit(s[1..][j]);
      assert IsDigit(s[j + 1]);
    } else {
      ReadWholeShape(s, 0, 0);
    }
  }

  lemma {:induction false} NatToStringValue(n: nat)
    ensures DigitsValue(NatToString(n)) == n
    decreases n
  {
    if n >= 10 {
      NatToStringValue(n / 10);
      var s := NatToString(n);
      assert s[..|s| - 1] == NatToString(n / 10);
    }
  }

  /** A rendering fits in k characters exactly when the number is below 10^k. */
  lemma {:induction false} NatToStringLength(n: nat, k: nat)
    requires k >= 1
    ensures |NatToString(n)| <= k <==> n < Pow10(k)
    decreases n
  {
    if n < 10 {
      assert Pow10(k) == 10 * Pow10(k - 1);
    } else if k == 1 {
      assert Pow10(1) == 10;
    } else {
      NatToStringLength(n / 10, k - 1);
      assert Pow10(k) == 10 * Pow10(k - 1);
    }
  }

  /** The longest digit prefix of `ds + rest` is `ds` when `rest` does not start with a digit. */
  lemma {:induction false} SplitDigitsAt(ds: string, rest: string)
    requires AllDigits(ds)
    requires rest == [] || !IsDigit(rest[0])
    ensures SplitDigits(ds + rest) == (ds, rest)
    decreases |ds|
  {
    if ds != [] {
      SplitDigitsAt(ds[1..], rest);
      assert (ds + rest)[1..] == ds[1..] + rest;
      assert (ds + rest)[0] == ds[0];
      assert [ds[0]] + ds[1..] == ds;
    } else {
      assert ds + rest == rest;
    }
  }

  /** Python's `float(str(n))` gives back n. */
  lemma ParseNatString(n: nat)
    ensures ParseNumber(NatToString(n)) == Some(n as real)
  {
    var s := NatToString(n);
    ReadDigitsThen(s, [], 0, 0);
    AccumulateValue(0, s);
    assert s + [] == s;
    NatToStringValue(n);
  }

  /** A minus sign before a rendered natural number negates its value. */
  lemma ParseNegatedNatString(n: nat)
    ensures ParseNumber("-" + NatToString(n)) == Some(-(n as real))
  {
    var s := "-" + NatToString(n);
    assert s[1..] == NatToString(n);
    ParseNatString(n);
  }

  /** Digits, a point and more digits read as a whole part plus a fraction. */
  lemma ParseUnsignedDecimal(whole: string, frac: string)
    requires AllDigits(whole) && AllDigits(frac) && |whole| >= 1
    ensures var r := ParseUnsigned(whole + ("." + frac));
      r.Some? && r.value == DigitsValue(whole) as real + Fraction(frac)
  {
    var rest := "." + frac;
    ReadDigitsThen(whole, rest, 0, 0);
    AccumulateValue(0, whole);
    assert rest[1..] == frac;
  }

  /** A point between two rendered numbers gives a whole part and a fraction. */
  lemma ParseDecimalString(w: nat, f: nat)
    ensures var frac := NatToString(f);
      var r := ParseNumber(NatToString(w) + "." + frac);
      r.Some? && r.value == w as real + Fraction(frac)
  {
    var whole, frac := NatToString(w), NatToString(f);
    var s := whole + "." + frac;
    assert s == whole + ("." + frac);
    assert s[0] == whole[0];
    ParseUnsignedDecimal(whole, frac);
    NatToStringValue(w);
  }
}
