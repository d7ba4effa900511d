/**
 * `meanData` and the binning loop of `binSugars` in health-stats.py: the mean of
 * the values that are present, and the sugar readings grouped by hour of day.
 * Floating point is modelled by exact reals.
 */
module Aggregate {
  import opened Wrappers
  import opened Timestamps

  /** The values that are present, in order: `[x for x in xs if x is not None]`. */
  function Present(xs: seq<Option<real>>): (ps: seq<real>)
    ensures |ps| <= |xs|
    decreases |xs|
  {
    if xs == [] then []
    else
      var last := xs[|xs| - 1];
      Present(xs[..|xs| - 1]) + (if last.Some? then [last.value] else [])
  }

  /** `sum(xs)`, adding from the left. */
  function Sum(xs: seq<real>): real
    decreases |xs|
  {
    if xs == [] then 0.0 else Sum(xs[..|xs| - 1]) + xs[|xs| - 1]
  }

  /**
   * `meanData(xs)`: the mean of the present values, and 0.0 when there are none,
   * so an hour without readings plots at zero instead of failing.
   */
  function MeanData(xs: seq<Option<real>>): (m: real)
    ensures |Present(xs)| == 0 ==> m == 0.0
    ensures |Present(xs)| > 0 ==> m * (|Present(xs)| as real) == Sum(Present(xs))
  {
    var ps := Present(xs);
    if |ps| == 0 then 0.0 else Sum(ps) / (|ps| as real)
  }

  /** The filter keeps exactly the values that occur present in the input. */
  lemma {:induction false} PresentMembers(xs: seq<Option<real>>, v: real)
    ensures v in Present(xs) <==> Some(v) in xs
    decreases |xs|
  {
    if xs != [] {
      var init := xs[..|xs| - 1];
      PresentMembers(init, v);
      assert xs == init + [xs[|xs| - 1]];
    }
  }

  /** Filtering a concatenation filters each part. */
  lemma {:induction false} PresentConcat(a: seq<Option<real>>, b: seq<Option<real>>)
    ensures Present(a + b) == Present(a) + Present(b)
    decreases |b|
  {
    if b == [] {
      assert a + b == a;
    } else {
      var ab, b', last := a + b, b[..|b| - 1], b[|b| - 1];
      var tail: seq<real> := if last.Some? then [last.value] else [];
      assert ab[..|ab| - 1] == a + b' && ab[|ab| - 1] == last;
      assert Present(ab) == Present(a + b') + tail;
      assert Present(b) == Present(b') + tail;
      PresentConcat(a, b');
      assert Present(a) + Present(b') + tail == Present(a) + (Present(b') + tail);
    }
  }

  /** An absent entry, wherever it stands, does not change the mean. */
  lemma MeanIgnoresAbsent(a: seq<Option<real>>, b: seq<Option<real>>)
    ensures MeanData(a + [None] + b) == MeanData(a + b)
  {
    var none: seq<Option<real>> := [None];
    PresentConcat(a + none, b);
    PresentConcat(a, none);
    assert Present(none) == [] by { assert none[..0] == []; }
    assert Present(a) + [] == Present(a);
    PresentConcat(a, b);
  }

  /** A list of absent values only has mean 0.0. */
  lemma {:induction false} MeanOfAbsent(xs: seq<Option<real>>)
    requires forall i :: 0 <= i < |xs| ==> xs[i] == None
    ensures Present(xs) == [] && MeanData(xs) == 0.0
    decreases |xs|
  {
    if xs != [] {
      MeanOfAbsent(xs[..|xs| - 1]);
    }
  }

  /** Values between lo and hi sum to between lo and hi times their count. */
  lemma {:induction false} SumBounds(ps: seq<real>, lo: real, hi: real)
    requires forall i :: 0 <= i < |ps| ==> lo <= ps[i] <= hi
    ensures lo * (|ps| as real) <= Sum(ps) <= hi * (|ps| as real)
    decreases |ps|
  {
    if ps != [] {
      var init := ps[..|ps| - 1];
      SumBounds(init, lo, hi);
      assert (|ps| as real) == (|init| as real) + 1.0;
      assert lo * (|ps| as real) == lo * (|init| as real) + lo;
      assert hi * (|ps| as real) == hi * (|init| as real) + hi;
    }
  }

  /** The mean of present values that all lie between lo and hi lies between lo and hi too. */
  lemma MeanWithinRange(xs: seq<Option<real>>, lo: real, hi: real)
    requires Present(xs) != []
    requires forall v :: Some(v) in xs ==> lo <= v <= hi
    ensures lo <= MeanData(xs) <= hi
  {
    PresentWithin(xs, lo, hi);
    AverageWithin(Present(xs), lo, hi);
  }

  /** The average of a non-empty list of values between lo and hi lies between them. */
  lemma AverageWithin(ps: seq<real>, lo: real, hi: real)
    requires ps != []
    requires forall i :: 0 <= i < |ps| ==> lo <= ps[i] <= hi
    ensures lo <= Sum(ps) / (|ps| as real) <= hi
  {
    var n := |ps| as real;
    SumBounds(ps, lo, hi);
    QuotientWithin(Sum(ps), n, Sum(ps) / n, lo, hi);
  }

  /** The present values inherit any bounds on the values in the input. */
  lemma PresentWithin(xs: seq<Option<real>>, lo: real, hi: real)
    requires forall v :: Some(v) in xs ==> lo <= v <= hi
    ensures forall i :: 0 <= i < |Present(xs)| ==> lo <= Present(xs)[i] <= hi
  {
    var ps := Present(xs);
    forall i | 0 <= i < |ps| ensures lo <= ps[i] <= hi {
      PresentMembers(xs, ps[i]);
    }
  }

  /** A quotient m of a total between lo * n and hi * n by a positive n lies between lo and hi. */
  lemma QuotientWithin(total: real, n: real, m: real, lo: real, hi: real)
    requires n > 0.0 && m * n == total && lo * n <= total <= hi * n
    ensures lo <= m <= hi
  {
    if m < lo {
      ScaleBelow(m, lo, n);
    }
    if m > hi {
      ScaleBelow(hi, m, n);
    }
  }

  /** Multiplying by a positive number keeps a strict order. */
  lemma ScaleBelow(x: real, y: real, n: real)
    requires x < y && n > 0.0
    ensures x * n < y * n
  {
  }

  /** The mean of 10.0, an absent value and 20.0 is 15.0. */
  lemma MeanExample()
    ensures MeanData([Some(10.0), None, Some(20.0)]) == 15.0
  {
    var xs := [Some(10.0), None, Some(20.0)];
    assert xs[..2][..1] == [Some(10.0)] && xs[..2] == [Some(10.0), None];
    assert [Some(10.0)][..0] == [];
    assert Present(xs) == [10.0, 20.0];
    assert [10.0, 20.0][..1] == [10.0] && [10.0][..0] == [];
  }

  /** `zip(dts, sugars)`: pairs up the two lists and stops at the end of the shorter. */
  function Zip(dts: seq<Timestamp>, sugars: seq<Option<real>>): (ps: seq<(Timestamp, Option<real>)>)
    ensures |ps| == if |dts| <= |sugars| then |dts| else |sugars|
    ensures forall k :: 0 <= k < |ps| ==> ps[k] == (dts[k], sugars[k])
  {
    var n := if |dts| <= |sugars| then |dts| else |sugars|;
    seq(n, k requires 0 <= k < n => (dts[k], sugars[k]))
  }

  /** The values of the pairs whose timestamp falls in hour h, in order. */
  function HourBucket(pairs: seq<(Timestamp, Option<real>)>, h: int): seq<Option<real>>
    decreases |pairs|
  {
    if pairs == [] then []
    else
      var last := pairs[|pairs| - 1];
      HourBucket(pairs[..|pairs| - 1], h) + (if last.0.hour == h then [last.1] else [])
  }

  /** The sum of a list of counts. */
  function Total(counts: seq<nat>): nat
    decreases |counts|
  {
    if counts == [] then 0 else Total(counts[..|counts| - 1]) + counts[|counts| - 1]
  }

  /** The bucket sizes of the 24 hours. */
  function HourCounts(pairs: seq<(Timestamp, Option<real>)>): (c: seq<nat>)
    ensures |c| == 24 && forall h :: 0 <= h < 24 ==> c[h] == |HourBucket(pairs, h)|
  {
    seq(24, h requires 0 <= h < 24 => |HourBucket(pairs, h)|)
  }

  /** Adding one to a single entry adds one to the total. */
  lemma {:induction false} TotalIncrement(a: seq<nat>, b: seq<nat>, j: nat)
    requires |a| == |b| && j < |a|
    requires b[j] == a[j] + 1 && forall h :: 0 <= h < |a| && h != j ==> b[h] == a[h]
    ensures Total(b) == Total(a) + 1
    decreases |a|
  {
    var n := |a| - 1;
    if j < n {
      TotalIncrement(a[..n], b[..n], j);
    } else {
      assert a[..n] == b[..n];
    }
  }

  /** Every pair is counted in exactly one hour, so the 24 counts add up to the number of pairs. */
  lemma {:induction false} CountsSumToPairs(pairs: seq<(Timestamp, Option<real>)>)
    ensures Total(HourCounts(pairs)) == |pairs|
    decreases |pairs|
  {
    if pairs == [] {
      var c := HourCounts(pairs);
      assert forall h :: 0 <= h < 24 ==> c[h] == 0;
      ZeroTotal(c);
    } else {
      var init := pairs[..|pairs| - 1];
      var hr := pairs[|pairs| - 1].0.hour;
      CountsSumToPairs(init);
      TotalIncrement(HourCounts(init), HourCounts(pairs), hr);
    }
  }

  /** Counts that are all zero total zero. */
  lemma {:induction false} ZeroTotal(c: seq<nat>)
    requires forall h :: 0 <= h < |c| ==> c[h] == 0
    ensures Total(c) == 0
    decreases |c|
  {
    if c != [] {
      ZeroTotal(c[..|c| - 1]);
    }
  }

  /** A value lands in the bucket of hour h exactly when some pair of hour h carries it. */
  lemma {:induction false} BucketMembers(pairs: seq<(Timestamp, Option<real>)>, h: int, x: Option<real>)
    ensures x in HourBucket(pairs, h) <==> exists k :: 0 <= k < |pairs| && pairs[k].0.hour == h && pairs[k].1 == x
    decreases |pairs|
  {
    if pairs != [] {
      var n := |pairs| - 1;
      var init := pairs[..n];
      BucketMembers(init, h, x);
      if x in HourBucket(pairs, h) {
        if x in HourBucket(init, h) {
          var k :| 0 <= k < |init| && init[k].0.hour == h && init[k].1 == x;
          assert pairs[k] == init[k];
        } else {
          assert pairs[n].0.hour == h && pairs[n].1 == x;
        }
      }
      if exists k :: 0 <= k < |pairs| && pairs[k].0.hour == h && pairs[k].1 == x {
        var k :| 0 <= k < |pairs| && pairs[k].0.hour == h && pairs[k].1 == x;
        if k < n {
          assert init[k] == pairs[k];
        }
      }
    }
  }

  /** One more pair extends the bucket of its own hour and no other. */
  lemma BucketStep(pairs: seq<(Timestamp, Option<real>)>, k: nat)
    requires k < |pairs|
    ensures forall h ::
      HourBucket(pairs[..k + 1], h) == HourBucket(pairs[..k], h) + (if pairs[k].0.hour == h then [pairs[k].1] else [])
  {
    assert pairs[..k + 1][..k] == pairs[..k];
  }

  /**
   * The binning loop of `binSugars(dts, sugars)`: for each zipped pair, one more
   * count and one more value in the bucket of its hour; then the mean of
   * each bucket.
   */
  method BinSugars(dts: seq<Timestamp>, sugars: seq<Option<real>>)
    returns (num: seq<nat>, data: seq<seq<Option<real>>>, meanSugars: seq<real>)
    ensures |num| == 24 && |data| == 24 && |meanSugars| == 24
    ensures forall h :: 0 <= h < 24 ==> data[h] == HourBucket(Zip(dts, sugars), h)
    ensures forall h :: 0 <= h < 24 ==> num[h] == |data[h]| && meanSugars[h] == MeanData(data[h])
    ensures Total(num) == |Zip(dts, sugars)|
  {
    var pairs := Zip(dts, sugars);
    var counts := new nat[24](_ => 0);
    var buckets := new seq<Option<real>>[24](_ => []);
    for k := 0 to |pairs|
      invariant forall h :: 0 <= h < 24 ==> buckets[h] == HourBucket(pairs[..k], h)
      invariant forall h :: 0 <= h < 24 ==> counts[h] == |buckets[h]|
    {
      BucketStep(pairs, k);
      var dt, sugar := pairs[k].0, pairs[k].1;
      counts[dt.hour] := counts[dt.hour] + 1;
      buckets[dt.hour] := buckets[dt.hour] + [sugar];
    }
    assert pairs[..|pairs|] == pairs;
    num, data := counts[..], buckets[..];
    meanSugars := seq(24, h requires 0 <= h < 24 => MeanData(data[h]));
    assert num == HourCounts(pairs);
    CountsSumToPairs(pairs);
  }
}
