/** Percentile summaries of numeric samples, over real numbers. */
module StyleMetrics {

  ghost predicate Ascending(s: seq<real>) { forall i, j :: 0 <= i < j < |s| ==> s[i] <= s[j] }

  function Insert(x: real, s: seq<real>): seq<real> {
    if |s| == 0 || x <= s[0] then [x] + s else [s[0]] + Insert(x, s[1..])
  }

  function Sorted(values: seq<real>): seq<real> {
    if |values| == 0 then [] else Insert(values[0], Sorted(values[1..]))
  }

  function Sum(s: seq<real>): real { if |s| == 0 then 0.0 else s[0] + Sum(s[1..]) }

  lemma {:induction false} InsertMembers(x: real, s: seq<real>)
    ensures |Insert(x, s)| == |s| + 1 && multiset(Insert(x, s)) == multiset{x} + multiset(s)
  {
    if |s| > 0 && x > s[0] {
      InsertMembers(x, s[1..]);
      assert s == [s[0]] + s[1..];
    }
  }

  lemma {:induction false} InsertSum(x: real, s: seq<real>)
    ensures Sum(Insert(x, s)) == x + Sum(s)
  {
    if |s| == 0 || x <= s[0] {
      assert ([x] + s)[1..] == s;
    } else {
      InsertSum(x, s[1..]);
      assert ([s[0]] + Insert(x, s[1..]))[1..] == Insert(x, s[1..]);
    }
  }

  lemma {:induction false} InsertKeepsOrder(x: real, s: seq<real>)
    requires Ascending(s)
    ensures Ascending(Insert(x, s))
  {
    if |s| > 0 && x > s[0] {
      InsertKeepsOrder(x, s[1..]);
      var rest := Insert(x, s[1..]);
      InsertMembers(x, s[1..]);
      forall k | 0 <= k < |rest| ensures s[0] <= rest[k] {
        assert rest[k] in multiset(rest);
        if rest[k] != x {
          assert rest[k] in s[1..];
        }
      }
    }
  }

  /** Sorting orders the sample, keeps every value with its multiplicity, and so keeps the sum. */
  lemma {:induction false} SortedMeaning(values: seq<real>)
    ensures Ascending(Sorted(values)) && multiset(Sorted(values)) == multiset(values)
            && Sum(Sorted(values)) == Sum(values)
    ensures |Sorted(values)| == |values|
  {
    if |values| > 0 {
      SortedMeaning(values[1..]);
      InsertMembers(values[0], Sorted(values[1..]));
      InsertSum(values[0], Sorted(values[1..]));
      InsertKeepsOrder(values[0], Sorted(values[1..]));
      assert values == [values[0]] + values[1..];
    }
  }

  // ----- Linear interpolation -----

  function Ceiling(x: real): int { if x.Floor as real == x then x.Floor else x.Floor + 1 }

  /** The point at the given fraction of the way from `a` to `b`. */
  function Interpolate(a: real, b: real, fraction: real): real { a + fraction * (b - a) }

  lemma Scale(a: real, b: real, gap: real)
    requires a <= b && 0.0 <= gap
    ensures a * gap <= b * gap
  {
  }

  lemma InterpolateWithin(a: real, b: real, fraction: real)
    requires a <= b && 0.0 <= fraction <= 1.0
    ensures a <= Interpolate(a, b, fraction) <= b
  {
    Scale(0.0, fraction, b - a);
    Scale(fraction, 1.0, b - a);
  }

  /** The value at a fractional index: an element, or a point between two neighbours. */
  function At(s: seq<real>, position: real): real
    requires |s| > 0 && 0.0 <= position <= (|s| - 1) as real
  {
    var lower, upper := position.Floor, Ceiling(position);
    if lower == upper then s[lower]
    else Interpolate(s[lower], s[upper], position - lower as real)
  }

  lemma PositionInRange(n: nat, quantile: real)
    requires n > 0 && 0.0 <= quantile <= 1.0
    ensures 0.0 <= (n - 1) as real * quantile <= (n - 1) as real
  {
    var m := (n - 1) as real;
    assert m * quantile <= m * 1.0;
  }

  function Percentile(s: seq<real>, quantile: real): real
    requires |s| > 0 && 0.0 <= quantile <= 1.0
  {
    PositionInRange(|s|, quantile);
    At(s, (|s| - 1) as real * quantile)
  }

  /** The interpolated value separates the elements up to the position from those after it. */
  lemma AtSeparates(s: seq<real>, position: real)
    requires |s| > 0 && 0.0 <= position <= (|s| - 1) as real && Ascending(s)
    ensures forall i :: 0 <= i < |s| && i as real <= position ==> s[i] <= At(s, position)
    ensures forall i :: 0 <= i < |s| && position <= i as real ==> At(s, position) <= s[i]
  {
    var lower, upper := position.Floor, Ceiling(position);
    if lower != upper {
      InterpolateWithin(s[lower], s[upper], position - lower as real);
    }
    assert s[lower] <= At(s, position) <= s[upper];
  }

  lemma InterpolateMonotone(a: real, b: real, f: real, g: real)
    requires a <= b && f <= g
    ensures Interpolate(a, b, f) <= Interpolate(a, b, g)
  {
    Scale(f, g, b - a);
  }

  lemma AtInCell(s: seq<real>, position: real, i: nat)
    requires i + 1 < |s| && i as real <= position < (i + 1) as real
    ensures At(s, position) == Interpolate(s[i], s[i + 1], position - i as real)
  {
    assert position.Floor == i;
  }

  lemma AtMonotone(s: seq<real>, x: real, y: real)
    requires |s| > 0 && 0.0 <= x <= y <= (|s| - 1) as real && Ascending(s)
    ensures At(s, x) <= At(s, y)
  {
    var i := x.Floor;
    if y.Floor != i {
      AtSeparates(s, x);
      AtSeparates(s, y);
      assert At(s, x) <= s[y.Floor] <= At(s, y);
    } else if i + 1 < |s| {
      AtInCell(s, x, i);
      AtInCell(s, y, i);
      InterpolateMonotone(s[i], s[i + 1], x - i as real, y - i as real);
    } else {
      assert x == y;
    }
  }

  lemma PercentileMonotone(s: seq<real>, p: real, q: real)
    requires |s| > 0 && 0.0 <= p <= q <= 1.0 && Ascending(s)
    ensures Percentile(s, p) <= Percentile(s, q)
  {
    PositionInRange(|s|, p);
    PositionInRange(|s|, q);
    Scale(p, q, (|s| - 1) as real);
    AtMonotone(s, (|s| - 1) as real * p, (|s| - 1) as real * q);
  }

  /** What a percentile says about the sample: elements on either side of its position lie on that side of it. */
  lemma PercentileSeparates(s: seq<real>, quantile: real, position: real, i: nat)
    requires i < |s| && 0.0 <= quantile <= 1.0 && Ascending(s)
    requires position == (|s| - 1) as real * quantile
    ensures i as real <= position ==> s[i] <= Percentile(s, quantile)
    ensures position <= i as real ==> Percentile(s, quantile) <= s[i]
  {
    PositionInRange(|s|, quantile);
    AtSeparates(s, position);
    assert Percentile(s, quantile) == At(s, position);
  }

  // ----- distribution -----

  datatype Distribution = Distribution(
    count: nat, minimum: real, p10: real, p25: real, median: real, p75: real, p90: real, maximum: real, mean: real)

  function Mean(s: seq<real>): real
    requires |s| > 0
  {
    Sum(s) / |s| as real
  }

  function Summary(values: seq<real>): Distribution {
    var s := Sorted(values);
    if |s| == 0 then Distribution(0, 0.0, 0.0, 0.0, 0.0, 0.0, 0.0, 0.0, 0.0)
    else
      Distribution(|s|, s[0], Percentile(s, 0.10), Percentile(s, 0.25), Percentile(s, 0.50), Percentile(s, 0.75),
                   Percentile(s, 0.90), s[|s| - 1], Mean(s))
  }

  lemma {:induction false} SumBetween(s: seq<real>, low: real, high: real)
    requires forall k :: 0 <= k < |s| ==> low <= s[k] <= high
    ensures |s| as real * low <= Sum(s) <= |s| as real * high
  {
    if |s| > 0 {
      SumBetween(s[1..], low, high);
      assert |s| as real == |s[1..]| as real + 1.0;
      assert |s| as real * low == |s[1..]| as real * low + low;
      assert |s| as real * high == |s[1..]| as real * high + high;
    }
  }

  lemma Cancel(n: real, a: real, b: real)
    requires n > 0.0 && n * a <= n * b
    ensures a <= b
  {
  }

  lemma Quotient(sum: real, n: real)
    requires n > 0.0
    ensures n * (sum / n) == sum
  {
  }

  lemma MeanBetween(n: real, low: real, sum: real, high: real)
    requires n > 0.0 && n * low <= sum <= n * high
    ensures low <= sum / n <= high
  {
    Quotient(sum, n);
    Cancel(n, low, sum / n);
    Cancel(n, sum / n, high);
  }

  lemma MeanOfAscending(s: seq<real>)
    requires |s| > 0 && Ascending(s)
    ensures s[0] <= Mean(s) <= s[|s| - 1]
  {
    SumBetween(s, s[0], s[|s| - 1]);
    MeanBetween(|s| as real, s[0], Sum(s), s[|s| - 1]);
  }

  lemma EndsArePercentiles(s: seq<real>)
    requires |s| > 0
    ensures Percentile(s, 0.0) == s[0] && Percentile(s, 1.0) == s[|s| - 1]
  {
  }

  ghost predicate InOrder(d: Distribution) {
    d.minimum <= d.p10 <= d.p25 <= d.median <= d.p75 <= d.p90 <= d.maximum
  }

  lemma PercentilesInOrder(values: seq<real>)
    ensures InOrder(Summary(values))
  {
    SortedMeaning(values);
    var s := Sorted(values);
    if |s| > 0 {
      EndsArePercentiles(s);
      PercentileMonotone(s, 0.0, 0.10);
      PercentileMonotone(s, 0.10, 0.25);
      PercentileMonotone(s, 0.25, 0.50);
      PercentileMonotone(s, 0.50, 0.75);
      PercentileMonotone(s, 0.75, 0.90);
      PercentileMonotone(s, 0.90, 1.0);
    }
  }

  lemma MeanInRange(values: seq<real>)
    requires |values| > 0
    ensures var d := Summary(values); d.minimum <= d.mean <= d.maximum
    ensures Mean(Sorted(values)) == Mean(values)
  {
    SortedMeaning(values);
    MeanOfAscending(Sorted(values));
  }

  lemma AscendingEnds(s: seq<real>, v: real)
    requires Ascending(s) && v in s
    ensures s[0] <= v <= s[|s| - 1] && s[0] in s && s[|s| - 1] in s
  {
  }

  lemma SortedEnds(values: seq<real>, v: real)
    requires v in values
    ensures var s := Sorted(values);
            |s| == |values| && |s| > 0 && s[0] in values && s[|s| - 1] in values && s[0] <= v <= s[|s| - 1]
  {
    SortedMeaning(values);
    EndsOfPermutation(values, Sorted(values), v);
  }

  lemma EndsOfPermutation(values: seq<real>, s: seq<real>, v: real)
    requires Ascending(s) && multiset(s) == multiset(values) && v in values
    ensures |s| == |values| && |s| > 0 && s[0] in values && s[|s| - 1] in values && s[0] <= v <= s[|s| - 1]
  {
    assert |multiset(s)| == |multiset(values)|;
    assert v in multiset(values) && v in s;
    AscendingEnds(s, v);
    assert s[0] in multiset(s) && s[|s| - 1] in multiset(s);
  }

  /** The ends of the summary are the least and the greatest value of the sample. */
  lemma EndsAreExtremes(values: seq<real>, v: real)
    requires v in values
    ensures var d := Summary(values);
            d.count == |values| && d.minimum in values && d.maximum in values && d.minimum <= v <= d.maximum
  {
    SortedEnds(values, v);
  }

  // ----- What the interpolation reads -----

  /** Between two neighbours the value at a position is their mean, weighted by the distance from each other's index. */
  lemma AtIsWeighted(s: seq<real>, position: real, i: nat)
    requires i + 1 < |s| && i as real <= position <= (i + 1) as real
    ensures At(s, position) == ((i + 1) as real - position) * s[i] + (position - i as real) * s[i + 1]
  {
    if position == (i + 1) as real {
      assert At(s, position) == s[i + 1];
    } else {
      AtInCell(s, position, i);
      Blend(s[i], s[i + 1], position - i as real);
    }
  }

  lemma Blend(a: real, b: real, f: real)
    ensures Interpolate(a, b, f) == (1.0 - f) * a + f * b
  {
  }

  /** A percentile is the weighted mean of the two elements its position lies between. */
  lemma PercentileIsWeighted(s: seq<real>, quantile: real, position: real, i: nat)
    requires i + 1 < |s| && 0.0 <= quantile <= 1.0
    requires position == (|s| - 1) as real * quantile && i as real <= position <= (i + 1) as real
    ensures Percentile(s, quantile) == ((i + 1) as real - position) * s[i] + (position - i as real) * s[i + 1]
  {
    AtIsWeighted(s, position, i);
  }

  ghost predicate EvenlySpaced(s: seq<real>, first: real, step: real) {
    forall k :: 0 <= k < |s| ==> s[k] == first + k as real * step
  }

  lemma WeightedStep(first: real, step: real, i: real, position: real)
    ensures (i + 1.0 - position) * (first + i * step) + (position - i) * (first + (i + 1.0) * step)
            == first + position * step
  {
    var f := position - i;
    calc {
      (1.0 - f) * (first + i * step) + f * (first + (i + 1.0) * step);
      { assert (i + 1.0) * step == i * step + step; }
      (1.0 - f) * (first + i * step) + f * ((first + i * step) + step);
      first + i * step + f * step;
      { assert i * step + f * step == (i + f) * step; }
      first + position * step;
    }
  }

  lemma CellOf(s: seq<real>, position: real) returns (i: nat)
    requires |s| > 1 && 0.0 <= position <= (|s| - 1) as real
    ensures i + 1 < |s| && i as real <= position <= (i + 1) as real
  {
    i := if position.Floor == |s| - 1 then |s| - 2 else position.Floor;
  }

  lemma EvenlySpacedCell(s: seq<real>, first: real, step: real, position: real, i: nat)
    requires i + 1 < |s| && EvenlySpaced(s, first, step)
    ensures ((i + 1) as real - position) * s[i] + (position - i as real) * s[i + 1] == first + position * step
  {
    WeightedStep(first, step, i as real, position);
    assert (i + 1) as real == i as real + 1.0;
  }

  /** On an evenly spaced sample the percentiles lie on the line through it, at the quantile of its length. */
  lemma PercentileOfEvenlySpaced(s: seq<real>, first: real, step: real, quantile: real, position: real)
    requires |s| > 0 && 0.0 <= quantile <= 1.0 && EvenlySpaced(s, first, step)
    requires position == (|s| - 1) as real * quantile
    ensures Percentile(s, quantile) == first + position * step
  {
    PositionInRange(|s|, quantile);
    if |s| == 1 {
      assert position == 0.0 && s[0] == first + 0.0 * step;
    } else {
      var i := CellOf(s, position);
      PercentileIsWeighted(s, quantile, position, i);
      EvenlySpacedCell(s, first, step, position, i);
    }
  }

  lemma PercentileOfMiddle(s: seq<real>, k: nat)
    ensures |s| == 2 * k + 1 ==> Percentile(s, 0.50) == s[k]
    ensures |s| == 2 * k + 2 ==> Percentile(s, 0.50) == (s[k] + s[k + 1]) / 2.0
  {
    if |s| == 2 * k + 2 {
      PercentileIsWeighted(s, 0.50, (|s| - 1) as real * 0.50, k);
    }
  }

  lemma PercentileOfTwentieth(s: seq<real>, k: nat, m: nat, quantile: real)
    requires |s| == 20 * k + 1 && m <= 20 && quantile == m as real / 20.0
    ensures Percentile(s, quantile) == s[m * k]
  {
    assert (|s| - 1) as real * quantile == (m * k) as real by {
      assert (20 * k) as real == 20.0 * k as real && (m * k) as real == m as real * k as real;
    }
  }

  lemma {:induction false} SortedLength(values: seq<real>)
    ensures |Sorted(values)| == |values|
  {
    SortedMeaning(values);
  }

  /** The mid value of the sorted sample, the mean of the two in the middle when their number is even. */
  lemma {:induction false} MedianIsMiddle(values: seq<real>, k: nat)
    ensures var s := Sorted(values);
            && |s| == |values|
            && (|values| == 2 * k + 1 ==> Summary(values).median == s[k])
            && (|values| == 2 * k + 2 ==> Summary(values).median == (s[k] + s[k + 1]) / 2.0)
  {
    SortedLength(values);
    PercentileOfMiddle(Sorted(values), k);
  }

  /** When twenty equal steps lead through the sorted sample, its five percentiles stand where their names say. */
  lemma {:induction false} PercentilesOfTwentieths(values: seq<real>, k: nat)
    requires |values| == 20 * k + 1
    ensures var d, s := Summary(values), Sorted(values);
            && |s| == 20 * k + 1
            && d.p10 == s[2 * k] && d.p25 == s[5 * k] && d.median == s[10 * k] && d.p75 == s[15 * k]
            && d.p90 == s[18 * k]
  {
    SortedLength(values);
    var s := Sorted(values);
    PercentileOfTwentieth(s, k, 2, 0.10);
    PercentileOfTwentieth(s, k, 5, 0.25);
    PercentileOfTwentieth(s, k, 10, 0.50);
    PercentileOfTwentieth(s, k, 15, 0.75);
    PercentileOfTwentieth(s, k, 18, 0.90);
  }

  /** The reported mean is that of the sample as listed, not only of its sorted copy. */
  lemma SummaryMean(values: seq<real>)
    requires |values| > 0
    ensures Summary(values).mean == Mean(values)
  {
    MeanInRange(values);
    SortedLength(values);
  }

  /** The mean spreads the sum over the sample. */
  lemma MeanSpreadsSum(s: seq<real>, n: real)
    requires |s| > 0 && n == |s| as real
    ensures Mean(s) * n == Sum(s)
  {
    Quotient(Sum(s), n);
  }
}
