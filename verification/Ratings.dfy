/**
 Rating aggregation of app/modules/nanos/service.py: average, median and distribution of the approved
 scores of one nano. Amounts are in cents (hundredths of a star), the two decimals the source keeps; the
 database average is taken as exact.
 */
module Ratings {
  import opened Sorting

  predicate AllScores(s: seq<int>) {
    forall x | x in s :: 1 <= x <= 5
  }

  function Sum(s: seq<int>): int {
    if s == [] then 0 else Sum(s[..|s| - 1]) + s[|s| - 1]
  }

  function Count(s: seq<int>, score: int): nat {
    if s == [] then 0 else Count(s[..|s| - 1], score) + if s[|s| - 1] == score then 1 else 0
  }

  /** numerator / denominator to two decimals, ROUND_HALF_UP, in cents. */
  function QuantizeHalfUp(numerator: int, denominator: int): int
    requires denominator > 0
  {
    (200 * numerator + denominator) / (2 * denominator)
  }

  function AverageCents(scores: seq<int>): int {
    if scores == [] then 0 else QuantizeHalfUp(Sum(scores), |scores|)
  }

  function AtMost(): (int, int) -> bool {
    (a, b) => a <= b
  }

  function Ordered(scores: seq<int>): seq<int> {
    Sort(scores, AtMost())
  }

  /** The offset-based median of the ordered scores. */
  function MedianCents(scores: seq<int>): int {
    var n, ordered := |scores|, Ordered(scores);
    if n == 0 || |ordered| != n then 0
    else if n % 2 == 1 then QuantizeHalfUp(ordered[n / 2], 1)
    else QuantizeHalfUp(ordered[n / 2 - 1] + ordered[n / 2], 2)
  }

  /** The rows of the GROUP BY query: one per score that occurs. */
  function GroupByScore(scores: seq<int>, from: int): seq<(int, nat)>
    decreases 6 - from
  {
    if from > 5 then []
    else if Count(scores, from) > 0 then [(from, Count(scores, from))] + GroupByScore(scores, from + 1)
    else GroupByScore(scores, from + 1)
  }

  datatype Aggregation = Aggregation(averageCents: int, medianCents: int, count: nat, distribution: seq<nat>)

  function Distribution(scores: seq<int>): (d: seq<nat>)
    ensures |d| == 5
  {
    [Count(scores, 1), Count(scores, 2), Count(scores, 3), Count(scores, 4), Count(scores, 5)]
  }

  lemma {:induction false} GroupRows(scores: seq<int>, from: int)
    requires 1 <= from <= 6
    ensures forall r | r in GroupByScore(scores, from) :: from <= r.0 <= 5 && r.1 == Count(scores, r.0) > 0
    ensures forall k | from <= k <= 5 && Count(scores, k) > 0 :: (k, Count(scores, k)) in GroupByScore(scores, from)
    decreases 6 - from
  {
    if from <= 5 {
      GroupRows(scores, from + 1);
    }
  }

  method CalculateAggregation(scores: seq<int>) returns (a: Aggregation)
    requires AllScores(scores)
    ensures a == Aggregation(AverageCents(scores), MedianCents(scores), |scores|, Distribution(scores))
  {
    hide Sum, Ordered, Sort;
    var count := |scores|;
    if count == 0 {
      return Aggregation(0, 0, 0, [0, 0, 0, 0, 0]);
    }
    var average := QuantizeHalfUp(Sum(scores), count);
    var ordered := Ordered(scores);
    OrderedFacts(scores);
    var median;
    if count % 2 == 1 {
      var offset := count / 2;
      median := QuantizeHalfUp(ordered[offset], 1);
    } else {
      var offset := count / 2 - 1;
      median := QuantizeHalfUp(ordered[offset] + ordered[offset + 1], 2);
    }

    var rows := GroupByScore(scores, 1);
    GroupRows(scores, 1);
    var distribution := CountRows(scores, rows);
    return Aggregation(average, median, count, distribution);
  }

  /** distribution_counts: zero for every score, then overwritten by the rows of the query. */
  method CountRows(scores: seq<int>, rows: seq<(int, nat)>) returns (counts: seq<nat>)
    requires forall r | r in rows :: 1 <= r.0 <= 5 && r.1 == Count(scores, r.0)
    requires forall k | 1 <= k <= 5 && Count(scores, k) > 0 :: (k, Count(scores, k)) in rows
    ensures counts == Distribution(scores)
  {
    hide Count;
    counts := [0, 0, 0, 0, 0];
    for i := 0 to |rows|
      invariant |counts| == 5
      invariant forall k | 0 <= k < 5 :: counts[k] == 0 || counts[k] == Count(scores, k + 1)
      invariant forall j | 0 <= j < i :: counts[rows[j].0 - 1] == rows[j].1
    {
      assert rows[i] in rows;
      counts := counts[rows[i].0 - 1 := rows[i].1];
    }
    forall k | 0 <= k < 5
      ensures counts[k] == Count(scores, k + 1)
    {
      if Count(scores, k + 1) > 0 {
        var j :| 0 <= j < |rows| && rows[j] == (k + 1, Count(scores, k + 1));
      }
    }
    assert counts == Distribution(scores);
  }

  // ---- ordering and counting ------------------------------------------------------------------------

  lemma OrderedFacts(scores: seq<int>)
    ensures |Ordered(scores)| == |scores| && multiset(Ordered(scores)) == multiset(scores)
    ensures SortedBy(Ordered(scores), AtMost())
  {
    SortSorted(scores, AtMost());
  }

  function CountUpTo(s: seq<int>, limit: int): nat {
    if s == [] then 0 else CountUpTo(s[..|s| - 1], limit) + if s[|s| - 1] <= limit then 1 else 0
  }

  lemma {:induction false} CountUpToConcat(a: seq<int>, b: seq<int>, limit: int)
    ensures CountUpTo(a + b, limit) == CountUpTo(a, limit) + CountUpTo(b, limit)
  {
    if b == [] {
      assert a + b == a;
    } else {
      var n := |b| - 1;
      assert (a + b)[..|a + b| - 1] == a + b[..n];
      CountUpToConcat(a, b[..n], limit);
    }
  }

  lemma {:induction false} InsertCounts(x: int, s: seq<int>, limit: int)
    ensures CountUpTo(Insert(x, s, AtMost()), limit) == CountUpTo([x], limit) + CountUpTo(s, limit)
  {
    if s == [] || x <= s[0] {
      CountUpToConcat([x], s, limit);
    } else {
      InsertCounts(x, s[1..], limit);
      CountUpToConcat([s[0]], Insert(x, s[1..], AtMost()), limit);
      CountUpToConcat([s[0]], s[1..], limit);
      assert s == [s[0]] + s[1..];
    }
  }

  lemma {:induction false} OrderedCounts(s: seq<int>, limit: int)
    ensures CountUpTo(Ordered(s), limit) == CountUpTo(s, limit)
  {
    if s != [] {
      OrderedCounts(s[1..], limit);
      InsertCounts(s[0], Ordered(s[1..]), limit);
      CountUpToConcat([s[0]], s[1..], limit);
      assert s == [s[0]] + s[1..];
    }
  }

  lemma {:induction false} CountUpToAll(s: seq<int>, limit: int)
    ensures CountUpTo(s, limit) <= |s|
    ensures (forall x | x in s :: x <= limit) ==> CountUpTo(s, limit) == |s|
  {
    if s != [] {
      var init, last := s[..|s| - 1], s[|s| - 1];
      assert last in s && forall x | x in init :: x in s;
      CountUpToAll(init, limit);
    }
  }

  /** In ordered scores, position k holds at most `limit` exactly when more than k scores do. */
  lemma {:induction false} OrderedCut(s: seq<int>, k: nat, limit: int)
    requires SortedBy(s, AtMost()) && k < |s|
    ensures s[k] <= limit <==> CountUpTo(s, limit) > k
  {
    var n := |s| - 1;
    CountUpToAll(s, limit);
    CountUpToAll(s[..n], limit);
    if s[n] <= limit {
      assert forall i | 0 <= i < n :: AtMost()(s[i], s[n]);
      assert forall x | x in s :: x <= limit;
      assert AtMost()(s[k], s[n]) || k == n;
    } else if k < n {
      OrderedCut(s[..n], k, limit);
    }
  }

  // ---- the distribution determines everything --------------------------------------------------------

  function Cumulative(distribution: seq<nat>, score: int): nat
    requires |distribution| == 5 && 0 <= score <= 5
  {
    if score == 0 then 0 else Cumulative(distribution, score - 1) + distribution[score - 1]
  }

  /** The score at position k of the ordered list, read off the cumulative counts. */
  function ScoreAt(distribution: seq<nat>, k: nat, from: int): int
    requires |distribution| == 5 && 1 <= from <= 5
    decreases 5 - from
  {
    if from == 5 || Cumulative(distribution, from) > k then from else ScoreAt(distribution, k, from + 1)
  }

  function MedianFromDistribution(distribution: seq<nat>): int
    requires |distribution| == 5
  {
    var n := Cumulative(distribution, 5);
    if n == 0 then 0
    else if n % 2 == 1 then 100 * ScoreAt(distribution, n / 2, 1)
    else 50 * (ScoreAt(distribution, n / 2 - 1, 1) + ScoreAt(distribution, n / 2, 1))
  }

  lemma {:induction false} CumulativeCounts(s: seq<int>, score: int)
    requires AllScores(s) && 0 <= score <= 5
    ensures Cumulative(Distribution(s), score) == CountUpTo(s, score)
  {
    if s == [] {
      assert Distribution(s) == [0, 0, 0, 0, 0];
      CumulativeOf([0, 0, 0, 0, 0]);
    } else {
      var init, last := s[..|s| - 1], s[|s| - 1];
      assert last in s && forall x | x in init :: x in s;
      hide Cumulative;
      CumulativeCounts(init, score);
      CumulativeOf(Distribution(init));
      CumulativeOf(Distribution(s));
      assert forall k | 0 <= k < 5 :: Distribution(s)[k] == Distribution(init)[k] + if last == k + 1 then 1 else 0;
      hide Distribution, Count;
    }
  }

  lemma CumulativeOf(d: seq<nat>)
    requires |d| == 5
    ensures Cumulative(d, 0) == 0 && Cumulative(d, 1) == d[0] && Cumulative(d, 2) == d[0] + d[1]
    ensures Cumulative(d, 3) == d[0] + d[1] + d[2] && Cumulative(d, 4) == d[0] + d[1] + d[2] + d[3]
    ensures Cumulative(d, 5) == d[0] + d[1] + d[2] + d[3] + d[4]
  {
    assert Cumulative(d, 1) == Cumulative(d, 0) + d[0];
    assert Cumulative(d, 2) == Cumulative(d, 1) + d[1];
    assert Cumulative(d, 3) == Cumulative(d, 2) + d[2];
    assert Cumulative(d, 4) == Cumulative(d, 3) + d[3];
  }

  lemma {:induction false} ScoreAtLeast(scores: seq<int>, k: nat, from: int)
    requires AllScores(scores) && k < |scores| && 1 <= from <= 5
    requires Ordered(scores) != [] && |Ordered(scores)| == |scores| && Ordered(scores)[k] >= from
    ensures ScoreAt(Distribution(scores), k, from) == Ordered(scores)[k]
    decreases 5 - from
  {
    var ordered := Ordered(scores);
    OrderedFacts(scores);
    OrderedCut(ordered, k, from);
    OrderedCounts(scores, from);
    CumulativeCounts(scores, from);
    assert ordered[k] in multiset(ordered) && ordered[k] in scores;
    if ordered[k] > from {
      ScoreAtLeast(scores, k, from + 1);
    }
  }

  /**
   The reported median, found by sorting and offset, is the one the reported distribution implies; the
   distribution adds up to the reported count; and its weighted sum is the sum behind the average.
   */
  lemma AggregationConsistent(scores: seq<int>)
    requires AllScores(scores)
    ensures MedianCents(scores) == MedianFromDistribution(Distribution(scores))
    ensures Cumulative(Distribution(scores), 5) == |scores|
    ensures
      var d := Distribution(scores);
      Sum(scores) == d[0] + 2 * d[1] + 3 * d[2] + 4 * d[3] + 5 * d[4]
  {
    hide Ordered, Distribution, ScoreAt, Cumulative, QuantizeHalfUp, Sum;
    var n, ordered := |scores|, Ordered(scores);
    OrderedFacts(scores);
    CumulativeCounts(scores, 5);
    CountUpToAll(scores, 5);
    assert Cumulative(Distribution(scores), 5) == n;
    WeightedSum(scores);
    if n % 2 == 1 {
      HalfUpExact(ordered[n / 2]);
    } else if n > 0 {
      HalfUpExact(ordered[n / 2 - 1] + ordered[n / 2]);
    }
    forall k | 0 <= k < n
      ensures ScoreAt(Distribution(scores), k, 1) == ordered[k]
    {
      assert ordered[k] in multiset(ordered) && ordered[k] in scores;
      ScoreAtLeast(scores, k, 1);
    }
  }

  lemma HalfUpExact(x: int)
    ensures QuantizeHalfUp(x, 1) == 100 * x && QuantizeHalfUp(x, 2) == 50 * x
  {
  }

  lemma {:induction false} WeightedSum(s: seq<int>)
    requires AllScores(s)
    ensures
      var d := Distribution(s);
      Sum(s) == d[0] + 2 * d[1] + 3 * d[2] + 4 * d[3] + 5 * d[4]
  {
    if s != [] {
      var init, last := s[..|s| - 1], s[|s| - 1];
      assert last in s && forall x | x in init :: x in s;
      WeightedSum(init);
    }
  }

  // ---- rounding and bounds -----------------------------------------------------------------------------

  /** The quantised value is the nearest number of cents, and a tie goes up. */
  lemma QuantizeNearest(numerator: int, denominator: int)
    requires denominator > 0
    ensures
      var cents := QuantizeHalfUp(numerator, denominator);
      2 * denominator * cents - denominator <= 200 * numerator < 2 * denominator * cents + denominator
  {
    var a, b := 200 * numerator + denominator, 2 * denominator;
    assert a == b * (a / b) + a % b && 0 <= a % b < b;
  }

  lemma OneMore(x: int, n: int)
    ensures x * (n + 1) == x * n + x
  {
  }

  lemma {:induction false} SumBounds(s: seq<int>, low: int, high: int)
    requires forall x | x in s :: low <= x <= high
    ensures low * |s| <= Sum(s) <= high * |s|
  {
    if s != [] {
      var init, last := s[..|s| - 1], s[|s| - 1];
      assert last in s && forall x | x in init :: x in s;
      SumBounds(init, low, high);
      OneMore(low, |init|);
      OneMore(high, |init|);
    }
  }

  lemma QuantizeBounds(numerator: int, denominator: int, low: int, high: int)
    requires denominator > 0 && low * denominator <= numerator <= high * denominator
    ensures 100 * low <= QuantizeHalfUp(numerator, denominator) <= 100 * high
  {
    var a, b := 200 * numerator + denominator, 2 * denominator;
    assert a >= 100 * low * b by { assert 200 * (low * denominator) == 100 * low * b; }
    assert a < (100 * high + 1) * b by { assert 200 * (high * denominator) == 100 * high * b; }
    QuotientBetween(a, b, 100 * low, 100 * high);
  }

  lemma QuotientBetween(a: int, b: int, low: int, high: int)
    requires b > 0 && low * b <= a < (high + 1) * b
    ensures low <= a / b <= high
  {
    var q := a / b;
    assert q * b <= a < (q + 1) * b;
    if q < low {
      Scale(q + 1, low, b);
    }
    if q > high {
      Scale(high + 1, q, b);
    }
  }

  lemma Scale(x: int, y: int, b: int)
    requires x <= y && b > 0
    ensures x * b <= y * b
  {
  }

  /** Average and median lie between the least and the greatest score. */
  lemma AggregationBounds(scores: seq<int>, low: int, high: int)
    requires scores != [] && forall x | x in scores :: low <= x <= high
    ensures 100 * low <= AverageCents(scores) <= 100 * high
    ensures 100 * low <= MedianCents(scores) <= 100 * high
  {
    hide QuantizeHalfUp, Ordered;
    var n, ordered := |scores|, Ordered(scores);
    SumBounds(scores, low, high);
    QuantizeBounds(Sum(scores), n, low, high);
    OrderedFacts(scores);
    forall k | 0 <= k < n
      ensures low <= ordered[k] <= high
    {
      assert ordered[k] in multiset(ordered) && ordered[k] in scores;
    }
    if n % 2 == 1 {
      QuantizeBounds(ordered[n / 2], 1, low, high);
    } else {
      QuantizeBounds(ordered[n / 2 - 1] + ordered[n / 2], 2, low, high);
    }
  }

  /** Rounding moves the mean by at most half a cent. */
  lemma AverageIsNear(scores: seq<int>)
    requires scores != []
    ensures
      var n := |scores|;
      -n <= 2 * (n * AverageCents(scores) - 100 * Sum(scores)) <= n
  {
    hide QuantizeHalfUp, Sum;
    var n := |scores|;
    QuantizeNearest(Sum(scores), n);
    assert 2 * n * AverageCents(scores) == 2 * (n * AverageCents(scores));
  }
}
