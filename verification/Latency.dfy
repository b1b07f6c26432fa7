/** Latency summaries of `ledgerStorageBenchmark.ts`: sorting and nearest-rank percentiles, over exact reals. */
module Latency {
  import opened Options
  import opened Seqs
  import opened Sorting

  datatype Summary = Summary(count: nat, minMs: Option<real>, maxMs: Option<real>, p50Ms: Option<real>,
                             p95Ms: Option<real>)

  ghost predicate Sorted(s: seq<real>) {
    forall i, j :: 0 <= i <= j < |s| ==> s[i] <= s[j]
  }

  /** The source's comparator, `left - right`. */
  predicate NoLarger(left: real, right: real) { left <= right }

  function SortAscending(values: seq<real>): (r: seq<real>)
    ensures Sorted(r) && multiset(r) == multiset(values)
  {
    SortRearranges(NoLarger, values);
    SortSorts(NoLarger, values);
    SortedAscends(Sort(NoLarger, values));
    Sort(NoLarger, values)
  }

  lemma SortedAscends(s: seq<real>)
    requires SortedBy(NoLarger, s)
    ensures Sorted(s)
  {
    forall i, j | 0 <= i < j < |s| ensures s[i] <= s[j] {
      SortedPairs(NoLarger, s, i, j);
    }
  }

  function Ceil(x: real): (n: int)
    ensures (n - 1) as real < x <= n as real
  {
    -((-x).Floor)
  }

  function Bounded(percentile: real): real {
    var atLeastZero := if percentile > 0.0 then percentile else 0.0;
    if atLeastZero < 100.0 then atLeastZero else 100.0
  }

  function RankIndex(percentile: real, n: nat): int {
    Ceil(Bounded(percentile) / 100.0 * n as real) - 1
  }

  function ComputePercentile(sorted: seq<real>, percentile: real): Option<real> {
    if |sorted| == 0 then None
    else if |sorted| == 1 then Some(sorted[0])
    else
      var index := RankIndex(percentile, |sorted|);
      var atLeastZero := if index > 0 then index else 0;
      Some(sorted[if atLeastZero < |sorted| - 1 then atLeastZero else |sorted| - 1])
  }

  function SummarizeLatencies(values: seq<real>): Summary {
    if |values| == 0 then Summary(0, None, None, None, None)
    else
      var sorted := SortAscending(values);
      assert |sorted| == |multiset(sorted)| == |values|;
      Summary(|sorted|, Some(sorted[0]), Some(sorted[|sorted| - 1]),
              ComputePercentile(sorted, 50.0), ComputePercentile(sorted, 95.0))
  }

  /** A missing value is never within a limit. */
  predicate Within(value: Option<real>, limit: real) {
    value.Some? && value.value <= limit
  }

  // ----- The nearest rank

  function AtMost(limit: real): real -> bool { x => x <= limit }
  function Below(limit: real): real -> bool { x => x < limit }

  /** `v` is where the ascending samples first reach `threshold` hundredths of a sample. */
  ghost predicate IsCut(s: seq<real>, threshold: real, v: real) {
    && v in s
    && threshold <= 100.0 * Count(s, AtMost(v)) as real
    && 100.0 * Count(s, Below(v)) as real < threshold
  }

  /** At least `percentile` percent of the samples are at most `v`, and fewer than that are below it. */
  ghost predicate IsNearestRank(s: seq<real>, percentile: real, v: real) {
    IsCut(s, percentile * |s| as real, v)
  }

  lemma SortedCounts(s: seq<real>, k: nat)
    requires Sorted(s) && k < |s|
    ensures Count(s, AtMost(s[k])) >= k + 1 && Count(s, Below(s[k])) <= k
  {
    CountAtLeast(s, k + 1, AtMost(s[k]));
    CountLimited(s, k, Below(s[k]));
  }

  lemma SortedSampleIsCut(s: seq<real>, k: nat, threshold: real)
    requires Sorted(s) && k < |s| && 100.0 * k as real < threshold <= 100.0 * (k + 1) as real
    ensures IsCut(s, threshold, s[k])
  {
    SortedCounts(s, k);
  }

  /** Two samples that cut at the same threshold are equal. */
  lemma CutIsUnique(s: seq<real>, threshold: real, v: real, w: real)
    requires IsCut(s, threshold, v) && IsCut(s, threshold, w)
    ensures v == w
  {
    if v < w {
      CountMonotone(s, AtMost(v), Below(w));
    } else if w < v {
      CountMonotone(s, AtMost(w), Below(v));
    }
  }

  lemma CutWithin(s: seq<real>, threshold: real, v: real, limit: real)
    requires IsCut(s, threshold, v)
    ensures v <= limit <==> threshold <= 100.0 * Count(s, AtMost(limit)) as real
  {
    if v <= limit {
      CountMonotone(s, AtMost(v), AtMost(limit));
    } else {
      CountMonotone(s, AtMost(limit), Below(v));
    }
  }

  lemma RankBounds(percentile: real, n: nat)
    requires percentile > 0.0 && n > 0
    ensures var k := RankIndex(percentile, n);
            0 <= k < n && 100.0 * k as real < Bounded(percentile) * n as real <= 100.0 * (k + 1) as real
  {
    var b, m := Bounded(percentile), n as real;
    var x := b / 100.0 * m;
    Hundredths(b, m, x);
    var k := Ceil(x) - 1;
    assert k as real < x <= (k + 1) as real;
  }

  lemma Hundredths(b: real, m: real, x: real)
    requires 0.0 < b <= 100.0 && m > 0.0 && x == b / 100.0 * m
    ensures 100.0 * x == b * m && 0.0 < x <= m
  {
    var c := b / 100.0;
    assert b == 100.0 * c;
    assert 0.0 < c * m <= 1.0 * m;
  }

  lemma RankMonotone(p: real, q: real, n: nat)
    requires p <= q
    ensures RankIndex(p, n) <= RankIndex(q, n)
  {
    var x, y := Bounded(p) / 100.0 * n as real, Bounded(q) / 100.0 * n as real;
    assert x <= y by {
      Scaled(Bounded(p) / 100.0, Bounded(q) / 100.0, n as real);
    }
    CeilMonotone(x, y);
  }

  lemma CeilMonotone(x: real, y: real)
    requires x <= y
    ensures Ceil(x) <= Ceil(y)
  {
  }

  lemma Scaled(c: real, d: real, m: real)
    requires c <= d && 0.0 <= m
    ensures c * m <= d * m
  {
    assert (d - c) * m >= 0.0;
  }

  lemma PercentileIsNearestRank(s: seq<real>, percentile: real)
    requires Sorted(s) && s != [] && percentile > 0.0
    ensures ComputePercentile(s, percentile).Some?
    ensures IsNearestRank(s, Bounded(percentile), ComputePercentile(s, percentile).value)
  {
    RankBounds(percentile, |s|);
    SortedSampleIsCut(s, RankIndex(percentile, |s|), Bounded(percentile) * |s| as real);
  }

  /** The percentile is the only sample that is a nearest rank. */
  lemma PercentileUnique(s: seq<real>, percentile: real, v: real)
    requires Sorted(s) && s != [] && percentile > 0.0
    ensures ComputePercentile(s, percentile) == Some(v)
       <==> IsNearestRank(s, if percentile < 100.0 then percentile else 100.0, v)
  {
    PercentileIsNearestRank(s, percentile);
    if IsNearestRank(s, Bounded(percentile), v) {
      CutIsUnique(s, Bounded(percentile) * |s| as real, v, ComputePercentile(s, percentile).value);
    }
  }

  /** A percentile is within a limit exactly when that share of the samples is. */
  lemma {:induction false} PercentileWithin(s: seq<real>, percentile: real, limit: real)
    requires Sorted(s) && s != [] && percentile > 0.0
    ensures Within(ComputePercentile(s, percentile), limit)
       <==> Bounded(percentile) * |s| as real <= 100.0 * Count(s, AtMost(limit)) as real
  {
    PercentileIsNearestRank(s, percentile);
    CutWithin(s, Bounded(percentile) * |s| as real, ComputePercentile(s, percentile).value, limit);
  }

  /** A percentile of zero, or one below it, is the smallest sample. */
  lemma LowestPercentile(s: seq<real>, percentile: real)
    requires Sorted(s) && s != [] && percentile <= 0.0
    ensures ComputePercentile(s, percentile) == Some(s[0])
  {
    var share := Bounded(percentile) / 100.0 * |s| as real;
    assert share == 0.0;
    assert Ceil(share) <= 0;
  }

  lemma PercentileMonotone(s: seq<real>, p: real, q: real)
    requires Sorted(s) && s != [] && p <= q
    ensures ComputePercentile(s, p).Some? && ComputePercentile(s, q).Some?
    ensures s[0] <= ComputePercentile(s, p).value <= ComputePercentile(s, q).value <= s[|s| - 1]
  {
    RankMonotone(p, q, |s|);
  }

  // ----- Summaries do not depend on the order in which the latencies arrived

  lemma {:induction false} SortedPermutationsEqual(s: seq<real>, t: seq<real>)
    requires Sorted(s) && Sorted(t) && multiset(s) == multiset(t)
    ensures s == t
  {
    assert |s| == |multiset(s)| == |multiset(t)| == |t|;
    if s != [] {
      assert s[0] in multiset(t) && t[0] in multiset(s);
      assert s[0] == t[0];
      SameTails(s, t);
      SortedPermutationsEqual(s[1..], t[1..]);
      assert s == [s[0]] + s[1..] == t;
    }
  }

  lemma SameTails(s: seq<real>, t: seq<real>)
    requires s != [] && t != [] && s[0] == t[0] && multiset(s) == multiset(t)
    ensures multiset(s[1..]) == multiset(t[1..])
  {
    assert s == [s[0]] + s[1..] && t == [s[0]] + t[1..];
    assert multiset(s[1..]) == multiset(s) - multiset{s[0]};
    assert multiset(t[1..]) == multiset(t) - multiset{s[0]};
  }

  lemma SummaryIgnoresOrder(values: seq<real>, others: seq<real>)
    requires multiset(values) == multiset(others)
    ensures SummarizeLatencies(values) == SummarizeLatencies(others)
  {
    assert |values| == |multiset(values)| == |multiset(others)| == |others|;
    SortedPermutationsEqual(SortAscending(values), SortAscending(others));
  }

  lemma SummaryOrdered(values: seq<real>)
    requires values != []
    ensures var s := SummarizeLatencies(values);
            && s.count == |values|
            && s.minMs.Some? && s.maxMs.Some? && s.p50Ms.Some? && s.p95Ms.Some?
            && s.minMs.value <= s.p50Ms.value <= s.p95Ms.value <= s.maxMs.value
            && (forall x :: x in values ==> s.minMs.value <= x <= s.maxMs.value)
            && s.minMs.value in values && s.maxMs.value in values
  {
    var sorted := SortAscending(values);
    assert |sorted| == |multiset(sorted)| == |values|;
    PercentileMonotone(sorted, 50.0, 95.0);
    forall x ensures x in values <==> x in sorted {
      assert x in values <==> x in multiset(values);
      assert x in sorted <==> x in multiset(sorted);
    }
  }

  lemma P95OfSorted(s: seq<real>, limit: real)
    requires Sorted(s) && s != []
    ensures Within(ComputePercentile(s, 95.0), limit) <==> 95 * |s| <= 100 * Count(s, AtMost(limit))
  {
    PercentileWithin(s, 95.0, limit);
    assert 95.0 * |s| as real == (95 * |s|) as real;
  }

  /** The 95th percentile of unsorted samples is within a limit exactly when 95 percent of them are. */
  lemma {:induction false} P95Within(values: seq<real>, limit: real)
    ensures Within(SummarizeLatencies(values).p95Ms, limit)
       <==> values != [] && 95 * |values| <= 100 * Count(values, AtMost(limit))
  {
    if values != [] {
      var sorted := SortAscending(values);
      assert |sorted| == |multiset(sorted)| == |multiset(values)| == |values|;
      P95OfSorted(sorted, limit);
      CountPermutation(values, sorted, AtMost(limit));
    }
  }

  lemma CutIgnoresOrder(values: seq<real>, others: seq<real>, threshold: real, v: real)
    requires multiset(values) == multiset(others) && IsCut(others, threshold, v)
    ensures IsCut(values, threshold, v)
  {
    assert v in multiset(others);
    CountPermutation(values, others, AtMost(v));
    CountPermutation(values, others, Below(v));
  }

  lemma MedianOfUnsorted(values: seq<real>)
    requires values != []
    ensures var p := ComputePercentile(SortAscending(values), 50.0);
            p.Some? && IsNearestRank(values, 50.0, p.value)
  {
    var sorted := SortAscending(values);
    assert |values| == |multiset(values)| == |multiset(sorted)| == |sorted|;
    PercentileIsNearestRank(sorted, 50.0);
    CutIgnoresOrder(values, sorted, 50.0 * |sorted| as real, ComputePercentile(sorted, 50.0).value);
  }

  lemma P95OfUnsorted(values: seq<real>)
    requires values != []
    ensures var p := ComputePercentile(SortAscending(values), 95.0);
            p.Some? && IsNearestRank(values, 95.0, p.value)
  {
    var sorted := SortAscending(values);
    assert |values| == |multiset(values)| == |multiset(sorted)| == |sorted|;
    PercentileIsNearestRank(sorted, 95.0);
    CutIgnoresOrder(values, sorted, 95.0 * |sorted| as real, ComputePercentile(sorted, 95.0).value);
  }

  /** The summary of unsorted samples: their number, extremes, and nearest ranks at 50 and 95 percent. */
  lemma {:induction false} SummaryMeaning(values: seq<real>)
    ensures var s := SummarizeLatencies(values);
            && s.count == |values|
            && (values == [] ==> s.minMs.None? && s.maxMs.None? && s.p50Ms.None? && s.p95Ms.None?)
            && (values != [] ==> s.minMs.Some? && s.maxMs.Some? && s.p50Ms.Some? && s.p95Ms.Some?)
    ensures values != [] ==>
              var s := SummarizeLatencies(values);
              && s.minMs.value in values && (forall x :: x in values ==> s.minMs.value <= x)
              && s.maxMs.value in values && (forall x :: x in values ==> x <= s.maxMs.value)
              && IsNearestRank(values, 50.0, s.p50Ms.value)
              && IsNearestRank(values, 95.0, s.p95Ms.value)
  {
    if values != [] {
      SummaryOrdered(values);
      MedianOfUnsorted(values);
      P95OfUnsorted(values);
    }
  }
}
