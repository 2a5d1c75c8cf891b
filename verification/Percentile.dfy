/** Latency statistics (backend/gaf_core/perf_monitor.py): the recorder and the interpolated
    percentiles of `_compute_stats`, over reals, with any monotone rounding function. */
module Percentile {
  import opened Prelude
  import opened Sorting

  function Le(): (real, real) -> bool {
    (x: real, y: real) => x <= y
  }

  function Ascending(values: seq<real>): seq<real> {
    Sorted(values, Le())
  }

  lemma AscendingCorrect(values: seq<real>)
    ensures Ordered(Ascending(values), Le()) && |Ascending(values)| == |values|
    ensures multiset(Ascending(values)) == multiset(values)
    ensures forall i, j :: 0 <= i <= j < |values| ==> Ascending(values)[i] <= Ascending(values)[j]
  {
    SortedCorrect(values, Le());
    forall i, j | 0 <= i <= j < |values| ensures Ascending(values)[i] <= Ascending(values)[j] {
      if i < j { assert Le()(Ascending(values)[i], Ascending(values)[j]); }
    }
  }

  /** Position of the p-th percentile among `n` sorted values. */
  function Position(n: nat, p: real): real
    requires n > 0
  {
    (p / 100.0) * (n - 1) as real
  }

  lemma PositionInRange(n: nat, p: real)
    requires n > 0 && 0.0 <= p <= 100.0
    ensures 0.0 <= Position(n, p) <= (n - 1) as real
    ensures 0 <= Position(n, p).Floor <= Ceil(Position(n, p)) <= n - 1
    ensures Ceil(Position(n, p)) <= Position(n, p).Floor + 1
    ensures Position(n, p).Floor == Ceil(Position(n, p)) <==> Position(n, p) == Position(n, p).Floor as real
  {
    var m, q := (n - 1) as real, p / 100.0;
    MulNonNegative(q, m);
    MulNonNegative(1.0 - q, m);
    assert (1.0 - q) * m == m - q * m;
  }

  /** `_percentile`, on the sorted values. */
  function AtPercentile(s: seq<real>, p: real): real
    requires s != [] && 0.0 <= p <= 100.0
  {
    if |s| == 1 then s[0]
    else
      var k := Position(|s|, p);
      PositionInRange(|s|, p);
      var f, c := k.Floor, Ceil(k);
      if f == c then s[f] else s[f] * (c as real - k) + s[c] * (k - f as real)
  }

  lemma Interpolate(lo: real, hi: real, u: real, t: real)
    requires lo <= hi && u + t == 1.0 && 0.0 <= t && 0.0 <= u
    ensures lo <= lo * u + hi * t <= hi
  {
    MulNonNegative(hi - lo, t);
    MulNonNegative(hi - lo, u);
    assert u == 1.0 - t;
  }

  lemma InterpolateMonotone(lo: real, hi: real, u: real, t: real, u': real, t': real)
    requires lo <= hi && u + t == 1.0 && u' + t' == 1.0 && t <= t'
    ensures lo * u + hi * t <= lo * u' + hi * t'
  {
  }

  /** A percentile lies between the two sorted values around its position. */
  lemma BetweenNeighbours(s: seq<real>, p: real)
    requires s != [] && Increasing(s) && 0.0 <= p <= 100.0
    ensures var k := Position(|s|, p);
            0 <= k.Floor <= Ceil(k) < |s| && s[k.Floor] <= AtPercentile(s, p) <= s[Ceil(k)]
  {
    PositionInRange(|s|, p);
    var k := Position(|s|, p);
    if k.Floor < Ceil(k) {
      Interpolate(s[k.Floor], s[Ceil(k)], Ceil(k) as real - k, k - k.Floor as real);
    }
  }

  lemma Shares(lo: real, hi: real, u: real, t: real)
    requires u + t == 1.0
    ensures lo * u + hi * t == lo + t * (hi - lo)
  {
    assert u == 1.0 - t;
  }

  lemma InsideCell(s: seq<real>, p: real, k: real, f: int)
    requires |s| > 1 && 0.0 <= p <= 100.0 && k == Position(|s|, p) && f == k.Floor && f < Ceil(k)
    ensures 0 <= f && f + 1 < |s| && AtPercentile(s, p) == s[f] + (k - f as real) * (s[f + 1] - s[f])
  {
    PositionInRange(|s|, p);
    assert Ceil(k) == f + 1;
    Shares(s[f], s[f + 1], (f + 1) as real - k, k - f as real);
  }

  lemma AtEntry(s: seq<real>, p: real, k: real, f: int)
    requires s != [] && 0.0 <= p <= 100.0 && k == Position(|s|, p) && f == k.Floor && f == Ceil(k)
    ensures 0 <= f < |s| && k == f as real && AtPercentile(s, p) == s[f]
  {
    PositionInRange(|s|, p);
  }

  /** The line through the entries: at a whole position the entry, between two the entry before and the share
      that has been passed of the step to the next. */
  ghost function Interpolated(s: seq<real>, k: real): real
    requires s != [] && 0.0 <= k <= (|s| - 1) as real
  {
    var f := k.Floor;
    if f + 1 == |s| then s[f] else s[f] + (k - f as real) * (s[f + 1] - s[f])
  }

  /** The p-th percentile lies on that line, p hundredths of the way from the first entry to the last. */
  lemma InterpolationMeaning(s: seq<real>, p: real, k: real)
    requires s != [] && 0.0 <= p <= 100.0 && k == (p / 100.0) * (|s| - 1) as real
    ensures 0.0 <= k <= (|s| - 1) as real && AtPercentile(s, p) == Interpolated(s, k)
  {
    PositionInRange(|s|, p);
    if k.Floor < Ceil(k) {
      InsideCell(s, p, k, k.Floor);
    } else {
      AtEntry(s, p, k, k.Floor);
    }
  }

  /** The ends of the scale are the smallest and the largest value. */
  lemma PercentileEnds(s: seq<real>)
    requires s != []
    ensures AtPercentile(s, 0.0) == s[0] && AtPercentile(s, 100.0) == s[|s| - 1]
  {
  }

  lemma PositionMonotone(n: nat, p: real, q: real)
    requires n > 0 && p <= q
    ensures Position(n, p) <= Position(n, q)
  {
  }

  lemma SameCell(s: seq<real>, p: real, q: real)
    requires |s| > 1 && Increasing(s) && 0.0 <= p <= q <= 100.0
    requires Position(|s|, p) <= Position(|s|, q) && Position(|s|, p).Floor == Position(|s|, q).Floor
    ensures AtPercentile(s, p) <= AtPercentile(s, q)
  {
    var k, l := Position(|s|, p), Position(|s|, q);
    PositionInRange(|s|, p);
    PositionInRange(|s|, q);
    BetweenNeighbours(s, q);
    var f := k.Floor;
    if Ceil(k) == f + 1 {
      var c := (f + 1) as real;
      InterpolateMonotone(s[f], s[f + 1], c - k, k - f as real, c - l, l - f as real);
    }
  }

  /** Higher percentiles are not smaller. */
  lemma PercentileMonotone(s: seq<real>, p: real, q: real)
    requires s != [] && Increasing(s) && 0.0 <= p <= q <= 100.0
    ensures AtPercentile(s, p) <= AtPercentile(s, q)
  {
    if |s| > 1 {
      var k, l := Position(|s|, p), Position(|s|, q);
      PositionMonotone(|s|, p, q);
      PositionInRange(|s|, p);
      PositionInRange(|s|, q);
      BetweenNeighbours(s, p);
      BetweenNeighbours(s, q);
      if k.Floor < l.Floor {
        assert s[Ceil(k)] <= s[l.Floor];
      } else {
        assert k.Floor == l.Floor;
        SameCell(s, p, q);
      }
    }
  }

  lemma SameHead(s: seq<real>, t: seq<real>)
    requires s != [] && t != [] && Increasing(s) && Increasing(t) && multiset(s) == multiset(t)
    ensures s[0] == t[0]
  {
    assert s[0] in multiset(t) && t[0] in multiset(s);
    var i :| 0 <= i < |t| && t[i] == s[0];
    var j :| 0 <= j < |s| && s[j] == t[0];
  }

  lemma SameTail(s: seq<real>, t: seq<real>)
    requires s != [] && t != [] && s[0] == t[0] && multiset(s) == multiset(t)
    ensures multiset(s[1..]) == multiset(t[1..])
  {
    assert s == [s[0]] + s[1..] && t == [t[0]] + t[1..];
    assert multiset(s[1..]) == multiset(s) - multiset{s[0]};
    assert multiset(t[1..]) == multiset(t) - multiset{t[0]};
  }

  /** Two sorted sequences with the same elements are the same sequence. */
  lemma {:induction false} SortedUnique(s: seq<real>, t: seq<real>)
    requires Increasing(s) && Increasing(t) && multiset(s) == multiset(t)
    ensures s == t
    decreases |s|
  {
    assert |multiset(s)| == |s| && |multiset(t)| == |t|;
    if s != [] {
      SameHead(s, t);
      SameTail(s, t);
      SortedUnique(s[1..], t[1..]);
      assert s == [s[0]] + s[1..] && t == [t[0]] + t[1..];
    }
  }

  // ----- statistics -----

  datatype Stats = Stats(count: nat, avg: real, p50: real, p95: real, p99: real, max: real)

  function Sum(s: seq<real>): real {
    if s == [] then 0.0 else s[0] + Sum(s[1..])
  }

  /** `_compute_stats`. */
  function ComputeStats(values: seq<real>, round: real -> real): Stats {
    if values == [] then Stats(0, 0.0, 0.0, 0.0, 0.0, 0.0)
    else
      var s := Ascending(values);
      AscendingCorrect(values);
      Stats(|s|, round(Sum(s) / |s| as real), round(AtPercentile(s, 50.0)), round(AtPercentile(s, 95.0)),
            round(AtPercentile(s, 99.0)), round(s[|s| - 1]))
  }

  /** The order in which measurements arrived does not matter. */
  lemma StatsOrderFree(v: seq<real>, w: seq<real>, round: real -> real)
    requires multiset(v) == multiset(w)
    ensures ComputeStats(v, round) == ComputeStats(w, round)
  {
    AscendingCorrect(v);
    AscendingCorrect(w);
    assert |multiset(v)| == |v| && |multiset(w)| == |w|;
    SortedUnique(Ascending(v), Ascending(w));
  }

  lemma {:induction false} SumMeaning(before: seq<real>, x: real, after: seq<real>)
    ensures Sum(before + [x] + after) == x + Sum(before + after)
    decreases |before|
  {
    var all := before + [x] + after;
    if before == [] {
      assert all[1..] == after && before + after == after;
    } else {
      assert all[1..] == before[1..] + [x] + after && (before + after)[1..] == before[1..] + after;
      SumMeaning(before[1..], x, after);
    }
  }

  lemma RemoveFromBoth(s: seq<real>, t: seq<real>) returns (i: nat)
    requires s != [] && multiset(s) == multiset(t)
    ensures i < |t| && t[i] == s[0] && multiset(s[1..]) == multiset(t[..i] + t[i + 1..])
  {
    assert s[0] in multiset(t);
    i :| 0 <= i < |t| && t[i] == s[0];
    assert s == [s[0]] + s[1..] && t == t[..i] + [t[i]] + t[i + 1..];
    assert multiset(s[1..]) == multiset(s) - multiset{s[0]};
    assert multiset(t[..i] + t[i + 1..]) == multiset(t) - multiset{s[0]};
  }

  /** The order of the terms does not change a sum. */
  lemma {:induction false} SumOrderFree(s: seq<real>, t: seq<real>)
    requires multiset(s) == multiset(t)
    ensures Sum(s) == Sum(t)
    decreases |s|
  {
    assert |multiset(s)| == |s| && |multiset(t)| == |t|;
    if s != [] {
      var i := RemoveFromBoth(s, t);
      SumOrderFree(s[1..], t[..i] + t[i + 1..]);
      SumMeaning(t[..i], t[i], t[i + 1..]);
      assert t == t[..i] + [t[i]] + t[i + 1..];
    }
  }

  lemma OneMore(x: real, n: nat)
    ensures x * (n + 1) as real == x + x * n as real
  {
    assert (n + 1) as real == n as real + 1.0;
  }

  lemma {:induction false} SumBounds(s: seq<real>, lo: real, hi: real)
    requires forall v :: v in s ==> lo <= v <= hi
    ensures lo * |s| as real <= Sum(s) <= hi * |s| as real
    decreases |s|
  {
    if s != [] {
      var rest, n := s[1..], |s| - 1;
      assert s == [s[0]] + rest && |rest| == n && forall v :: v in rest ==> v in s;
      SumBounds(rest, lo, hi);
      OneMore(lo, n);
      OneMore(hi, n);
      assert s[0] in s && Sum(s) == s[0] + Sum(rest);
    }
  }

  lemma Quotient(sum: real, n: real, lo: real, hi: real)
    requires n > 0.0 && lo * n <= sum <= hi * n
    ensures lo <= sum / n <= hi && (sum / n) * n == sum
  {
  }

  lemma MeanBounds(values: seq<real>, lo: real, hi: real) returns (mean: real)
    requires values != [] && forall v :: v in values ==> lo <= v <= hi
    ensures mean == Sum(values) / |values| as real && mean * |values| as real == Sum(values) && lo <= mean <= hi
  {
    SumBounds(values, lo, hi);
    Quotient(Sum(values), |values| as real, lo, hi);
    mean := Sum(values) / |values| as real;
  }

  lemma AverageIs(values: seq<real>, round: real -> real, mean: real)
    requires values != [] && mean == Sum(values) / |values| as real
    ensures ComputeStats(values, round).avg == round(mean)
  {
    AscendingCorrect(values);
    SumOrderFree(Ascending(values), values);
  }

  lemma RoundBetween(round: real -> real, lo: real, x: real, hi: real)
    requires Monotone(round) && lo <= x <= hi
    ensures round(lo) <= round(x) <= round(hi)
  {
  }

  /** The average is the rounded mean of the measurements as they came: `mean` times their number is their
      sum. It lies between the rounded bounds of any range that holds them all. */
  lemma AverageMeaning(values: seq<real>, round: real -> real, lo: real, hi: real) returns (mean: real)
    requires values != [] && Monotone(round) && forall v :: v in values ==> lo <= v <= hi
    ensures mean * |values| as real == Sum(values)
    ensures ComputeStats(values, round).avg == round(mean) && round(lo) <= round(mean) <= round(hi)
  {
    mean := MeanBounds(values, lo, hi);
    AverageIs(values, round, mean);
    RoundBetween(round, lo, mean, hi);
  }

  ghost predicate IsLeast(x: real, values: seq<real>) {
    x in values && forall v :: v in values ==> x <= v
  }

  ghost predicate IsGreatest(x: real, values: seq<real>) {
    x in values && forall v :: v in values ==> v <= x
  }

  lemma EndsAreExtremes(values: seq<real>)
    requires values != []
    ensures |Ascending(values)| == |values|
    ensures IsLeast(Ascending(values)[0], values) && IsGreatest(Ascending(values)[|values| - 1], values)
  {
    AscendingCorrect(values);
    var s := Ascending(values);
    assert s[0] in multiset(values) && s[|s| - 1] in multiset(values);
    forall v | v in values ensures s[0] <= v <= s[|s| - 1] {
      assert v in multiset(s);
    }
  }

  /** For every non-empty input: rounded minimum <= p50 <= p95 <= p99 <= max, and max is the rounded
      largest measurement. */
  lemma StatsOrdered(values: seq<real>, round: real -> real, least: real, most: real)
    requires values != [] && Monotone(round) && IsLeast(least, values) && IsGreatest(most, values)
    ensures var st := ComputeStats(values, round);
            st.count == |values| && round(least) <= st.p50 <= st.p95 <= st.p99 <= st.max == round(most)
  {
    AscendingCorrect(values);
    EndsAreExtremes(values);
    var s := Ascending(values);
    assert Increasing(s) && s[0] == least && s[|s| - 1] == most;
    PercentileMonotone(s, 50.0, 95.0);
    PercentileMonotone(s, 95.0, 99.0);
    BetweenNeighbours(s, 50.0);
    BetweenNeighbours(s, 99.0);
  }

  /** `x` is the rounded entry at `share` of the way from the first to the last. */
  ghost predicate IsAt(x: real, s: seq<real>, share: real, round: real -> real)
    requires s != [] && 0.0 <= share <= 1.0
  {
    var k := share * (|s| - 1) as real;
    0.0 <= k <= (|s| - 1) as real && x == round(Interpolated(s, k))
  }

  lemma AtShare(s: seq<real>, p: real, round: real -> real)
    requires s != [] && 0.0 <= p <= 100.0
    ensures IsAt(round(AtPercentile(s, p)), s, p / 100.0, round)
  {
    InterpolationMeaning(s, p, (p / 100.0) * (|s| - 1) as real);
  }

  lemma StatsAre(values: seq<real>, s: seq<real>, round: real -> real)
    requires values != [] && s == Ascending(values)
    ensures s != [] && ComputeStats(values, round).p50 == round(AtPercentile(s, 50.0))
    ensures ComputeStats(values, round).p95 == round(AtPercentile(s, 95.0))
    ensures ComputeStats(values, round).p99 == round(AtPercentile(s, 99.0))
    ensures ComputeStats(values, round).max == round(s[|s| - 1]) && ComputeStats(values, round).count == |s|
  {
    AscendingCorrect(values);
  }

  /** What the numbers are: how many measurements there are, and of the measurements in ascending order the
      places 50, 95 and 99 hundredths up, and the last, rounded. */
  lemma StatsMeaning(values: seq<real>, round: real -> real) returns (s: seq<real>)
    requires values != []
    ensures multiset(s) == multiset(values) && Increasing(s) && |s| == |values|
    ensures var st := ComputeStats(values, round);
            && st.count == |values| && st.max == round(s[|s| - 1])
            && IsAt(st.p50, s, 0.5, round) && IsAt(st.p95, s, 0.95, round) && IsAt(st.p99, s, 0.99, round)
  {
    s := Ascending(values);
    AscendingCorrect(values);
    StatsAre(values, s, round);
    AtShare(s, 50.0, round);
    AtShare(s, 95.0, round);
    AtShare(s, 99.0, round);
  }

  // ----- the monitor -----

  datatype Sample = Sample(name: string, elapsed: real)

  /** The measurements of one name, in the order of the log. */
  function Elapsed(log: seq<Sample>, name: string): seq<real> {
    if log == [] then []
    else
      var n := |log| - 1;
      Elapsed(log[..n], name) + if log[n].name == name then [log[n].elapsed] else []
  }

  /** What `get_aggregates` answers after the records of `log`. */
  ghost predicate AggregatesOf(stats: map<string, Stats>, log: seq<Sample>, round: real -> real) {
    && (forall name :: name in stats <==> exists x :: x in log && x.name == name)
    && (forall name :: name in stats ==> stats[name] == ComputeStats(Elapsed(log, name), round))
  }

  lemma {:induction false} ElapsedCount(log: seq<Sample>, name: string, v: real)
    ensures multiset(Elapsed(log, name))[v] == multiset(log)[Sample(name, v)]
    decreases |log|
  {
    if log != [] {
      var n := |log| - 1;
      var last := log[n];
      ElapsedCount(log[..n], name, v);
      assert log == log[..n] + [last];
      assert multiset(log) == multiset(log[..n]) + multiset{last};
      assert last == Sample(name, v) <==> last.name == name && last.elapsed == v;
    }
  }

  lemma SameElapsed(a: seq<Sample>, b: seq<Sample>, name: string)
    requires multiset(a) == multiset(b)
    ensures multiset(Elapsed(a, name)) == multiset(Elapsed(b, name))
  {
    forall v ensures multiset(Elapsed(a, name))[v] == multiset(Elapsed(b, name))[v] {
      ElapsedCount(a, name, v);
      ElapsedCount(b, name, v);
    }
  }

  /** A name has measurements exactly when it was recorded, and their order in the log, hence the
      interleaving of the recording threads, does not reach any statistic. */
  lemma AggregatesOrderFree(a: seq<Sample>, b: seq<Sample>, s: map<string, Stats>, t: map<string, Stats>,
                            round: real -> real)
    requires multiset(a) == multiset(b) && AggregatesOf(s, a, round) && AggregatesOf(t, b, round)
    ensures s == t
  {
    forall name ensures name in s <==> name in t {
      assert (exists x :: x in a && x.name == name) <==> exists x :: x in multiset(a) && x.name == name;
      assert (exists x :: x in b && x.name == name) <==> exists x :: x in multiset(b) && x.name == name;
    }
    forall name | name in s ensures s[name] == t[name] {
      SameElapsed(a, b, name);
      StatsOrderFree(Elapsed(a, name), Elapsed(b, name), round);
    }
  }

  /** The recorder's dictionary holds, under each name, what the log says of it. */
  ghost predicate Tracks(records: map<string, seq<real>>, log: seq<Sample>) {
    && (forall name :: name in records <==> exists x :: x in log && x.name == name)
    && (forall name :: name in records ==> records[name] == Elapsed(log, name))
  }

  function Measured(records: map<string, seq<real>>, name: string): seq<real> {
    if name in records then records[name] else []
  }

  lemma {:induction false} UnnamedHasNone(log: seq<Sample>, name: string)
    requires forall x :: x in log ==> x.name != name
    ensures Elapsed(log, name) == []
    decreases |log|
  {
    if log != [] { UnnamedHasNone(log[..|log| - 1], name); }
  }

  lemma ElapsedLast(log: seq<Sample>, x: Sample, name: string)
    ensures Elapsed(log + [x], name) == Elapsed(log, name) + if x.name == name then [x.elapsed] else []
  {
  }

  lemma TracksStep(records: map<string, seq<real>>, log: seq<Sample>, x: Sample)
    requires Tracks(records, log)
    ensures Tracks(records[x.name := Measured(records, x.name) + [x.elapsed]], log + [x])
  {
    var after, longer := records[x.name := Measured(records, x.name) + [x.elapsed]], log + [x];
    assert forall y :: y in longer <==> y in log || y == x;
    if x.name !in records { UnnamedHasNone(log, x.name); }
    forall name | name in after ensures after[name] == Elapsed(longer, name) {
      ElapsedLast(log, x, name);
    }
    forall name ensures name in after <==> exists y :: y in longer && y.name == name {
      if name in records {
        var y :| y in log && y.name == name;
        assert y in longer;
      }
      if name == x.name { assert x in longer; }
    }
  }

  class PerfMonitor {
    var records: map<string, seq<real>>
    ghost var log: seq<Sample>  // every record since construction or the last reset

    ghost predicate Valid()
      reads this
    {
      Tracks(records, log)
    }

    constructor ()
      ensures Valid() && records == map[] && log == []
    {
      records, log := map[], [];
    }

    method Record(name: string, elapsed: real)
      requires Valid()
      modifies this
      ensures Valid() && log == old(log) + [Sample(name, elapsed)]
      ensures records == old(records)[name := Measured(old(records), name) + [elapsed]]
    {
      TracksStep(records, log, Sample(name, elapsed));
      ghost var after := records[name := Measured(records, name) + [elapsed]];
      if name !in records {
        records := records[name := []];
      }
      records := records[name := records[name] + [elapsed]];
      assert records == after;
      log := log + [Sample(name, elapsed)];
    }

    method Reset()
      modifies this
      ensures Valid() && records == map[] && log == []
    {
      records, log := map[], [];
    }

    /** One statistic for each name recorded since the last reset, over exactly its measurements. */
    method GetAggregates(round: real -> real) returns (stats: map<string, Stats>)
      requires Valid()
      ensures AggregatesOf(stats, log, round)
    {
      stats := map name | name in records :: ComputeStats(records[name], round);
    }
  }
}
