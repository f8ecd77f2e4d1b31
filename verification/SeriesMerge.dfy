/** Aligning the series of several metrics on their timestamps, one point per timestamp. */
module SeriesMerge {
  import opened Collections
  import D = MetricsDomain
  import R = MetricsRepository

  /** A result together with the spec it belongs to. */
  datatype MetricResult = MetricResult(aasPath: string, agg: D.Agg, value: real, sampleCount: nat)

  datatype SeriesPoint = SeriesPoint(ts: int, results: seq<MetricResult>)

  /** One result at one timestamp. */
  datatype Entry = Entry(ts: int, result: MetricResult)

  function Tag(spec: D.MetricSpec, p: R.BucketPoint): Entry {
    Entry(p.ts, MetricResult(spec.aasPath, spec.agg, p.value, p.sampleCount))
  }

  function TagAll(spec: D.MetricSpec, points: seq<R.BucketPoint>): (r: seq<Entry>)
    ensures |r| == |points|
  {
    seq(|points|, i requires 0 <= i < |points| => Tag(spec, points[i]))
  }

  /** The points of the first n metrics, each under its spec, in spec order. */
  function Inputs(specs: seq<D.MetricSpec>, perMetric: seq<seq<R.BucketPoint>>, n: nat): seq<Entry>
    requires n <= |perMetric| <= |specs|
  {
    if n == 0 then [] else Inputs(specs, perMetric, n - 1) + TagAll(specs[n - 1], perMetric[n - 1])
  }

  /** The results at a timestamp, in order. */
  function ResultsAt(entries: seq<Entry>, t: int): seq<MetricResult> {
    if entries == [] then [] else
      var n := |entries| - 1;
      ResultsAt(entries[..n], t) + if entries[n].ts == t then [entries[n].result] else []
  }

  lemma ResultsAtAppend(entries: seq<Entry>, e: Entry, t: int)
    ensures ResultsAt(entries + [e], t) == ResultsAt(entries, t) + if e.ts == t then [e.result] else []
  {
    assert (entries + [e])[..|entries|] == entries;
  }

  predicate HasTs(entries: seq<Entry>, t: int) { exists k :: 0 <= k < |entries| && entries[k].ts == t }

  lemma HasTsAppend(entries: seq<Entry>, e: Entry, t: int)
    ensures HasTs(entries + [e], t) <==> HasTs(entries, t) || e.ts == t
  {
    var more := entries + [e];
    if HasTs(entries, t) {
      var k :| 0 <= k < |entries| && entries[k].ts == t;
      assert more[k].ts == t;
    }
    if e.ts == t {
      assert more[|entries|].ts == t;
    }
  }

  /** Timestamps strictly ascend, are those of the entries, and each carries the results of that timestamp in order. */
  ghost predicate Aligned(entries: seq<Entry>, series: seq<SeriesPoint>) {
    && (forall i, j :: 0 <= i < j < |series| ==> series[i].ts < series[j].ts)
    && (forall k :: 0 <= k < |series| ==> HasTs(entries, series[k].ts))
    && (forall t :: HasTs(entries, t) ==> exists k :: 0 <= k < |series| && series[k].ts == t)
    && (forall k :: 0 <= k < |series| ==> series[k].results == ResultsAt(entries, series[k].ts))
  }

  /** The state of the alignment loop after some entries. */
  ghost predicate Collected(entries: seq<Entry>, byTs: map<int, seq<MetricResult>>, order: seq<int>, seen: set<int>) {
    && (forall t :: t in seen <==> HasTs(entries, t))
    && byTs.Keys == seen
    && (forall t :: t in byTs ==> byTs[t] == ResultsAt(entries, t))
    && (forall t :: t in order <==> t in seen)
    && (forall i, j :: 0 <= i < j < |order| ==> order[i] != order[j])
  }

  lemma {:induction false} NothingAt(entries: seq<Entry>, t: int)
    requires !HasTs(entries, t)
    ensures ResultsAt(entries, t) == []
  {
    if entries != [] {
      var n := |entries| - 1;
      assert entries == entries[..n] + [entries[n]];
      HasTsAppend(entries[..n], entries[n], t);
      NothingAt(entries[..n], t);
    }
  }

  function Earlier(byTs: map<int, seq<MetricResult>>, t: int): seq<MetricResult> {
    if t in byTs then byTs[t] else []
  }

  lemma CollectOne(entries: seq<Entry>, byTs: map<int, seq<MetricResult>>, order: seq<int>, seen: set<int>, e: Entry)
    requires Collected(entries, byTs, order, seen)
    ensures Collected(entries + [e], byTs[e.ts := Earlier(byTs, e.ts) + [e.result]],
                      if e.ts in seen then order else order + [e.ts], seen + {e.ts})
  {
    if e.ts !in seen {
      NothingAt(entries, e.ts);
    }
    forall t ensures HasTs(entries + [e], t) <==> HasTs(entries, t) || e.ts == t {
      HasTsAppend(entries, e, t);
    }
    forall t ensures ResultsAt(entries + [e], t) == ResultsAt(entries, t) + if e.ts == t then [e.result] else [] {
      ResultsAtAppend(entries, e, t);
    }
  }

  /** The inner loop: the points of one metric join those collected before. */
  method CollectSeries(spec: D.MetricSpec, points: seq<R.BucketPoint>, byTs0: map<int, seq<MetricResult>>,
                       order0: seq<int>, seen0: set<int>, ghost before: seq<Entry>)
    returns (byTs: map<int, seq<MetricResult>>, order: seq<int>, seen: set<int>)
    requires Collected(before, byTs0, order0, seen0)
    ensures Collected(before + TagAll(spec, points), byTs, order, seen)
  {
    byTs, order, seen := byTs0, order0, seen0;
    ghost var tagged := TagAll(spec, points);
    ghost var done := before;
    for j := 0 to |points|
      invariant done == before + tagged[..j]
      invariant Collected(done, byTs, order, seen)
    {
      var p := points[j];
      CollectOne(done, byTs, order, seen, tagged[j]);
      done := done + [tagged[j]];
      assert done == before + tagged[..j + 1];
      byTs := byTs[p.ts := Earlier(byTs, p.ts) + [Tag(spec, p).result]];
      if p.ts !in seen {
        order := order + [p.ts];
      }
      seen := seen + {p.ts};
    }
    assert tagged[..|points|] == tagged;
  }

  /** The first half of the alignment: results per timestamp, and the timestamps in order of first sight. */
  method Collect(specs: seq<D.MetricSpec>, perMetric: seq<seq<R.BucketPoint>>)
    returns (byTs: map<int, seq<MetricResult>>, order: seq<int>, seen: set<int>)
    requires |perMetric| <= |specs|
    ensures Collected(Inputs(specs, perMetric, |perMetric|), byTs, order, seen)
  {
    byTs, order, seen := map[], [], {};
    for i := 0 to |perMetric|
      invariant Collected(Inputs(specs, perMetric, i), byTs, order, seen)
    {
      byTs, order, seen :=
        CollectSeries(specs[i], perMetric[i], byTs, order, seen, Inputs(specs, perMetric, i));
    }
  }

  method MergeSeries(specs: seq<D.MetricSpec>, perMetric: seq<seq<R.BucketPoint>>) returns (series: seq<SeriesPoint>)
    requires |perMetric| <= |specs|
    ensures Aligned(Inputs(specs, perMetric, |perMetric|), series)
  {
    var byTs, found, seen := Collect(specs, perMetric);
    var order := SortOrder(found);
    series := [];
    for k := 0 to |order|
      invariant |series| == k
      invariant forall l :: 0 <= l < k ==> order[l] in byTs && series[l] == SeriesPoint(order[l], byTs[order[l]])
    {
      assert order[k] in order;
      series := series + [SeriesPoint(order[k], byTs[order[k]])];
    }
    AlignedWhenListed(Inputs(specs, perMetric, |perMetric|), byTs, order, seen, series);
  }

  method SortOrder(order: seq<int>) returns (r: seq<int>)
    requires forall i, j :: 0 <= i < j < |order| ==> order[i] != order[j]
    ensures forall t :: t in r <==> t in order
    ensures forall i, j :: 0 <= i < j < |r| ==> r[i] < r[j]
  {
    r := Sort(order, R.UpTo());
    SortSorts(order, R.UpTo());
    SortKeepsDistinct(order, R.UpTo());
    forall i, j | 0 <= i < j < |r| ensures r[i] < r[j] {
      assert R.UpTo()(r[i], r[j]);
    }
  }

  lemma AlignedWhenListed(entries: seq<Entry>, byTs: map<int, seq<MetricResult>>, order: seq<int>, seen: set<int>,
                          series: seq<SeriesPoint>)
    requires forall i, j :: 0 <= i < j < |order| ==> order[i] < order[j]
    requires Collected(entries, byTs, order, seen)
    requires |series| == |order|
    requires forall l :: 0 <= l < |order| ==> order[l] in byTs && series[l] == SeriesPoint(order[l], byTs[order[l]])
    ensures Aligned(entries, series)
  {
    forall t | HasTs(entries, t) ensures exists k :: 0 <= k < |series| && series[k].ts == t {
      assert t in order;
      var k :| 0 <= k < |order| && order[k] == t;
      assert series[k].ts == t;
    }
  }

  // ------------------------------------------------------------- nothing lost, nothing added

  function EntriesOf(p: SeriesPoint): (r: seq<Entry>)
    ensures |r| == |p.results|
  {
    seq(|p.results|, i requires 0 <= i < |p.results| => Entry(p.ts, p.results[i]))
  }

  /** The results of the first n points, in order. */
  function Flatten(series: seq<SeriesPoint>, n: nat): seq<Entry>
    requires n <= |series|
  {
    if n == 0 then [] else Flatten(series, n - 1) + EntriesOf(series[n - 1])
  }

  /** The merged series, read in order, is the stable sort by timestamp of all the points of all the metrics: the same
      entries each the same number of times, ascending in time, and in spec order within a timestamp. */
  lemma MergeIsStableSort(entries: seq<Entry>, series: seq<SeriesPoint>)
    requires Aligned(entries, series)
    ensures var merged := Flatten(series, |series|);
            && (forall i, j :: 0 <= i < j < |merged| ==> merged[i].ts <= merged[j].ts)
            && (forall t :: ResultsAt(merged, t) == ResultsAt(entries, t))
            && multiset(merged) == multiset(entries)
  {
    var merged := Flatten(series, |series|);
    FlattenAscends(series, |series|);
    forall t ensures ResultsAt(merged, t) == ResultsAt(entries, t) {
      FlattenAt(series, |series|, t);
      if !HasTs(entries, t) {
        NothingAt(entries, t);
      }
    }
    forall e ensures multiset(merged)[e] == multiset(entries)[e] {
      CountAt(merged, e);
      CountAt(entries, e);
    }
  }

  lemma {:induction false} FlattenAscends(series: seq<SeriesPoint>, n: nat)
    requires n <= |series|
    requires forall i, j :: 0 <= i < j < |series| ==> series[i].ts < series[j].ts
    ensures forall i :: 0 <= i < |Flatten(series, n)| ==> n > 0 && Flatten(series, n)[i].ts <= series[n - 1].ts
    ensures forall i, j :: 0 <= i < j < |Flatten(series, n)| ==> Flatten(series, n)[i].ts <= Flatten(series, n)[j].ts
  {
    if n == 0 {
      assert Flatten(series, n) == [];
    } else {
      FlattenAscends(series, n - 1);
      var before, here, all := Flatten(series, n - 1), EntriesOf(series[n - 1]), Flatten(series, n);
      assert all == before + here;
      forall j | 0 <= j < |all| ensures all[j].ts <= series[n - 1].ts {
        if j < |before| {
          assert all[j] == before[j];
        } else {
          assert all[j] == here[j - |before|];
        }
      }
      forall i, j | 0 <= i < j < |all| ensures all[i].ts <= all[j].ts {
        if j < |before| {
          assert all[i] == before[i] && all[j] == before[j];
        } else {
          assert all[j] == here[j - |before|];
        }
      }
    }
  }

  /** Only one point has a given timestamp, so only its results are found there. */
  lemma {:induction false} FlattenAt(series: seq<SeriesPoint>, n: nat, t: int)
    requires n <= |series|
    requires forall i, j :: 0 <= i < j < |series| ==> series[i].ts < series[j].ts
    ensures forall k :: 0 <= k < n && series[k].ts == t ==> ResultsAt(Flatten(series, n), t) == series[k].results
    ensures (forall k :: 0 <= k < n ==> series[k].ts != t) ==> ResultsAt(Flatten(series, n), t) == []
  {
    if n != 0 {
      var p := series[n - 1];
      FlattenAt(series, n - 1, t);
      ResultsAtConcat(Flatten(series, n - 1), EntriesOf(p), t);
      ResultsOfOne(p, |p.results|, t);
      assert EntriesOf(p)[..|p.results|] == EntriesOf(p) && p.results[..|p.results|] == p.results;
    }
  }

  lemma {:induction false} ResultsOfOne(p: SeriesPoint, n: nat, t: int)
    requires n <= |p.results|
    ensures ResultsAt(EntriesOf(p)[..n], t) == if t == p.ts then p.results[..n] else []
  {
    if n != 0 {
      ResultsOfOne(p, n - 1, t);
      assert EntriesOf(p)[..n] == EntriesOf(p)[..n - 1] + [Entry(p.ts, p.results[n - 1])];
      ResultsAtAppend(EntriesOf(p)[..n - 1], Entry(p.ts, p.results[n - 1]), t);
    }
  }

  lemma {:induction false} ResultsAtConcat(a: seq<Entry>, b: seq<Entry>, t: int)
    ensures ResultsAt(a + b, t) == ResultsAt(a, t) + ResultsAt(b, t)
  {
    if b == [] {
      assert a + b == a;
    } else {
      var n := |b| - 1;
      ResultsAtConcat(a, b[..n], t);
      assert a + b == (a + b[..n]) + [b[n]];
      ResultsAtAppend(a + b[..n], b[n], t);
    }
  }

  /** An entry is there as often as its result is at its timestamp. */
  lemma {:induction false} CountAt(entries: seq<Entry>, e: Entry)
    ensures multiset(entries)[e] == multiset(ResultsAt(entries, e.ts))[e.result]
  {
    if entries != [] {
      var n := |entries| - 1;
      CountAt(entries[..n], e);
      assert entries == entries[..n] + [entries[n]];
    }
  }

  /** Every timestamp of the inputs is that of a point. */
  lemma {:induction false} Origin(specs: seq<D.MetricSpec>, perMetric: seq<seq<R.BucketPoint>>, n: nat, t: int)
    returns (i: nat, j: nat)
    requires n <= |perMetric| <= |specs| && HasTs(Inputs(specs, perMetric, n), t)
    ensures i < n && j < |perMetric[i]| && perMetric[i][j].ts == t
  {
    var before, here := if n == 0 then [] else Inputs(specs, perMetric, n - 1), Inputs(specs, perMetric, n);
    var k :| 0 <= k < |here| && here[k].ts == t;
    if k < |before| {
      assert before[k].ts == t;
      i, j := Origin(specs, perMetric, n - 1, t);
    } else {
      i, j := n - 1, k - |before|;
    }
  }

  // ------------------------------------------------------------- one result per metric present

  predicate Covers(points: seq<R.BucketPoint>, t: int) { exists k :: 0 <= k < |points| && points[k].ts == t }

  /** How many of the first n metrics have a point at t. */
  function Present(perMetric: seq<seq<R.BucketPoint>>, n: nat, t: int): nat
    requires n <= |perMetric|
  {
    if n == 0 then 0 else Present(perMetric, n - 1, t) + if Covers(perMetric[n - 1], t) then 1 else 0
  }

  /** Series with distinct timestamps give one result per metric that has the timestamp: no filler for the others. */
  lemma {:induction false} OneResultEach(specs: seq<D.MetricSpec>, perMetric: seq<seq<R.BucketPoint>>, n: nat, t: int)
    requires n <= |perMetric| <= |specs|
    requires forall m :: 0 <= m < n ==>
               forall i, j :: 0 <= i < j < |perMetric[m]| ==> perMetric[m][i].ts < perMetric[m][j].ts
    ensures |ResultsAt(Inputs(specs, perMetric, n), t)| == Present(perMetric, n, t)
  {
    if n != 0 {
      OneResultEach(specs, perMetric, n - 1, t);
      var spec, points := specs[n - 1], perMetric[n - 1];
      ResultsAtConcat(Inputs(specs, perMetric, n - 1), TagAll(spec, points), t);
      OneOrNone(spec, points, |points|, t);
      assert points[..|points|] == points && TagAll(spec, points)[..|points|] == TagAll(spec, points);
    }
  }

  lemma {:induction false} OneOrNone(spec: D.MetricSpec, points: seq<R.BucketPoint>, n: nat, t: int)
    requires n <= |points|
    requires forall i, j :: 0 <= i < j < |points| ==> points[i].ts < points[j].ts
    ensures |ResultsAt(TagAll(spec, points)[..n], t)| == if Covers(points[..n], t) then 1 else 0
    ensures forall k :: n <= k < |points| && points[k].ts == t ==> !Covers(points[..n], t)
  {
    if n != 0 {
      OneOrNone(spec, points, n - 1, t);
      var tagged := TagAll(spec, points);
      assert tagged[..n] == tagged[..n - 1] + [Tag(spec, points[n - 1])];
      ResultsAtAppend(tagged[..n - 1], Tag(spec, points[n - 1]), t);
      assert points[..n] == points[..n - 1] + [points[n - 1]];
      if Covers(points[..n - 1], t) {
        var k :| 0 <= k < n - 1 && points[..n - 1][k].ts == t;
        assert points[..n][k].ts == t;
      } else if points[n - 1].ts == t {
        assert points[..n][n - 1].ts == t;
      }
    }
  }

  /** Every point of every metric is in the merged series, at its own timestamp, with its own value and samples, under
      the path and the aggregation of its metric. */
  lemma {:induction false} PointIsMerged(specs: seq<D.MetricSpec>, perMetric: seq<seq<R.BucketPoint>>,
                                         series: seq<SeriesPoint>, i: nat, j: nat)
    requires |perMetric| <= |specs| && i < |perMetric| && j < |perMetric[i]|
    requires Aligned(Inputs(specs, perMetric, |perMetric|), series)
    ensures var p := perMetric[i][j];
            exists k, l :: 0 <= k < |series| && 0 <= l < |series[k].results| && series[k].ts == p.ts
              && series[k].results[l].aasPath == specs[i].aasPath && series[k].results[l].agg == specs[i].agg
              && series[k].results[l].value == p.value && series[k].results[l].sampleCount == p.sampleCount
  {
    var p, entries := perMetric[i][j], Inputs(specs, perMetric, |perMetric|);
    var e := Tag(specs[i], p);
    InputIsThere(specs, perMetric, |perMetric|, i, j);
    assert HasTs(entries, p.ts);
    var k :| 0 <= k < |series| && series[k].ts == p.ts;
    CountAt(entries, e);
    assert e in multiset(entries);
    assert e.result in multiset(series[k].results);
    var l :| 0 <= l < |series[k].results| && series[k].results[l] == e.result;
  }

  lemma {:induction false} InputIsThere(
    specs: seq<D.MetricSpec>, perMetric: seq<seq<R.BucketPoint>>, n: nat, i: nat, j: nat)
    requires i < n <= |perMetric| <= |specs| && j < |perMetric[i]|
    ensures Tag(specs[i], perMetric[i][j]) in Inputs(specs, perMetric, n)
  {
    if i < n - 1 {
      InputIsThere(specs, perMetric, n - 1, i, j);
    } else {
      assert TagAll(specs[i], perMetric[i])[j] == Tag(specs[i], perMetric[i][j]);
    }
  }
}
