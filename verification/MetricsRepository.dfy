/** The aggregation pipelines over measurements, as match, group, sort and limit on a sequence of documents. */
module MetricsRepository {
  import opened Collections
  import D = MetricsDomain

  datatype Doc = Doc(tenantId: string, machineId: string, aasPath: string, ts: int, value: D.Value,
                     fields: map<string, D.Value>)

  datatype Window = Window(tenantId: string, machineId: string, aasPath: string, from: int, to: int,
                           valueEquals: Option<D.Value>)

  datatype MetricResult = MetricResult(value: real, sampleCount: nat)
  datatype BucketPoint = BucketPoint(ts: int, value: real, sampleCount: nat)
  datatype SeriesRow = SeriesRow(ts: int, value: real, sampleCount: nat, dataAsOf: int)
  datatype GroupRow = GroupRow(key: Option<D.Value>, value: real, dataAsOf: int)

  datatype Failure = UnsupportedAgg | UnsupportedBucket

  // ------------------------------------------------------------- match

  predicate Matches(d: Doc, w: Window) {
    && d.tenantId == w.tenantId && d.machineId == w.machineId && d.aasPath == w.aasPath
    && w.from <= d.ts <= w.to
    && (w.valueEquals.Some? ==> d.value == w.valueEquals.value)
  }

  function Matched(docs: seq<Doc>, w: Window): seq<Doc> { Filter(docs, (d: Doc) => Matches(d, w)) }

  function Numeric(docs: seq<Doc>, w: Window): seq<Doc> { Filter(Matched(docs, w), (d: Doc) => d.value.NumberValue?) }

  function NumberOf(d: Doc): real { if d.value.NumberValue? then d.value.n else 0.0 }

  // ------------------------------------------------------------- accumulators

  /** What a document adds to a $sum: one, or its number. */
  datatype Weight = One | Its

  function Weigh(d: Doc, weight: Weight): real { if weight == One then 1.0 else NumberOf(d) }

  function Total(docs: seq<Doc>, weight: Weight): real {
    if docs == [] then 0.0 else Weigh(docs[0], weight) + Total(docs[1..], weight)
  }

  function Least(docs: seq<Doc>): real
    requires docs != []
  {
    var first := NumberOf(docs[0]);
    if |docs| == 1 then first else
      var rest := Least(docs[1..]);
      if first <= rest then first else rest
  }

  function Greatest(docs: seq<Doc>): real
    requires docs != []
  {
    var first := NumberOf(docs[0]);
    if |docs| == 1 then first else
      var rest := Greatest(docs[1..]);
      if first >= rest then first else rest
  }

  /** $max of ts. */
  function Latest(docs: seq<Doc>): int
    requires docs != []
  {
    if |docs| == 1 then docs[0].ts else
      var rest := Latest(docs[1..]);
      if docs[0].ts >= rest then docs[0].ts else rest
  }

  predicate Accumulates(agg: D.Agg) { agg == D.Avg || agg == D.Sum || agg == D.Min || agg == D.Max }

  function Accumulate(agg: D.Agg, docs: seq<Doc>): real
    requires docs != [] && Accumulates(agg)
  {
    match agg
    case Avg => Total(docs, Its) / |docs| as real
    case Sum => Total(docs, Its)
    case Min => Least(docs)
    case Max => Greatest(docs)
  }

  /** The value of one group: documents are counted whatever their value, or accumulated. */
  function GroupValue(agg: D.Agg, docs: seq<Doc>): real
    requires docs != [] && (agg == D.Count || Accumulates(agg))
  {
    if agg == D.Count then Total(docs, One) else Accumulate(agg, docs)
  }

  /** Counting looks at every match, accumulating only at numbers. */
  function Sampled(docs: seq<Doc>, w: Window, agg: D.Agg): seq<Doc> {
    if agg == D.Count then Matched(docs, w) else Numeric(docs, w)
  }

  function ByTs(): (Doc, Doc) -> bool { (a: Doc, b: Doc) => a.ts <= b.ts }

  // ------------------------------------------------------------- scalar

  function Scalar(docs: seq<Doc>, w: Window, agg: D.Agg): Result<(MetricResult, Option<int>), Failure> {
    var m := Sampled(docs, w, agg);
    if agg == D.Raw || agg.OtherAgg? then Err(UnsupportedAgg)
    else if m == [] then Ok((MetricResult(0.0, 0), None))
    else Ok((MetricResult(ScalarValue(agg, m), |m|), Some(Latest(m))))
  }

  function ScalarValue(agg: D.Agg, m: seq<Doc>): real
    requires m != [] && agg != D.Raw && !agg.OtherAgg?
  {
    if agg == D.Last then NumberOf(Sort(m, ByTs())[|m| - 1])
    else if agg == D.Delta then NumberOf(Sort(m, ByTs())[|m| - 1]) - NumberOf(Sort(m, ByTs())[0])
    else GroupValue(agg, m)
  }

  // ------------------------------------------------------------- group

  /** Distinct keys. */
  function Keys<K(==,!new)>(docs: seq<Doc>, key: Doc -> K): seq<K> {
    if docs == [] then [] else
      var rest := Keys(docs[1..], key);
      if key(docs[0]) in rest then rest else [key(docs[0])] + rest
  }

  /** Each key of a document once, and no other. */
  lemma {:induction false} KeysExactly<K(!new)>(docs: seq<Doc>, key: Doc -> K)
    ensures forall i, j :: 0 <= i < j < |Keys(docs, key)| ==> Keys(docs, key)[i] != Keys(docs, key)[j]
    ensures forall k :: k in Keys(docs, key) <==> exists d :: d in docs && key(d) == k
  {
    if docs != [] {
      KeysExactly(docs[1..], key);
      assert forall d :: d in docs <==> d == docs[0] || d in docs[1..];
    }
  }

  function KeyTest<K(==)>(key: Doc -> K, k: K): Doc -> bool { (d: Doc) => key(d) == k }

  function Group<K(==,!new)>(docs: seq<Doc>, key: Doc -> K, k: K): (r: seq<Doc>)
    ensures (exists d :: d in docs && key(d) == k) ==> r != []
  {
    var r := Filter(docs, KeyTest(key, k));
    assert forall d :: d in docs && key(d) == k ==> d in r;
    r
  }

  // ------------------------------------------------------------- series

  function UpTo(): (int, int) -> bool { (a: int, b: int) => a <= b }

  /** Bucket starts of the documents, ascending. */
  function SeriesKeys(docs: seq<Doc>, dur: int): seq<int>
    requires dur > 0
  {
    Sort(Keys(docs, (d: Doc) => D.BucketStart(d.ts, dur)), UpTo())
  }

  function InBucket(docs: seq<Doc>, dur: int, k: int): (r: seq<Doc>)
    requires dur > 0
    ensures forall d :: d in r <==> d in docs && D.BucketStart(d.ts, dur) == k
  {
    Filter(docs, (d: Doc) => D.BucketStart(d.ts, dur) == k)
  }

  function RowOf(docs: seq<Doc>, dur: int, agg: D.Agg, k: int): SeriesRow
    requires dur > 0 && (agg == D.Count || Accumulates(agg))
  {
    var g := InBucket(docs, dur, k);
    if g == [] then SeriesRow(k, 0.0, 0, 0) else SeriesRow(k, GroupValue(agg, g), |g|, Latest(g))
  }

  function RowsFor(docs: seq<Doc>, dur: int, agg: D.Agg, keys: seq<int>): (r: seq<SeriesRow>)
    requires dur > 0 && (agg == D.Count || Accumulates(agg))
    ensures |r| == |keys|
  {
    seq(|keys|, i requires 0 <= i < |keys| => RowOf(docs, dur, agg, keys[i]))
  }

  /** Rows of the pipeline, in order of _id. */
  function SeriesRows(docs: seq<Doc>, dur: int, agg: D.Agg): seq<SeriesRow>
    requires dur > 0 && (agg == D.Count || Accumulates(agg))
  {
    RowsFor(docs, dur, agg, SeriesKeys(docs, dur))
  }

  function Points(rows: seq<SeriesRow>): (r: seq<BucketPoint>)
    ensures |r| == |rows|
  {
    seq(|rows|, i requires 0 <= i < |rows| => BucketPoint(rows[i].ts, rows[i].value, rows[i].sampleCount))
  }

  function LatestRow(rows: seq<SeriesRow>): (r: Option<int>)
    ensures rows == [] <==> r.None?
  {
    if rows == [] then None else
      var n := |rows| - 1;
      var before := LatestRow(rows[..n]);
      if before.None? || rows[n].dataAsOf > before.value then Some(rows[n].dataAsOf) else before
  }

  function Series(docs: seq<Doc>, w: Window, bucket: D.Bucket, agg: D.Agg)
    : Result<(seq<BucketPoint>, Option<int>), Failure>
  {
    if D.DateTruncUnit(bucket).None? then Err(UnsupportedBucket)
    else if agg != D.Count && !Accumulates(agg) then Err(UnsupportedAgg)
    else
      var rows := SeriesRows(Sampled(docs, w, agg), D.Duration(bucket).value, agg);
      Ok((Points(rows), LatestRow(rows)))
  }

  /** The client side of a series query: a pass over the rows. */
  method RunSeriesPipeline(rows: seq<SeriesRow>) returns (points: seq<BucketPoint>, dataAsOf: Option<int>)
    ensures points == Points(rows) && dataAsOf == LatestRow(rows)
  {
    points, dataAsOf := [], None;
    for i := 0 to |rows|
      invariant points == Points(rows[..i])
      invariant dataAsOf == LatestRow(rows[..i])
    {
      assert rows[..i + 1] == rows[..i] + [rows[i]];
      assert rows[..i + 1][..i] == rows[..i];
      points := points + [BucketPoint(rows[i].ts, rows[i].value, rows[i].sampleCount)];
      if dataAsOf.None? || rows[i].dataAsOf > dataAsOf.value {
        dataAsOf := Some(rows[i].dataAsOf);
      }
    }
    assert rows[..|rows|] == rows;
  }

  // ------------------------------------------------------------- grouped

  function FieldOf(path: string): Doc -> Option<D.Value> {
    (d: Doc) => if path in d.fields then Some(d.fields[path]) else None
  }

  function GroupRowOf(docs: seq<Doc>, path: string, agg: D.Agg, k: Option<D.Value>): GroupRow
    requires agg == D.Count || Accumulates(agg)
  {
    var g := Group(docs, FieldOf(path), k);
    if g == [] then GroupRow(k, 0.0, 0) else GroupRow(k, GroupValue(agg, g), Latest(g))
  }

  function ByValueDown(): (GroupRow, GroupRow) -> bool { (a: GroupRow, b: GroupRow) => a.value >= b.value }

  function GroupRowsFor(docs: seq<Doc>, path: string, agg: D.Agg, keys: seq<Option<D.Value>>): (r: seq<GroupRow>)
    requires agg == D.Count || Accumulates(agg)
    ensures |r| == |keys|
  {
    seq(|keys|, i requires 0 <= i < |keys| => GroupRowOf(docs, path, agg, keys[i]))
  }

  function GroupRows(docs: seq<Doc>, path: string, agg: D.Agg): seq<GroupRow>
    requires agg == D.Count || Accumulates(agg)
  {
    Sort(GroupRowsFor(docs, path, agg, Keys(docs, FieldOf(path))), ByValueDown())
  }

  function Take<T>(s: seq<T>, limit: nat): seq<T> { if |s| <= limit then s else s[..limit] }

  function Grouped(docs: seq<Doc>, w: Window, path: string, agg: D.Agg, limit: nat): Result<seq<GroupRow>, Failure> {
    if agg != D.Count && !Accumulates(agg) then Err(UnsupportedAgg)
    else Ok(Take(GroupRows(Sampled(docs, w, agg), path, agg), limit))
  }

  // ------------------------------------------------------------- buckets cover their documents

  lemma {:induction false} TotalSplits(docs: seq<Doc>, p: Doc -> bool, q: Doc -> bool, weight: Weight)
    requires forall d :: d in docs ==> q(d) == !p(d)
    ensures Total(docs, weight) == Total(Filter(docs, p), weight) + Total(Filter(docs, q), weight)
  {
    if docs != [] {
      TotalSplits(docs[1..], p, q, weight);
      assert p(docs[0]) ==> ([docs[0]] + Filter(docs[1..], p))[1..] == Filter(docs[1..], p);
      assert q(docs[0]) ==> ([docs[0]] + Filter(docs[1..], q))[1..] == Filter(docs[1..], q);
    }
  }

  /** Sum over some bucket starts of the totals of their buckets. */
  function TotalOver(docs: seq<Doc>, dur: int, keys: seq<int>, weight: Weight): real
    requires dur > 0
    decreases keys
  {
    if keys == [] then 0.0 else Total(InBucket(docs, dur, keys[0]), weight) + TotalOver(docs, dur, keys[1..], weight)
  }

  /** Bucket totals add up to the total, for any weight, when every document has a bucket. */
  lemma {:induction false} BucketsAddUp(docs: seq<Doc>, dur: int, keys: seq<int>, weight: Weight)
    requires dur > 0
    requires forall i, j :: 0 <= i < j < |keys| ==> keys[i] < keys[j]
    requires forall d :: d in docs ==> D.BucketStart(d.ts, dur) in keys
    ensures TotalOver(docs, dur, keys, weight) == Total(docs, weight)
    decreases keys
  {
    assert docs != [] ==> docs[0] in docs;
    if keys != [] {
      var k := keys[0];
      var mine, others := (d: Doc) => D.BucketStart(d.ts, dur) == k, (d: Doc) => D.BucketStart(d.ts, dur) != k;
      var rest := Filter(docs, others);
      TotalSplits(docs, mine, others, weight);
      forall d | d in rest ensures D.BucketStart(d.ts, dur) in keys[1..] {
        assert D.BucketStart(d.ts, dur) in keys;
      }
      BucketsAddUp(rest, dur, keys[1..], weight);
      OtherBuckets(docs, rest, dur, keys[1..], weight, k);
    }
  }

  /** Leaving one bucket's documents out does not change the others. */
  lemma {:induction false} OtherBuckets(
    docs: seq<Doc>, rest: seq<Doc>, dur: int, keys: seq<int>, weight: Weight, k: int)
    requires dur > 0 && rest == Filter(docs, (d: Doc) => D.BucketStart(d.ts, dur) != k) && k !in keys
    ensures TotalOver(rest, dur, keys, weight) == TotalOver(docs, dur, keys, weight)
    decreases keys
  {
    if keys != [] {
      var j := keys[0];
      var inJ := (d: Doc) => D.BucketStart(d.ts, dur) == j;
      FilterTwice(docs, (d: Doc) => D.BucketStart(d.ts, dur) != k, inJ, inJ);
      OtherBuckets(docs, rest, dur, keys[1..], weight, k);
    }
  }

  lemma {:induction false} TotalOfOnes(docs: seq<Doc>)
    ensures Total(docs, One) == |docs| as real
  {
    if docs != [] {
      TotalOfOnes(docs[1..]);
    }
  }

  lemma {:induction false} Extremes(docs: seq<Doc>)
    requires docs != []
    ensures exists d :: d in docs && NumberOf(d) == Least(docs)
    ensures forall d :: d in docs ==> Least(docs) <= NumberOf(d)
    ensures exists d :: d in docs && NumberOf(d) == Greatest(docs)
    ensures forall d :: d in docs ==> NumberOf(d) <= Greatest(docs)
    ensures exists d :: d in docs && d.ts == Latest(docs)
    ensures forall d :: d in docs ==> d.ts <= Latest(docs)
  {
    if |docs| > 1 {
      Extremes(docs[1..]);
      assert docs[0] in docs;
      assert forall d :: d in docs[1..] ==> d in docs;
      assert forall d :: d in docs ==> d == docs[0] || d in docs[1..];
    } else {
      assert docs[0] in docs;
    }
  }
}
