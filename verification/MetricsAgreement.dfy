/** A bucketed series and the scalar of the same window, filter and aggregation tell the same story. */
module MetricsAgreement {
  import opened Arithmetic
  import opened Collections
  import D = MetricsDomain
  import opened MetricsRepository

  /** What of a point is added up. */
  datatype Measure = Counts | Values | Weighted

  function Measured(p: BucketPoint, what: Measure): real {
    match what
    case Counts => p.sampleCount as real
    case Values => p.value
    case Weighted => p.sampleCount as real * p.value
  }

  function SumOver(points: seq<BucketPoint>, what: Measure): real {
    if points == [] then 0.0 else Measured(points[0], what) + SumOver(points[1..], what)
  }

  function PointOf(r: SeriesRow): BucketPoint { BucketPoint(r.ts, r.value, r.sampleCount) }

  /** A measure of each bucket's point that is a total over the bucket adds up to the same total over all buckets. */
  lemma {:induction false} SumOverRows(docs: seq<Doc>, dur: int, agg: D.Agg, keys: seq<int>, what: Measure,
                                       weight: Weight)
    requires dur > 0 && (agg == D.Count || Accumulates(agg))
    requires forall k :: k in keys ==>
               Measured(PointOf(RowOf(docs, dur, agg, k)), what) == Total(InBucket(docs, dur, k), weight)
    ensures SumOver(Points(RowsFor(docs, dur, agg, keys)), what) == TotalOver(docs, dur, keys, weight)
    decreases keys
  {
    if keys != [] {
      var rows := RowsFor(docs, dur, agg, keys);
      assert rows[1..] == RowsFor(docs, dur, agg, keys[1..]);
      assert Points(rows)[1..] == Points(rows[1..]);
      SumOverRows(docs, dur, agg, keys[1..], what, weight);
      assert keys[0] in keys;
      assert Points(rows)[0] == PointOf(RowOf(docs, dur, agg, keys[0]));
    }
  }

  /** The keys of a series ascend, and are exactly the bucket starts of its documents. */
  lemma SeriesKeysCover(docs: seq<Doc>, dur: int)
    requires dur > 0
    ensures forall i, j :: 0 <= i < j < |SeriesKeys(docs, dur)| ==> SeriesKeys(docs, dur)[i] < SeriesKeys(docs, dur)[j]
    ensures forall d :: d in docs ==> D.BucketStart(d.ts, dur) in SeriesKeys(docs, dur)
    ensures forall k :: k in SeriesKeys(docs, dur) ==> exists d :: d in docs && D.BucketStart(d.ts, dur) == k
  {
    var raw, keys := Keys(docs, (d: Doc) => D.BucketStart(d.ts, dur)), SeriesKeys(docs, dur);
    KeysExactly(docs, (d: Doc) => D.BucketStart(d.ts, dur));
    SortSorts(raw, UpTo());
    SortKeepsDistinct(raw, UpTo());
    assert forall i, j :: 0 <= i < j < |keys| ==> UpTo()(keys[i], keys[j]);
  }

  lemma SeriesAddsUp(docs: seq<Doc>, dur: int, agg: D.Agg, what: Measure, weight: Weight)
    requires dur > 0 && (agg == D.Count || Accumulates(agg))
    requires forall k :: k in SeriesKeys(docs, dur) ==>
               Measured(PointOf(RowOf(docs, dur, agg, k)), what) == Total(InBucket(docs, dur, k), weight)
    ensures SumOver(Points(SeriesRows(docs, dur, agg)), what) == Total(docs, weight)
  {
    SeriesKeysCover(docs, dur);
    SumOverRows(docs, dur, agg, SeriesKeys(docs, dur), what, weight);
    BucketsAddUp(docs, dur, SeriesKeys(docs, dur), weight);
  }

  lemma Cancel(n: real, x: real)
    requires n > 0.0
    ensures n * (x / n) == x
  {
  }

  /** Sample counts add up, for every aggregation. */
  lemma SampleCountsAgree(docs: seq<Doc>, w: Window, bucket: D.Bucket, agg: D.Agg)
    requires Series(docs, w, bucket, agg).Ok?
    ensures Scalar(docs, w, agg).Ok?
    ensures SumOver(Series(docs, w, bucket, agg).value.0, Counts) == Scalar(docs, w, agg).value.0.sampleCount as real
  {
    var m, dur := Sampled(docs, w, agg), D.Duration(bucket).value;
    forall k { BucketCount(m, dur, agg, k); }
    SeriesAddsUp(m, dur, agg, Counts, One);
    TotalOfOnes(m);
  }

  lemma BucketCount(m: seq<Doc>, dur: int, agg: D.Agg, k: int)
    requires dur > 0 && (agg == D.Count || Accumulates(agg))
    ensures Measured(PointOf(RowOf(m, dur, agg, k)), Counts) == Total(InBucket(m, dur, k), One)
  {
    TotalOfOnes(InBucket(m, dur, k));
  }

  /** Counts and sums add up. */
  lemma CountsAndSumsAgree(docs: seq<Doc>, w: Window, bucket: D.Bucket, agg: D.Agg)
    requires Series(docs, w, bucket, agg).Ok? && (agg == D.Count || agg == D.Sum)
    ensures SumOver(Series(docs, w, bucket, agg).value.0, Values) == Scalar(docs, w, agg).value.0.value
  {
    var m, dur := Sampled(docs, w, agg), D.Duration(bucket).value;
    TotalsAgree(m, dur, agg);
    assert Series(docs, w, bucket, agg).value.0 == Points(SeriesRows(m, dur, agg));
  }

  lemma TotalsAgree(m: seq<Doc>, dur: int, agg: D.Agg)
    requires dur > 0 && (agg == D.Count || agg == D.Sum)
    ensures SumOver(Points(SeriesRows(m, dur, agg)), Values) == if m == [] then 0.0 else ScalarValue(agg, m)
  {
    forall k { BucketTotal(m, dur, agg, k); }
    SeriesAddsUp(m, dur, agg, Values, if agg == D.Count then One else Its);
  }

  lemma BucketTotal(m: seq<Doc>, dur: int, agg: D.Agg, k: int)
    requires dur > 0 && (agg == D.Count || agg == D.Sum)
    ensures Measured(PointOf(RowOf(m, dur, agg, k)), Values)
         == Total(InBucket(m, dur, k), if agg == D.Count then One else Its)
  {
  }

  /** The scalar average is the average of the bucket averages, weighted by their sample counts. */
  lemma AveragesAgree(docs: seq<Doc>, w: Window, bucket: D.Bucket)
    requires Series(docs, w, bucket, D.Avg).Ok? && Scalar(docs, w, D.Avg).value.0.sampleCount > 0
    ensures Scalar(docs, w, D.Avg).value.0.value
         == SumOver(Series(docs, w, bucket, D.Avg).value.0, Weighted)
            / Scalar(docs, w, D.Avg).value.0.sampleCount as real
  {
    WeightedSum(Sampled(docs, w, D.Avg), D.Duration(bucket).value);
  }

  lemma WeightedSum(m: seq<Doc>, dur: int)
    requires dur > 0
    ensures SumOver(Points(SeriesRows(m, dur, D.Avg)), Weighted) == Total(m, Its)
  {
    forall k { BucketAverage(m, dur, k); }
    SeriesAddsUp(m, dur, D.Avg, Weighted, Its);
  }

  lemma BucketAverage(m: seq<Doc>, dur: int, k: int)
    requires dur > 0
    ensures Measured(PointOf(RowOf(m, dur, D.Avg, k)), Weighted) == Total(InBucket(m, dur, k), Its)
  {
    var g := InBucket(m, dur, k);
    if g == [] {
      assert RowOf(m, dur, D.Avg, k) == SeriesRow(k, 0.0, 0, 0);
    } else {
      AverageTimesSize(g);
      assert RowOf(m, dur, D.Avg, k) == SeriesRow(k, Accumulate(D.Avg, g), |g|, Latest(g));
    }
  }

  lemma AverageTimesSize(g: seq<Doc>)
    requires g != []
    ensures |g| as real * Accumulate(D.Avg, g) == Total(g, Its)
  {
    Cancel(|g| as real, Total(g, Its));
  }

  /** Both are as fresh. */
  lemma FreshnessAgrees(docs: seq<Doc>, w: Window, bucket: D.Bucket, agg: D.Agg)
    requires Series(docs, w, bucket, agg).Ok?
    ensures Series(docs, w, bucket, agg).value.1 == Scalar(docs, w, agg).value.1
  {
    LatestAgrees(Sampled(docs, w, agg), D.Duration(bucket).value, agg);
  }

  /** The newest document is the newest of the newest of each bucket. */
  lemma LatestAgrees(m: seq<Doc>, dur: int, agg: D.Agg)
    requires dur > 0 && (agg == D.Count || Accumulates(agg))
    ensures LatestRow(SeriesRows(m, dur, agg)) == if m == [] then None else Some(Latest(m))
  {
    SeriesKeysCover(m, dur);
    var rows, keys := SeriesRows(m, dur, agg), SeriesKeys(m, dur);
    assert keys != [] ==> keys[0] in keys;
    if m != [] {
      forall i | 0 <= i < |rows| ensures rows[i].dataAsOf <= Latest(m) {
        assert keys[i] in keys;
        BucketLatest(m, dur, agg, keys[i]);
      }
      var d := NewestDoc(m);
      var i :| 0 <= i < |keys| && keys[i] == D.BucketStart(d.ts, dur);
      BucketLatest(m, dur, agg, keys[i]);
      assert d in InBucket(m, dur, keys[i]);
      LatestRowIs(rows, Latest(m), i);
    }
  }

  lemma NewestDoc(m: seq<Doc>) returns (d: Doc)
    requires m != []
    ensures d in m && d.ts == Latest(m)
  {
    Extremes(m);
    d :| d in m && d.ts == Latest(m);
  }

  lemma BucketLatest(m: seq<Doc>, dur: int, agg: D.Agg, k: int)
    requires dur > 0 && (agg == D.Count || Accumulates(agg)) && m != []
    requires exists d :: d in m && D.BucketStart(d.ts, dur) == k
    ensures forall d :: d in InBucket(m, dur, k) ==> d.ts <= RowOf(m, dur, agg, k).dataAsOf
    ensures RowOf(m, dur, agg, k).dataAsOf <= Latest(m)
  {
    var d0 :| d0 in m && D.BucketStart(d0.ts, dur) == k;
    var g := InBucket(m, dur, k);
    assert d0 in g;
    Extremes(g);
    Extremes(m);
    var d := NewestDoc(g);
    assert d in m;
  }

  lemma {:induction false} LatestRowIs(rows: seq<SeriesRow>, t: int, i: nat)
    requires i < |rows| && rows[i].dataAsOf == t
    requires forall j :: 0 <= j < |rows| ==> rows[j].dataAsOf <= t
    ensures LatestRow(rows) == Some(t)
  {
    var n := |rows| - 1;
    if i < n {
      LatestRowIs(rows[..n], t, i);
    } else {
      LatestRowBelow(rows[..n], t);
    }
  }

  lemma {:induction false} LatestRowBelow(rows: seq<SeriesRow>, t: int)
    requires forall j :: 0 <= j < |rows| ==> rows[j].dataAsOf <= t
    ensures LatestRow(rows).Some? ==> LatestRow(rows).value <= t
  {
    if rows != [] {
      LatestRowBelow(rows[..|rows| - 1], t);
    }
  }

  /** x is a value that bounds all others from its side. */
  ghost predicate IsExtreme(points: seq<BucketPoint>, x: real, agg: D.Agg) {
    && (exists i :: 0 <= i < |points| && points[i].value == x)
    && (forall i :: 0 <= i < |points| ==> if agg == D.Min then x <= points[i].value else points[i].value <= x)
  }

  /** The least bucket value is the scalar minimum, the greatest the scalar maximum. */
  lemma ExtremesAgree(docs: seq<Doc>, w: Window, bucket: D.Bucket, agg: D.Agg)
    requires Series(docs, w, bucket, agg).Ok? && (agg == D.Min || agg == D.Max)
    requires Scalar(docs, w, agg).value.0.sampleCount > 0
    ensures IsExtreme(Series(docs, w, bucket, agg).value.0, Scalar(docs, w, agg).value.0.value, agg)
  {
    var m, dur := Sampled(docs, w, agg), D.Duration(bucket).value;
    assert m != [] && ScalarValue(agg, m) == Accumulate(agg, m);
    assert Series(docs, w, bucket, agg).value.0 == Points(SeriesRows(m, dur, agg));
    SeriesExtreme(m, dur, agg);
  }

  lemma SeriesExtreme(m: seq<Doc>, dur: int, agg: D.Agg)
    requires dur > 0 && (agg == D.Min || agg == D.Max) && m != []
    ensures IsExtreme(Points(SeriesRows(m, dur, agg)), Accumulate(agg, m), agg)
  {
    var points, keys := Points(SeriesRows(m, dur, agg)), SeriesKeys(m, dur);
    var x := Accumulate(agg, m);
    SeriesKeysCover(m, dur);
    Extremes(m);
    forall i | 0 <= i < |points|
      ensures if agg == D.Min then x <= points[i].value else points[i].value <= x
    {
      assert keys[i] in keys;
      BucketExtreme(m, dur, agg, keys[i]);
    }
    var d :| d in m && NumberOf(d) == x;
    var i :| 0 <= i < |keys| && keys[i] == D.BucketStart(d.ts, dur);
    BucketExtreme(m, dur, agg, keys[i]);
    assert d in InBucket(m, dur, keys[i]);
    assert points[i].value == x;
  }

  lemma BucketExtreme(m: seq<Doc>, dur: int, agg: D.Agg, k: int)
    requires dur > 0 && (agg == D.Min || agg == D.Max)
    requires exists d :: d in m && D.BucketStart(d.ts, dur) == k
    ensures forall d :: d in InBucket(m, dur, k) ==>
              if agg == D.Min then RowOf(m, dur, agg, k).value <= NumberOf(d)
              else NumberOf(d) <= RowOf(m, dur, agg, k).value
    ensures exists d :: d in m && NumberOf(d) == RowOf(m, dur, agg, k).value
  {
    var d0 :| d0 in m && D.BucketStart(d0.ts, dur) == k;
    var g := InBucket(m, dur, k);
    assert d0 in g;
    Extremes(g);
    var d :| d in g && NumberOf(d) == Accumulate(agg, g);
    assert d in m;
  }

  // ------------------------------------------------------------- the ends of a window

  /** d is a newest, or an oldest, of the documents. */
  ghost predicate Newest(m: seq<Doc>, d: Doc) { d in m && forall e :: e in m ==> e.ts <= d.ts }

  ghost predicate Oldest(m: seq<Doc>, d: Doc) { d in m && forall e :: e in m ==> d.ts <= e.ts }

  lemma FindEnds(m: seq<Doc>) returns (d: Doc, e: Doc)
    requires m != []
    ensures Newest(m, d) && Oldest(m, e)
    ensures ScalarValue(D.Last, m) == NumberOf(d) && ScalarValue(D.Delta, m) == NumberOf(d) - NumberOf(e)
  {
    var s := Sort(m, ByTs());
    var n := |s| - 1;
    SortSorts(m, ByTs());
    forall e | e in m ensures s[0].ts <= e.ts <= s[n].ts {
      var i :| 0 <= i < |s| && s[i] == e;
      assert 0 < i ==> ByTs()(s[0], s[i]);
      assert i < n ==> ByTs()(s[i], s[n]);
    }
    d, e := s[n], s[0];
  }

  /** `last` is the number of a newest document; `delta` is that less the number of an oldest. */
  lemma EndsOfWindow(m: seq<Doc>)
    requires m != []
    ensures exists d :: Newest(m, d) && ScalarValue(D.Last, m) == NumberOf(d)
    ensures exists d, e :: Newest(m, d) && Oldest(m, e) && ScalarValue(D.Delta, m) == NumberOf(d) - NumberOf(e)
  {
    var d, e := FindEnds(m);
  }

  // ------------------------------------------------------------- how many buckets

  /** Ascending whole numbers in a range are at most as many as the range holds, and all of them if none is missing. */
  lemma {:induction false} AscendingFits(q: seq<int>, a: int, b: int)
    requires forall i, j :: 0 <= i < j < |q| ==> q[i] < q[j]
    requires forall i :: 0 <= i < |q| ==> a <= q[i] <= b
    requires a <= b + 1
    ensures |q| <= b - a + 1
    ensures (forall x :: a <= x <= b ==> x in q) ==> |q| == b - a + 1
    decreases b - a
  {
    assert q != [] ==> a <= q[0] <= b;
    if a <= b {
      var n := |q| - 1;
      if q != [] && q[n] == b {
        AscendingFits(q[..n], a, b - 1);
        forall x | a <= x <= b - 1 && x in q ensures x in q[..n] {
          var i :| 0 <= i < |q| && q[i] == x;
          assert q[..n][i] == x;
        }
      } else {
        assert b !in q;
        AscendingFits(q, a, b - 1);
      }
    }
  }

  /** The documents reach bucket number x. */
  ghost predicate Reached(m: seq<Doc>, dur: int, x: int)
    requires dur > 0
  {
    exists d :: d in m && d.ts / dur == x
  }

  /** Ascending starts of touched buckets are at most as many as the window touches, and all if none is missing. */
  lemma KeysFit(keys: seq<int>, from: int, to: int, dur: int)
    requires dur > 0 && from <= to
    requires forall i, j :: 0 <= i < j < |keys| ==> keys[i] < keys[j]
    requires forall i :: 0 <= i < |keys| ==> KeyInRange(keys[i], from, to, dur)
    ensures |keys| <= D.TouchedBuckets(from, to, dur)
    ensures (forall x :: from / dur <= x <= to / dur ==> x * dur in keys) ==> |keys| == D.TouchedBuckets(from, to, dur)
  {
    var q := seq(|keys|, i requires 0 <= i < |keys| => keys[i] / dur);
    forall i, j | 0 <= i < j < |q| ensures q[i] < q[j] {
      assert KeyInRange(keys[i], from, to, dur) && KeyInRange(keys[j], from, to, dur);
      QuotientMonotone(keys[i], keys[j], dur);
    }
    forall i | 0 <= i < |q| ensures from / dur <= q[i] <= to / dur {
      assert KeyInRange(keys[i], from, to, dur);
    }
    QuotientMonotone(from, to, dur);
    AscendingFits(q, from / dur, to / dur);
    forall x | from / dur <= x <= to / dur && x * dur in keys ensures x in q {
      var i :| 0 <= i < |keys| && keys[i] == x * dur;
      DivisionIs(keys[i], x, 0, dur);
      assert q[i] == x;
    }
  }

  /** A series has at most one point for each bucket its window touches, and exactly that many when every one of them
      has a document. */
  lemma SeriesSize(m: seq<Doc>, from: int, to: int, dur: int, agg: D.Agg)
    requires dur > 0 && (agg == D.Count || Accumulates(agg)) && from <= to
    requires forall d :: d in m ==> from <= d.ts <= to
    ensures |SeriesRows(m, dur, agg)| <= D.TouchedBuckets(from, to, dur)
    ensures (forall x :: from / dur <= x <= to / dur ==> Reached(m, dur, x)) ==>
              |SeriesRows(m, dur, agg)| == D.TouchedBuckets(from, to, dur)
  {
    SeriesKeysCover(m, dur);
    var keys := SeriesKeys(m, dur);
    forall i | 0 <= i < |keys| ensures KeyInRange(keys[i], from, to, dur) {
      SeriesKeyInRange(m, from, to, dur, i);
    }
    forall x | from / dur <= x <= to / dur && Reached(m, dur, x) ensures x * dur in keys {
      var d :| d in m && d.ts / dur == x;
      assert D.BucketStart(d.ts, dur) in keys;
    }
    KeysFit(keys, from, to, dur);
  }

  lemma SeriesKeyInRange(m: seq<Doc>, from: int, to: int, dur: int, i: nat)
    requires dur > 0 && i < |SeriesKeys(m, dur)|
    requires forall d :: d in m ==> from <= d.ts <= to
    ensures KeyInRange(SeriesKeys(m, dur)[i], from, to, dur)
  {
    SeriesKeysCover(m, dur);
    var keys := SeriesKeys(m, dur);
    assert keys[i] in keys;
    var d :| d in m && D.BucketStart(d.ts, dur) == keys[i];
    BucketNumber(d.ts, from, to, dur);
  }

  /** The points of a series ascend strictly, and each starts a bucket that the window touches. */
  lemma SeriesOnGrid(docs: seq<Doc>, w: Window, bucket: D.Bucket, agg: D.Agg)
    requires Series(docs, w, bucket, agg).Ok?
    ensures var points := Series(docs, w, bucket, agg).value.0;
            && (forall i, j :: 0 <= i < j < |points| ==> points[i].ts < points[j].ts)
            && (forall i :: 0 <= i < |points| ==> KeyInRange(points[i].ts, w.from, w.to, D.Duration(bucket).value))
  {
    var m, dur := Sampled(docs, w, agg), D.Duration(bucket).value;
    RowsOnGrid(m, w.from, w.to, dur, agg);
    assert Series(docs, w, bucket, agg).value.0 == Points(SeriesRows(m, dur, agg));
  }

  lemma RowsOnGrid(m: seq<Doc>, from: int, to: int, dur: int, agg: D.Agg)
    requires dur > 0 && (agg == D.Count || Accumulates(agg))
    requires forall d :: d in m ==> from <= d.ts <= to
    ensures var points := Points(SeriesRows(m, dur, agg));
            && (forall i, j :: 0 <= i < j < |points| ==> points[i].ts < points[j].ts)
            && (forall i :: 0 <= i < |points| ==> KeyInRange(points[i].ts, from, to, dur))
  {
    var points := Points(SeriesRows(m, dur, agg));
    SeriesKeysCover(m, dur);
    forall i | 0 <= i < |points|
      ensures points[i].ts == SeriesKeys(m, dur)[i] && KeyInRange(points[i].ts, from, to, dur)
    {
      SeriesKeyInRange(m, from, to, dur, i);
    }
  }

  ghost predicate KeyInRange(k: int, from: int, to: int, dur: int)
    requires dur > 0
  {
    from / dur <= k / dur <= to / dur && k == k / dur * dur
  }

  lemma BucketNumber(t: int, from: int, to: int, dur: int)
    requires dur > 0 && from <= t <= to
    ensures KeyInRange(D.BucketStart(t, dur), from, to, dur)
    ensures D.BucketStart(t, dur) / dur == t / dur
  {
    DivisionIs(D.BucketStart(t, dur), t / dur, 0, dur);
    QuotientMonotone(from, t, dur);
    QuotientMonotone(t, to, dur);
  }

  /** A window of the accepted length does not saturate the 64-bit difference, below 106752 buckets of a day. */
  lemma AcceptedWindow(from: int, to: int, bucket: D.Bucket, maxBuckets: int)
    requires from <= to && D.Duration(bucket).Some? && D.CheckBucketCount(from, to, bucket, maxBuckets).None?
    requires maxBuckets <= D.MAX_DURATION / (24 * D.HOUR)
    ensures to - from <= D.MAX_DURATION
    ensures D.ExpectedBuckets(from, to, D.Duration(bucket).value) <= maxBuckets
  {
  }

  /** A series query that Validate accepts yields at most one point more than the bucket limit. */
  lemma AcceptedSeriesFits(q: D.MetricQuery, docs: seq<Doc>, w: Window, agg: D.Agg, limits: D.Limits)
    requires D.Validate(q, w.from, w.to, limits) == Ok(D.ModeSeries)
    requires w.from <= w.to && limits.maxBuckets <= D.MAX_DURATION / (24 * D.HOUR)
    requires Series(docs, w, q.bucket, agg).Ok?
    ensures |Series(docs, w, q.bucket, agg).value.0| <= limits.maxBuckets + 1
    ensures w.from % D.Duration(q.bucket).value == 0 ==> |Series(docs, w, q.bucket, agg).value.0| <= limits.maxBuckets
  {
    var dur := D.Duration(q.bucket).value;
    AcceptedWindow(w.from, w.to, q.bucket, limits.maxBuckets);
    D.TouchedIsExpected(w.from, w.to, dur);
    SeriesSize(Sampled(docs, w, agg), w.from, w.to, dur, agg);
  }
}
