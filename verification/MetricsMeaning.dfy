/** What the values of a metric are, in terms of the documents alone. */
module MetricsMeaning {
  import opened Arithmetic
  import opened Collections
  import D = MetricsDomain
  import opened MetricsRepository
  import A = MetricsAgreement

  /** A document that an aggregation looks at: a match, and a number unless it only counts. */
  predicate Looks(d: Doc, w: Window, agg: D.Agg) { Matches(d, w) && (agg == D.Count || d.value.NumberValue?) }

  function Looked(w: Window, agg: D.Agg): Doc -> bool { (d: Doc) => Looks(d, w, agg) }

  lemma SampledIs(docs: seq<Doc>, w: Window, agg: D.Agg)
    ensures Sampled(docs, w, agg) == Filter(docs, Looked(w, agg))
  {
    if agg == D.Count {
      FilterCongruent(docs, (d: Doc) => Matches(d, w), Looked(w, agg));
    } else {
      FilterTwice(docs, (d: Doc) => Matches(d, w), (d: Doc) => d.value.NumberValue?, Looked(w, agg));
    }
  }

  function ValueOf(docs: seq<Doc>, w: Window, agg: D.Agg): real
    requires Scalar(docs, w, agg).Ok?
  {
    Scalar(docs, w, agg).value.0.value
  }

  function SamplesOf(docs: seq<Doc>, w: Window, agg: D.Agg): nat
    requires Scalar(docs, w, agg).Ok?
  {
    Scalar(docs, w, agg).value.0.sampleCount
  }

  lemma ScalarIs(docs: seq<Doc>, w: Window, agg: D.Agg)
    requires agg != D.Raw && !agg.OtherAgg?
    ensures var m := Sampled(docs, w, agg);
            && SamplesOf(docs, w, agg) == |m|
            && ValueOf(docs, w, agg) == if m == [] then 0.0 else ScalarValue(agg, m)
  {
  }

  // ------------------------------------------------------------- sums, counts and averages

  lemma {:induction false} TotalConcat(a: seq<Doc>, b: seq<Doc>, weight: Weight)
    ensures Total(a + b, weight) == Total(a, weight) + Total(b, weight)
  {
    if a == [] {
      assert a + b == b;
    } else {
      assert (a + b)[0] == a[0] && (a + b)[1..] == a[1..] + b;
      TotalConcat(a[1..], b, weight);
    }
  }

  /** One document more, anywhere: one sample more if the aggregation looks at it. */
  lemma SampledWith(a: seq<Doc>, d: Doc, b: seq<Doc>, w: Window, agg: D.Agg)
    ensures Sampled(a + [d] + b, w, agg)
         == Sampled(a, w, agg) + (if Looks(d, w, agg) then [d] else []) + Sampled(b, w, agg)
    ensures Sampled(a + b, w, agg) == Sampled(a, w, agg) + Sampled(b, w, agg)
  {
    var looked := Looked(w, agg);
    SampledIs(a + [d] + b, w, agg);
    SampledIs(a + b, w, agg);
    SampledIs(a, w, agg);
    SampledIs(b, w, agg);
    FilterConcat(a + [d], b, looked);
    FilterConcat(a, [d], looked);
    FilterConcat(a, b, looked);
    assert Filter([d], looked) == if Looks(d, w, agg) then [d] else [];
  }

  /** Nothing sampled: zero, no samples. Every match counts once, every number once for what accumulates. */
  lemma SamplesCountEach(a: seq<Doc>, d: Doc, b: seq<Doc>, w: Window, agg: D.Agg)
    requires agg != D.Raw && !agg.OtherAgg?
    ensures SamplesOf([], w, agg) == 0
    ensures SamplesOf(a + [d] + b, w, agg)
         == SamplesOf(a + b, w, agg)
            + if Matches(d, w) && (agg == D.Count || d.value.NumberValue?) then 1 else 0
  {
    SampledWith(a, d, b, w, agg);
  }

  /** A sum grows by exactly the number of one matching document more, and is left alone by any other document. */
  lemma SumAddsEach(a: seq<Doc>, d: Doc, b: seq<Doc>, w: Window)
    ensures ValueOf([], w, D.Sum) == 0.0
    ensures ValueOf(a + [d] + b, w, D.Sum)
         == ValueOf(a + b, w, D.Sum) + if Matches(d, w) && d.value.NumberValue? then d.value.n else 0.0
  {
    SampledWith(a, d, b, w, D.Sum);
    var mine := if Looks(d, w, D.Sum) then [d] else [];
    var x, y := Sampled(a, w, D.Sum), Sampled(b, w, D.Sum);
    TotalConcat(x + mine, y, Its);
    TotalConcat(x, mine, Its);
    TotalConcat(x, y, Its);
    SumIsTotal(a + [d] + b, w);
    SumIsTotal(a + b, w);
    assert Total(mine, Its) == if Looks(d, w, D.Sum) then d.value.n else 0.0;
  }

  lemma SumIsTotal(docs: seq<Doc>, w: Window)
    ensures ValueOf(docs, w, D.Sum) == Total(Sampled(docs, w, D.Sum), Its)
  {
  }

  /** A count is its samples. */
  lemma CountIsItsSamples(docs: seq<Doc>, w: Window)
    ensures ValueOf(docs, w, D.Count) == SamplesOf(docs, w, D.Count) as real
  {
    TotalOfOnes(Sampled(docs, w, D.Count));
  }

  function Product(a: real, b: real): real { a * b }

  lemma AverageOf(m: seq<Doc>)
    requires m != []
    ensures Product(|m| as real, ScalarValue(D.Avg, m)) == ScalarValue(D.Sum, m)
  {
    A.AverageTimesSize(m);
  }

  lemma AverageOfSome(docs: seq<Doc>, w: Window)
    requires Numeric(docs, w) != []
    ensures Product(SamplesOf(docs, w, D.Avg) as real, ValueOf(docs, w, D.Avg)) == ValueOf(docs, w, D.Sum)
  {
    ScalarIs(docs, w, D.Avg);
    ScalarIs(docs, w, D.Sum);
    AverageOf(Numeric(docs, w));
  }

  lemma AverageOfNone(docs: seq<Doc>, w: Window)
    requires Numeric(docs, w) == []
    ensures Product(SamplesOf(docs, w, D.Avg) as real, ValueOf(docs, w, D.Avg)) == ValueOf(docs, w, D.Sum)
  {
    ScalarIs(docs, w, D.Avg);
    ScalarIs(docs, w, D.Sum);
    NoneTimes(ValueOf(docs, w, D.Avg));
  }

  lemma SameSamples(docs: seq<Doc>, w: Window)
    ensures SamplesOf(docs, w, D.Avg) == SamplesOf(docs, w, D.Sum)
  {
    ScalarIs(docs, w, D.Avg);
    ScalarIs(docs, w, D.Sum);
  }

  /** An average times its samples is the sum; the samples are the same. */
  lemma AverageSharesTheSum(docs: seq<Doc>, w: Window)
    ensures SamplesOf(docs, w, D.Avg) == SamplesOf(docs, w, D.Sum)
    ensures SamplesOf(docs, w, D.Avg) as real * ValueOf(docs, w, D.Avg) == ValueOf(docs, w, D.Sum)
  {
    SameSamples(docs, w);
    if Numeric(docs, w) == [] {
      AverageOfNone(docs, w);
    } else {
      AverageOfSome(docs, w);
    }
    Times(SamplesOf(docs, w, D.Avg) as real, ValueOf(docs, w, D.Avg), ValueOf(docs, w, D.Sum));
  }

  lemma NoneTimes(v: real)
    ensures Product(0.0, v) == 0.0
  {
  }

  lemma Times(n: real, v: real, p: real)
    requires Product(n, v) == p
    ensures n * v == p
  {
  }

  /** With one matching number, the sum and the average are that number. */
  lemma OneNumber(d: Doc, w: Window)
    requires Matches(d, w) && d.value.NumberValue?
    ensures ValueOf([d], w, D.Sum) == d.value.n && ValueOf([d], w, D.Avg) == d.value.n
  {
    LookedAtOne(d, w);
    ScalarIs([d], w, D.Sum);
    ScalarIs([d], w, D.Avg);
    AverageOf([d]);
  }

  lemma LookedAtOne(d: Doc, w: Window)
    requires Matches(d, w) && d.value.NumberValue?
    ensures Numeric([d], w) == [d]
    ensures ScalarValue(D.Sum, [d]) == d.value.n
  {
    assert [d][1..] == [];
    assert Total([d], Its) == d.value.n;
  }

  lemma WithoutOne(docs: seq<Doc>, a: seq<Doc>, d: Doc, b: seq<Doc>)
    requires docs != [] && docs[0] == d && multiset(docs) == multiset(a + [d] + b)
    ensures multiset(docs[1..]) == multiset(a + b)
  {
    assert docs == [d] + docs[1..];
    assert multiset(docs[1..]) == multiset(docs) - multiset{d};
    assert multiset(a + [d] + b) == multiset(a) + multiset{d} + multiset(b);
  }

  /** The first document elsewhere. */
  lemma SumMoves(docs: seq<Doc>, a: seq<Doc>, d: Doc, b: seq<Doc>, w: Window)
    requires docs != [] && docs[0] == d
    requires ValueOf(docs[1..], w, D.Sum) == ValueOf(a + b, w, D.Sum)
    requires SamplesOf(docs[1..], w, D.Sum) == SamplesOf(a + b, w, D.Sum)
    ensures ValueOf(docs, w, D.Sum) == ValueOf(a + [d] + b, w, D.Sum)
    ensures SamplesOf(docs, w, D.Sum) == SamplesOf(a + [d] + b, w, D.Sum)
  {
    var rest := docs[1..];
    assert docs == [] + [d] + rest && [] + rest == rest;
    SumAddsEach([], d, rest, w);
    SumAddsEach(a, d, b, w);
    SamplesCountEach([], d, rest, w, D.Sum);
    SamplesCountEach(a, d, b, w, D.Sum);
  }

  lemma Elsewhere(docs: seq<Doc>, other: seq<Doc>) returns (a: seq<Doc>, b: seq<Doc>)
    requires docs != [] && multiset(docs) == multiset(other)
    ensures other == a + [docs[0]] + b && multiset(docs[1..]) == multiset(a + b)
  {
    assert docs[0] in multiset(other);
    var k :| 0 <= k < |other| && other[k] == docs[0];
    a, b := other[..k], other[k + 1..];
    assert other == a + [docs[0]] + b;
    WithoutOne(docs, a, docs[0], b);
  }

  /** The order of the documents does not matter to sums and samples. */
  lemma {:induction false} OrderDoesNotMatter(docs: seq<Doc>, other: seq<Doc>, w: Window)
    requires multiset(docs) == multiset(other)
    ensures ValueOf(docs, w, D.Sum) == ValueOf(other, w, D.Sum)
    ensures SamplesOf(docs, w, D.Sum) == SamplesOf(other, w, D.Sum)
    decreases |docs|
  {
    if docs == [] {
      assert |multiset(other)| == |other|;
      assert other == [];
    } else {
      var a, b := Elsewhere(docs, other);
      OrderDoesNotMatter(docs[1..], a + b, w);
      SumMoves(docs, a, docs[0], b, w);
    }
  }

  // ------------------------------------------------------------- extremes, ends and freshness

  lemma LookedAt(docs: seq<Doc>, w: Window, agg: D.Agg)
    ensures forall d :: d in Sampled(docs, w, agg) <==> d in docs && Looks(d, w, agg)
  {
    SampledIs(docs, w, agg);
  }

  /** d is a matching number. */
  predicate Number(docs: seq<Doc>, w: Window, d: Doc) { d in docs && Matches(d, w) && d.value.NumberValue? }

  /** The minimum is the number of some match, and no match has a smaller one; the maximum likewise. */
  lemma ExtremesOfNumbers(docs: seq<Doc>, w: Window)
    requires SamplesOf(docs, w, D.Min) > 0
    ensures exists d :: Number(docs, w, d) && ValueOf(docs, w, D.Min) == d.value.n
    ensures forall d :: Number(docs, w, d) ==> ValueOf(docs, w, D.Min) <= d.value.n
    ensures exists d :: Number(docs, w, d) && ValueOf(docs, w, D.Max) == d.value.n
    ensures forall d :: Number(docs, w, d) ==> d.value.n <= ValueOf(docs, w, D.Max)
  {
    ScalarIs(docs, w, D.Min);
    ScalarIs(docs, w, D.Max);
    LeastIsNumber(docs, w);
    GreatestIsNumber(docs, w);
  }

  lemma LeastIsNumber(docs: seq<Doc>, w: Window)
    requires Numeric(docs, w) != []
    ensures exists d :: Number(docs, w, d) && Least(Numeric(docs, w)) == d.value.n
    ensures forall d :: Number(docs, w, d) ==> Least(Numeric(docs, w)) <= d.value.n
  {
    var m := Numeric(docs, w);
    LookedAt(docs, w, D.Min);
    Extremes(m);
    var d :| d in m && NumberOf(d) == Least(m);
    assert Number(docs, w, d);
  }

  lemma GreatestIsNumber(docs: seq<Doc>, w: Window)
    requires Numeric(docs, w) != []
    ensures exists d :: Number(docs, w, d) && Greatest(Numeric(docs, w)) == d.value.n
    ensures forall d :: Number(docs, w, d) ==> d.value.n <= Greatest(Numeric(docs, w))
  {
    var m := Numeric(docs, w);
    LookedAt(docs, w, D.Max);
    Extremes(m);
    var d :| d in m && NumberOf(d) == Greatest(m);
    assert Number(docs, w, d);
  }

  ghost predicate NewestNumber(docs: seq<Doc>, w: Window, d: Doc) {
    Number(docs, w, d) && forall e :: Number(docs, w, e) ==> e.ts <= d.ts
  }

  ghost predicate OldestNumber(docs: seq<Doc>, w: Window, d: Doc) {
    Number(docs, w, d) && forall e :: Number(docs, w, e) ==> d.ts <= e.ts
  }

  /** `last` is the number of a newest match, `delta` that less the number of an oldest. */
  lemma EndsOfNumbers(docs: seq<Doc>, w: Window)
    requires SamplesOf(docs, w, D.Last) > 0
    ensures exists d :: NewestNumber(docs, w, d) && ValueOf(docs, w, D.Last) == d.value.n
    ensures exists d, c :: NewestNumber(docs, w, d) && OldestNumber(docs, w, c)
                           && ValueOf(docs, w, D.Delta) == d.value.n - c.value.n
  {
    var m := Numeric(docs, w);
    ScalarIs(docs, w, D.Last);
    ScalarIs(docs, w, D.Delta);
    var d, c := A.FindEnds(m);
    EndsAreNumbers(docs, w, d, c);
  }

  lemma EndsAreNumbers(docs: seq<Doc>, w: Window, d: Doc, c: Doc)
    requires A.Newest(Numeric(docs, w), d) && A.Oldest(Numeric(docs, w), c)
    ensures NewestNumber(docs, w, d) && OldestNumber(docs, w, c)
    ensures NumberOf(d) == d.value.n && NumberOf(c) == c.value.n
  {
    LookedAt(docs, w, D.Last);
    assert Numeric(docs, w) == Sampled(docs, w, D.Last);
  }

  /** Freshness is the time of a document looked at, and none is newer; nothing looked at, no freshness. */
  lemma FreshnessIsNewest(docs: seq<Doc>, w: Window, agg: D.Agg)
    requires agg != D.Raw && !agg.OtherAgg?
    ensures match Scalar(docs, w, agg).value.1
            case None => forall d :: d in docs ==> !Looks(d, w, agg)
            case Some(t) =>
              && (exists d :: d in docs && Looks(d, w, agg) && d.ts == t)
              && forall d :: d in docs && Looks(d, w, agg) ==> d.ts <= t
  {
    LookedAt(docs, w, agg);
    var m := Sampled(docs, w, agg);
    if m != [] {
      Extremes(m);
      var d :| d in m && d.ts == Latest(m);
    } else {
      assert forall d :: d in docs && Looks(d, w, agg) ==> d in m;
    }
  }

  // ------------------------------------------------------------- series and groups are scalars

  /** The part of a window that lies in the bucket that starts at k. */
  function Clip(w: Window, k: int, dur: int): Window {
    w.(from := if w.from < k then k else w.from, to := if w.to < k + dur - 1 then w.to else k + dur - 1)
  }

  lemma InBucketIff(t: int, k: int, dur: int)
    requires dur > 0 && k % dur == 0
    ensures D.BucketStart(t, dur) == k <==> k <= t < k + dur
  {
    var q := k / dur;
    assert k == q * dur;
    if k <= t < k + dur {
      DivisionIs(t, q, t - k, dur);
    }
    assert t == t / dur * dur + t % dur;
  }

  lemma BucketIsClip(docs: seq<Doc>, w: Window, agg: D.Agg, dur: int, k: int)
    requires dur > 0 && k % dur == 0
    ensures InBucket(Sampled(docs, w, agg), dur, k) == Sampled(docs, Clip(w, k, dur), agg)
  {
    SampledIs(docs, w, agg);
    SampledIs(docs, Clip(w, k, dur), agg);
    forall d | d in docs
      ensures Looked(Clip(w, k, dur), agg)(d) == (Looked(w, agg)(d) && D.BucketStart(d.ts, dur) == k)
    {
      InBucketIff(d.ts, k, dur);
    }
    FilterTwice(docs, Looked(w, agg), (d: Doc) => D.BucketStart(d.ts, dur) == k, Looked(Clip(w, k, dur), agg));
  }

  lemma StartIsMultiple(t: int, dur: int)
    requires dur > 0
    ensures D.BucketStart(t, dur) % dur == 0
  {
    DivisionIs(D.BucketStart(t, dur), t / dur, 0, dur);
  }

  /** Each point of a series is the scalar of the window clipped to its bucket, of a whole duration, and there are such
      samples. */
  lemma PointIsScalar(docs: seq<Doc>, w: Window, bucket: D.Bucket, agg: D.Agg, i: nat)
    requires Series(docs, w, bucket, agg).Ok? && i < |Series(docs, w, bucket, agg).value.0|
    ensures var p, dur := Series(docs, w, bucket, agg).value.0[i], D.Duration(bucket).value;
            && p.ts % dur == 0 && p.sampleCount > 0
            && Scalar(docs, Clip(w, p.ts, dur), agg).Ok?
            && Scalar(docs, Clip(w, p.ts, dur), agg).value.0 == MetricResult(p.value, p.sampleCount)
  {
    var m, dur := Sampled(docs, w, agg), D.Duration(bucket).value;
    var k := SeriesKeys(m, dur)[i];
    assert Series(docs, w, bucket, agg).value.0[i] == A.PointOf(RowOf(m, dur, agg, k));
    var d := DocOfKey(m, dur, i);
    StartIsMultiple(d.ts, dur);
    RowIsScalar(docs, w, agg, dur, k, d);
  }

  lemma DocOfKey(m: seq<Doc>, dur: int, i: nat) returns (d: Doc)
    requires dur > 0 && i < |SeriesKeys(m, dur)|
    ensures d in m && D.BucketStart(d.ts, dur) == SeriesKeys(m, dur)[i]
  {
    var keys := SeriesKeys(m, dur);
    A.SeriesKeysCover(m, dur);
    assert keys[i] in keys;
    d :| d in m && D.BucketStart(d.ts, dur) == keys[i];
  }

  lemma RowIsScalar(docs: seq<Doc>, w: Window, agg: D.Agg, dur: int, k: int, d: Doc)
    requires dur > 0 && k % dur == 0 && (agg == D.Count || Accumulates(agg))
    requires d in Sampled(docs, w, agg) && D.BucketStart(d.ts, dur) == k
    ensures var row := RowOf(Sampled(docs, w, agg), dur, agg, k);
            && row.ts == k && row.sampleCount > 0
            && Scalar(docs, Clip(w, k, dur), agg)
               == Ok((MetricResult(row.value, row.sampleCount), Some(row.dataAsOf)))
  {
    var g := InBucket(Sampled(docs, w, agg), dur, k);
    assert d in g;
    BucketIsClip(docs, w, agg, dur, k);
    ScalarOfGroup(docs, Clip(w, k, dur), agg, g);
  }

  lemma ScalarOfGroup(docs: seq<Doc>, w: Window, agg: D.Agg, g: seq<Doc>)
    requires g == Sampled(docs, w, agg) && g != [] && (agg == D.Count || Accumulates(agg))
    ensures Scalar(docs, w, agg) == Ok((MetricResult(GroupValue(agg, g), |g|), Some(Latest(g))))
  {
  }

  /** Every document looked at is in the bucket of some point. */
  lemma EveryDocHasAPoint(docs: seq<Doc>, w: Window, bucket: D.Bucket, agg: D.Agg, d: Doc)
    requires Series(docs, w, bucket, agg).Ok? && d in docs && Looks(d, w, agg)
    ensures var points, dur := Series(docs, w, bucket, agg).value.0, D.Duration(bucket).value;
            exists i :: 0 <= i < |points| && points[i].ts <= d.ts < points[i].ts + dur
  {
    var m, dur := Sampled(docs, w, agg), D.Duration(bucket).value;
    LookedAt(docs, w, agg);
    A.SeriesKeysCover(m, dur);
    var keys := SeriesKeys(m, dur);
    var i :| 0 <= i < |keys| && keys[i] == D.BucketStart(d.ts, dur);
    StartIsMultiple(d.ts, dur);
    InBucketIff(d.ts, keys[i], dur);
    assert Series(docs, w, bucket, agg).value.0[i].ts == keys[i];
  }

  /** The field of a document that a query groups by. */
  function Field(path: string, k: Option<D.Value>): Doc -> bool {
    (d: Doc) => match k case None => path !in d.fields case Some(v) => path in d.fields && d.fields[path] == v
  }

  /** The value and the freshness of a group are those of the scalar of the documents with its key. */
  lemma GroupIsScalar(docs: seq<Doc>, w: Window, path: string, agg: D.Agg, k: Option<D.Value>)
    requires agg == D.Count || Accumulates(agg)
    ensures var row := GroupRowOf(Sampled(docs, w, agg), path, agg, k);
            var mine := Filter(docs, Field(path, k));
            && row.key == k && row.value == ValueOf(mine, w, agg)
            && (SamplesOf(mine, w, agg) > 0 ==> Scalar(mine, w, agg).value.1 == Some(row.dataAsOf))
  {
    var mine := Filter(docs, Field(path, k));
    var g := Group(Sampled(docs, w, agg), FieldOf(path), k);
    GroupIsSampled(docs, w, path, agg, k);
    if g != [] {
      ScalarOfGroup(mine, w, agg, g);
    }
  }

  lemma GroupIsSampled(docs: seq<Doc>, w: Window, path: string, agg: D.Agg, k: Option<D.Value>)
    ensures Group(Sampled(docs, w, agg), FieldOf(path), k) == Sampled(Filter(docs, Field(path, k)), w, agg)
  {
    var both := (d: Doc) => Field(path, k)(d) && Looked(w, agg)(d);
    SampledIs(docs, w, agg);
    SampledIs(Filter(docs, Field(path, k)), w, agg);
    FilterTwice(docs, Field(path, k), Looked(w, agg), both);
    FilterTwice(docs, Looked(w, agg), KeyTest(FieldOf(path), k), both);
  }
}
