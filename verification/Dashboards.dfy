/** The dashboard service: a query is validated, sent to the repository once per metric, and assembled by mode. */
module Dashboards {
  import opened Collections
  import D = MetricsDomain
  import R = MetricsRepository
  import A = MetricsAgreement
  import M = SeriesMerge
  import V = MetricsMeaning
  import Decimation

  datatype RawPoint = RawPoint(ts: int, value: D.Value)

  /** A group by the printed form of its key. */
  datatype Group = Group(key: string, value: real)

  /** How a key is printed; an absent field too. */
  type Show = Option<D.Value> -> string

  datatype QueryResult =
    | ScalarResult(results: seq<M.MetricResult>, dataAsOf: Option<int>)
    | SeriesResult(series: seq<M.SeriesPoint>, dataAsOf: Option<int>)
    | RawResult(points: seq<RawPoint>, dataAsOf: Option<int>)
    | GroupedResult(groups: seq<Group>, dataAsOf: Option<int>)

  /** A query is refused with a code, or the repository does not support what it asks for. */
  datatype QueryError = Rejected(code: D.Code) | Broken(failure: R.Failure)

  // ------------------------------------------------------------- freshness

  /** The greatest of some times. */
  ghost predicate IsNewest(times: seq<int>, r: Option<int>) {
    && (r.None? <==> times == [])
    && (r.Some? ==> r.value in times && forall t :: t in times ==> t <= r.value)
  }

  function Present(ts: seq<Option<int>>): (r: seq<int>)
    ensures forall t :: t in r <==> Some(t) in ts
  {
    if ts == [] then [] else
      var n := |ts| - 1;
      assert ts == ts[..n] + [ts[n]];
      Present(ts[..n]) + if ts[n].Some? then [ts[n].value] else []
  }

  method MaxDataAsOf(ts: seq<Option<int>>) returns (max: Option<int>)
    ensures IsNewest(Present(ts), max)
  {
    max := None;
    for i := 0 to |ts|
      invariant IsNewest(Present(ts[..i]), max)
    {
      assert ts[..i + 1][..i] == ts[..i];
      if ts[i].None? {
        continue;
      }
      if max.None? || ts[i].value > max.value {
        max := ts[i];
      }
    }
    assert ts[..|ts|] == ts;
  }

  // ------------------------------------------------------------- raw

  function PointsOf(rows: seq<R.Doc>): (r: seq<RawPoint>)
    ensures |r| == |rows|
  {
    seq(|rows|, i requires 0 <= i < |rows| => RawPoint(rows[i].ts, rows[i].value))
  }

  function Times(rows: seq<R.Doc>): (r: seq<int>)
    ensures |r| == |rows|
  {
    seq(|rows|, i requires 0 <= i < |rows| => rows[i].ts)
  }

  /** The matches in time order. */
  function InOrder(docs: seq<R.Doc>, w: R.Window): seq<R.Doc> { Sort(R.Matched(docs, w), R.ByTs()) }

  /** Exactly `max` points of `all`, at evenly spaced positions from the first to the last; only the last if `max` is
      one. */
  ghost predicate Thinned(all: seq<RawPoint>, points: seq<RawPoint>, max: int, slack: real) {
    exists pos :: Decimation.PicksAt(all, pos, points)
                  && if max == 1 then pos == [|all| - 1] else Decimation.Even(|all|, max, pos, slack)
  }

  /** Numbers precise enough to thin up to `limit` points. */
  ghost predicate Precise(round: real -> real, limit: int) {
    && Decimation.KeepsSign(round)
    && (Decimation.Exact(round) || (Decimation.Rounds(round) && limit <= 16777216))
  }

  method Raw(docs: seq<R.Doc>, w: R.Window, limit: nat, maxPoints: int, round: real -> real)
    returns (points: seq<RawPoint>, dataAsOf: Option<int>)
    requires Precise(round, limit - 1)
    ensures var rows := R.Take(InOrder(docs, w), limit);
            && IsNewest(Times(rows), dataAsOf)
            && if 0 < maxPoints < |rows| < limit then
                 Thinned(PointsOf(rows), points, maxPoints, SlackOf(round))
               else points == PointsOf(rows)
  {
    var rows := R.Take(InOrder(docs, w), limit);
    points, dataAsOf := [], None;
    for i := 0 to |rows|
      invariant points == PointsOf(rows[..i])
      invariant IsNewest(Times(rows[..i]), dataAsOf)
    {
      assert Times(rows[..i + 1]) == Times(rows[..i]) + [rows[i].ts];
      points := points + [RawPoint(rows[i].ts, rows[i].value)];
      if dataAsOf.None? || rows[i].ts > dataAsOf.value {
        dataAsOf := Some(rows[i].ts);
      }
    }
    assert rows[..|rows|] == rows;
    if maxPoints > 0 && |points| > maxPoints && |points| < limit {
      ghost var all := points;
      points := DecimateRaw(points, maxPoints, round);
    }
  }

  method DecimateRaw(all: seq<RawPoint>, max: int, round: real -> real) returns (points: seq<RawPoint>)
    requires 0 < max < |all| && Precise(round, |all|)
    ensures Thinned(all, points, max, SlackOf(round))
  {
    points := Decimation.DecimateUniform(all, max, round);
    if max == 1 {
      assert Decimation.PicksAt(all, [|all| - 1], points);
    }
  }

  /** No slack with exact numbers. */
  ghost function SlackOf(round: real -> real): real { Decimation.Slack(Decimation.Exact(round)) }

  /** A raw window is never cut short: it is refused exactly when it has too many matches, and otherwise all of them
      come back in time order, or as many as asked for with both ends; freshness looks at the whole window. */
  method QueryRaw(docs: seq<R.Doc>, w: R.Window, maxPoints: int, limits: D.Limits, round: real -> real)
    returns (r: Result<QueryResult, QueryError>)
    requires 0 <= maxPoints <= limits.maxRawPoints && Precise(round, limits.maxRawPoints)
    ensures RawOutcome(docs, w, maxPoints, limits, SlackOf(round), r)
  {
    var limit := limits.maxRawPoints + 1;
    var points, dataAsOf := Raw(docs, w, limit, maxPoints, round);
    WindowIsWhole(docs, w, limit, maxPoints, SlackOf(round), points);
    if |points| >= limit {
      return Err(Rejected(D.RangeTooWide));
    }
    SameTimes(docs, w, dataAsOf);
    InTimeOrder(docs, w);
    return Ok(RawResult(points, dataAsOf));
  }

  /** What was fetched under a limit is the window, unless the window reaches the limit. */
  lemma WindowIsWhole(docs: seq<R.Doc>, w: R.Window, limit: nat, maxPoints: int, slack: real, points: seq<RawPoint>)
    requires maxPoints < limit
    requires var rows := R.Take(InOrder(docs, w), limit);
             if 0 < maxPoints < |rows| < limit then Thinned(PointsOf(rows), points, maxPoints, slack)
             else points == PointsOf(rows)
    ensures |points| >= limit <==> |R.Matched(docs, w)| >= limit
    ensures |R.Matched(docs, w)| < limit ==>
              && R.Take(InOrder(docs, w), limit) == InOrder(docs, w)
              && if 0 < maxPoints < |R.Matched(docs, w)| then
                   Thinned(PointsOf(InOrder(docs, w)), points, maxPoints, slack)
                 else points == PointsOf(InOrder(docs, w))
  {
    assert |InOrder(docs, w)| == |R.Matched(docs, w)|;
  }

  ghost predicate RawOutcome(docs: seq<R.Doc>, w: R.Window, maxPoints: int, limits: D.Limits, slack: real,
                             r: Result<QueryResult, QueryError>)
  {
    var m, all := R.Matched(docs, w), PointsOf(InOrder(docs, w));
    if |m| > limits.maxRawPoints then r == Err(Rejected(D.RangeTooWide)) else
      && r.Ok? && r.value.RawResult?
      && (if 0 < maxPoints < |m| then Thinned(all, r.value.points, maxPoints, slack) else r.value.points == all)
      && (forall i, j :: 0 <= i < j < |all| ==> all[i].ts <= all[j].ts)
      && r.value.dataAsOf == if m == [] then None else Some(R.Latest(m))
  }

  lemma InTimeOrder(docs: seq<R.Doc>, w: R.Window)
    ensures forall i, j :: 0 <= i < j < |InOrder(docs, w)| ==> InOrder(docs, w)[i].ts <= InOrder(docs, w)[j].ts
  {
    var rows := InOrder(docs, w);
    SortSorts(R.Matched(docs, w), R.ByTs());
    forall i, j | 0 <= i < j < |rows| ensures rows[i].ts <= rows[j].ts {
      assert R.ByTs()(rows[i], rows[j]);
    }
  }

  lemma NewestIs(times: seq<int>, r: Option<int>, v: int)
    requires IsNewest(times, r) && v in times && forall t :: t in times ==> t <= v
    ensures r == Some(v)
  {
  }

  /** The newest of the sorted matches is the newest match. */
  lemma SameTimes(docs: seq<R.Doc>, w: R.Window, r: Option<int>)
    requires IsNewest(Times(InOrder(docs, w)), r)
    ensures r == if R.Matched(docs, w) == [] then None else Some(R.Latest(R.Matched(docs, w)))
  {
    var m, rows := R.Matched(docs, w), InOrder(docs, w);
    if m != [] {
      R.Extremes(m);
      var v := R.Latest(m);
      var d :| d in m && d.ts == v;
      var j :| 0 <= j < |rows| && rows[j] == d;
      assert Times(rows)[j] == v;
      forall i | 0 <= i < |rows| ensures Times(rows)[i] <= v {
        assert rows[i] in m;
      }
      NewestIs(Times(rows), r, v);
    }
  }

  // ------------------------------------------------------------- grouped

  function RowTimes(rows: seq<R.GroupRow>): (r: seq<int>)
    ensures |r| == |rows|
  {
    seq(|rows|, i requires 0 <= i < |rows| => rows[i].dataAsOf)
  }

  function GroupsOf(rows: seq<R.GroupRow>, show: Show): (r: seq<Group>)
    ensures |r| == |rows|
  {
    seq(|rows|, i requires 0 <= i < |rows| => Group(show(rows[i].key), rows[i].value))
  }

  method RunGrouped(rows: seq<R.GroupRow>, show: Show) returns (groups: seq<Group>, dataAsOf: Option<int>)
    ensures groups == GroupsOf(rows, show) && IsNewest(RowTimes(rows), dataAsOf)
  {
    groups, dataAsOf := [], None;
    for i := 0 to |rows|
      invariant groups == GroupsOf(rows[..i], show)
      invariant IsNewest(RowTimes(rows[..i]), dataAsOf)
    {
      assert RowTimes(rows[..i + 1]) == RowTimes(rows[..i]) + [rows[i].dataAsOf];
      groups := groups + [Group(show(rows[i].key), rows[i].value)];
      if dataAsOf.None? || rows[i].dataAsOf > dataAsOf.value {
        dataAsOf := Some(rows[i].dataAsOf);
      }
    }
    assert rows[..|rows|] == rows;
  }

  /** A grouped answer never drops a group: it is refused exactly when there are too many keys. */
  method QueryGrouped(docs: seq<R.Doc>, w: R.Window, path: string, agg: D.Agg, limits: D.Limits, show: Show)
    returns (r: Result<QueryResult, QueryError>)
    requires limits.maxGroups >= 0
    ensures if agg == D.Count || R.Accumulates(agg) then
              GroupedOutcome(R.Sampled(docs, w, agg), path, agg, limits, show, r)
            else r == Err(Broken(R.UnsupportedAgg))
  {
    var limit := limits.maxGroups + 1;
    var fetched := R.Grouped(docs, w, path, agg, limit);
    if fetched.Err? {
      return Err(Broken(fetched.error));
    }
    var groups, dataAsOf := RunGrouped(fetched.value, show);
    GroupRowsAre(R.Sampled(docs, w, agg), path, agg);
    if |groups| >= limit {
      return Err(Rejected(D.TooManyGroups));
    }
    GroupsFresh(R.Sampled(docs, w, agg), path, agg, fetched.value, dataAsOf);
    return Ok(GroupedResult(groups, dataAsOf));
  }

  /** One group for each key of the sampled documents, with the value of its documents, greatest value first. */
  ghost predicate GroupsExactly(m: seq<R.Doc>, path: string, agg: D.Agg, groups: seq<R.GroupRow>)
    requires agg == D.Count || R.Accumulates(agg)
  {
    && (forall i, j :: 0 <= i < j < |groups| ==> groups[i].key != groups[j].key && groups[i].value >= groups[j].value)
    && (forall d :: d in m ==> exists i :: 0 <= i < |groups| && groups[i].key == R.FieldOf(path)(d))
    && (forall i :: 0 <= i < |groups| ==>
          var g := R.Group(m, R.FieldOf(path), groups[i].key);
          g != [] && groups[i].value == R.GroupValue(agg, g))
  }

  ghost predicate GroupedOutcome(m: seq<R.Doc>, path: string, agg: D.Agg, limits: D.Limits, show: Show,
                                 r: Result<QueryResult, QueryError>)
    requires agg == D.Count || R.Accumulates(agg)
  {
    if |R.Keys(m, R.FieldOf(path))| > limits.maxGroups then r == Err(Rejected(D.TooManyGroups)) else
      && r.Ok? && r.value.GroupedResult?
      && (exists rows :: GroupsExactly(m, path, agg, rows) && r.value.groups == GroupsOf(rows, show))
      && r.value.dataAsOf == if m == [] then None else Some(R.Latest(m))
  }

  /** The rows are one for each key, ordered by value. */
  ghost predicate RowsExactly(m: seq<R.Doc>, path: string, agg: D.Agg, keys: seq<Option<D.Value>>,
                              rows: seq<R.GroupRow>)
    requires agg == D.Count || R.Accumulates(agg)
  {
    && |rows| == |keys|
    && (forall i, j :: 0 <= i < j < |rows| ==> rows[i].key != rows[j].key && rows[i].value >= rows[j].value)
    && (forall i :: 0 <= i < |rows| ==> rows[i].key in keys && rows[i] == R.GroupRowOf(m, path, agg, rows[i].key))
    && (forall k :: k in keys ==> exists i :: 0 <= i < |rows| && rows[i].key == k)
  }

  /** Sorting rows of distinct keys by value. */
  lemma SortedRows(keys: seq<Option<D.Value>>, unsorted: seq<R.GroupRow>)
    requires |unsorted| == |keys| && forall i :: 0 <= i < |keys| ==> unsorted[i].key == keys[i]
    requires forall i, j :: 0 <= i < j < |keys| ==> keys[i] != keys[j]
    ensures var rows := Sort(unsorted, R.ByValueDown());
            && (forall i, j :: 0 <= i < j < |rows| ==> rows[i].key != rows[j].key && rows[i].value >= rows[j].value)
            && (forall row :: row in rows ==> row in unsorted)
            && (forall k :: k in keys ==> exists i :: 0 <= i < |rows| && rows[i].key == k)
  {
    var rows := Sort(unsorted, R.ByValueDown());
    SortSorts(unsorted, R.ByValueDown());
    SortKeepsDistinct(unsorted, R.ByValueDown());
    forall i, j | 0 <= i < j < |rows| ensures rows[i].key != rows[j].key && rows[i].value >= rows[j].value {
      assert R.ByValueDown()(rows[i], rows[j]);
      assert rows[i] in unsorted && rows[j] in unsorted;
      var a, b :| 0 <= a < |keys| && 0 <= b < |keys| && unsorted[a] == rows[i] && unsorted[b] == rows[j];
      assert a != b;
    }
    forall k | k in keys ensures exists i :: 0 <= i < |rows| && rows[i].key == k {
      var j :| 0 <= j < |keys| && keys[j] == k;
      assert unsorted[j] in rows;
    }
  }

  lemma RowsAre(m: seq<R.Doc>, path: string, agg: D.Agg, keys: seq<Option<D.Value>>)
    requires agg == D.Count || R.Accumulates(agg)
    requires forall i, j :: 0 <= i < j < |keys| ==> keys[i] != keys[j]
    ensures RowsExactly(m, path, agg, keys, Sort(R.GroupRowsFor(m, path, agg, keys), R.ByValueDown()))
  {
    var unsorted := R.GroupRowsFor(m, path, agg, keys);
    var rows := Sort(unsorted, R.ByValueDown());
    SortedRows(keys, unsorted);
    forall i | 0 <= i < |rows| ensures rows[i].key in keys && rows[i] == R.GroupRowOf(m, path, agg, rows[i].key) {
      assert rows[i] in unsorted;
      var j :| 0 <= j < |unsorted| && unsorted[j] == rows[i];
      assert unsorted[j] == R.GroupRowOf(m, path, agg, keys[j]);
    }
  }

  /** The value of the row of a key that some document has. */
  lemma RowValue(m: seq<R.Doc>, path: string, agg: D.Agg, d: R.Doc)
    requires (agg == D.Count || R.Accumulates(agg)) && d in m
    ensures var g := R.Group(m, R.FieldOf(path), R.FieldOf(path)(d));
            g != [] && R.GroupRowOf(m, path, agg, R.FieldOf(path)(d)).value == R.GroupValue(agg, g)
  {
  }

  lemma GroupRowsAre(m: seq<R.Doc>, path: string, agg: D.Agg)
    requires agg == D.Count || R.Accumulates(agg)
    ensures RowsExactly(m, path, agg, R.Keys(m, R.FieldOf(path)), R.GroupRows(m, path, agg))
    ensures GroupsExactly(m, path, agg, R.GroupRows(m, path, agg))
  {
    var keys, rows := R.Keys(m, R.FieldOf(path)), R.GroupRows(m, path, agg);
    R.KeysExactly(m, R.FieldOf(path));
    RowsAre(m, path, agg, keys);
    GroupsFollow(m, path, agg, keys, rows);
  }

  lemma GroupsFollow(m: seq<R.Doc>, path: string, agg: D.Agg, keys: seq<Option<D.Value>>, rows: seq<R.GroupRow>)
    requires agg == D.Count || R.Accumulates(agg)
    requires RowsExactly(m, path, agg, keys, rows)
    requires forall k :: k in keys <==> exists d :: d in m && R.FieldOf(path)(d) == k
    ensures GroupsExactly(m, path, agg, rows)
  {
    forall d | d in m ensures exists i :: 0 <= i < |rows| && rows[i].key == R.FieldOf(path)(d) {
      assert R.FieldOf(path)(d) in keys;
    }
    forall i | 0 <= i < |rows|
      ensures var g := R.Group(m, R.FieldOf(path), rows[i].key);
              g != [] && rows[i].value == R.GroupValue(agg, g)
    {
      assert rows[i].key in keys;
      var d :| d in m && R.FieldOf(path)(d) == rows[i].key;
      RowValue(m, path, agg, d);
    }
  }

  lemma GroupsFresh(m: seq<R.Doc>, path: string, agg: D.Agg, rows: seq<R.GroupRow>, r: Option<int>)
    requires agg == D.Count || R.Accumulates(agg)
    requires RowsExactly(m, path, agg, R.Keys(m, R.FieldOf(path)), rows)
    requires IsNewest(RowTimes(rows), r)
    ensures r == if m == [] then None else Some(R.Latest(m))
  {
    var key := R.FieldOf(path);
    var times := RowTimes(rows);
    R.KeysExactly(m, key);
    if m != [] {
      var v := R.Latest(m);
      forall i | 0 <= i < |rows| ensures times[i] <= v {
        assert rows[i].key in R.Keys(m, key);
        var e :| e in m && key(e) == rows[i].key;
        GroupLatest(m, path, agg, e);
      }
      R.Extremes(m);
      var d :| d in m && d.ts == v;
      GroupLatest(m, path, agg, d);
      assert key(d) in R.Keys(m, key);
      var i :| 0 <= i < |rows| && rows[i].key == key(d);
      assert times[i] == v;
      NewestIs(times, r, v);
    }
  }

  /** The newest document of a group is no older than any of its documents, and no newer than the newest of all. */
  lemma GroupLatest(m: seq<R.Doc>, path: string, agg: D.Agg, d: R.Doc)
    requires (agg == D.Count || R.Accumulates(agg)) && d in m
    ensures d.ts <= R.GroupRowOf(m, path, agg, R.FieldOf(path)(d)).dataAsOf <= R.Latest(m)
  {
    var k := R.FieldOf(path)(d);
    var g := R.Group(m, R.FieldOf(path), k);
    assert d in Filter(m, (x: R.Doc) => R.FieldOf(path)(x) == k);
    R.Extremes(g);
    R.Extremes(m);
    var e :| e in g && e.ts == R.Latest(g);
  }

  // ------------------------------------------------------------- scalar and series

  function WindowOf(tenantId: string, q: D.MetricQuery, from: int, to: int, spec: D.MetricSpec): R.Window {
    R.Window(tenantId, q.machineId, spec.aasPath, from, to, q.valueEquals)
  }

  /** What the repository is asked for each metric in each mode is something it supports. */
  predicate Supported(q: D.MetricQuery, mode: D.Mode) {
    match mode
    case ModeScalar => forall i :: 0 <= i < |q.metrics| ==> var a := q.metrics[i].agg; a != D.Raw && !a.OtherAgg?
    case ModeSeries =>
      && D.DateTruncUnit(q.bucket).Some?
      && forall i :: 0 <= i < |q.metrics| ==> var a := q.metrics[i].agg; a == D.Count || R.Accumulates(a)
    case ModeGrouped =>
      |q.metrics| == 1 && q.groupBy.ByField? && var a := q.metrics[0].agg; a == D.Count || R.Accumulates(a)
    case ModeRaw => |q.metrics| == 1 && q.metrics[0].agg == D.Raw && 0 <= q.maxPoints
  }

  /** Every accepted query is supported in the mode it was accepted for. */
  lemma AcceptedIsSupported(q: D.MetricQuery, from: int, to: int, limits: D.Limits)
    requires D.Validate(q, from, to, limits).Ok?
    ensures Supported(q, D.Validate(q, from, to, limits).value)
  {
    forall i | 0 <= i < |q.metrics|
      ensures !q.metrics[i].agg.OtherAgg?
      ensures q.metrics[i].agg == D.Raw ==> D.HasAgg(q.metrics, D.Raw)
      ensures q.metrics[i].agg == D.Last ==> D.HasAgg(q.metrics, D.Last)
      ensures q.metrics[i].agg == D.Delta ==> D.HasAgg(q.metrics, D.Delta)
    {
      assert !(q.metrics[i].aasPath == [] || !D.AggValid(q.metrics[i].agg));
    }
  }

  /** Slot i of a scalar answer is the scalar of metric i. */
  ghost predicate ScalarSlots(docs: seq<R.Doc>, tenantId: string, q: D.MetricQuery, from: int, to: int,
                              results: seq<M.MetricResult>, asOfs: seq<Option<int>>, n: nat)
    requires n <= |q.metrics|
  {
    && |results| == |asOfs| == n
    && forall i :: 0 <= i < n ==>
         var spec := q.metrics[i];
         var s := R.Scalar(docs, WindowOf(tenantId, q, from, to, spec), spec.agg);
         && s.Ok? && asOfs[i] == s.value.1
         && results[i] == M.MetricResult(spec.aasPath, spec.agg, s.value.0.value, s.value.0.sampleCount)
  }

  method QueryScalar(docs: seq<R.Doc>, tenantId: string, q: D.MetricQuery, from: int, to: int)
    returns (r: Result<QueryResult, QueryError>)
    ensures Supported(q, D.ModeScalar) ==> r.Ok? && ScalarOutcome(docs, tenantId, q, from, to, r.value)
    ensures r.Err? ==> r.error.Broken?
  {
    var results, asOfs := [], [];
    for i := 0 to |q.metrics|
      invariant ScalarSlots(docs, tenantId, q, from, to, results, asOfs, i)
    {
      var spec := q.metrics[i];
      var s := R.Scalar(docs, WindowOf(tenantId, q, from, to, spec), spec.agg);
      if s.Err? {
        return Err(Broken(s.error));
      }
      results := results + [M.MetricResult(spec.aasPath, spec.agg, s.value.0.value, s.value.0.sampleCount)];
      asOfs := asOfs + [s.value.1];
    }
    var dataAsOf := MaxDataAsOf(asOfs);
    return Ok(ScalarResult(results, dataAsOf));
  }

  ghost predicate ScalarOutcome(docs: seq<R.Doc>, tenantId: string, q: D.MetricQuery, from: int, to: int,
                                r: QueryResult)
  {
    && r.ScalarResult?
    && exists asOfs :: ScalarSlots(docs, tenantId, q, from, to, r.results, asOfs, |q.metrics|)
                       && IsNewest(Present(asOfs), r.dataAsOf)
  }

  /** What the repository answers for metric i. */
  function SeriesOf(docs: seq<R.Doc>, tenantId: string, q: D.MetricQuery, from: int, to: int, i: nat)
    : Result<(seq<R.BucketPoint>, Option<int>), R.Failure>
    requires i < |q.metrics|
  {
    var spec := q.metrics[i];
    R.Series(docs, WindowOf(tenantId, q, from, to, spec), q.bucket, spec.agg)
  }

  ghost predicate SeriesSlots(docs: seq<R.Doc>, tenantId: string, q: D.MetricQuery, from: int, to: int,
                              perMetric: seq<seq<R.BucketPoint>>, asOfs: seq<Option<int>>, n: nat)
    requires n <= |q.metrics|
  {
    && |perMetric| == |asOfs| == n
    && forall i :: 0 <= i < n ==> SeriesOf(docs, tenantId, q, from, to, i) == Ok((perMetric[i], asOfs[i]))
  }

  lemma SeriesFails(docs: seq<R.Doc>, tenantId: string, q: D.MetricQuery, from: int, to: int, i: nat)
    requires i < |q.metrics| && SeriesOf(docs, tenantId, q, from, to, i).Err?
    ensures !Supported(q, D.ModeSeries)
  {
  }

  /** The fan-out: one series per metric, or the first failure. */
  method FetchSeries(docs: seq<R.Doc>, tenantId: string, q: D.MetricQuery, from: int, to: int)
    returns (failure: Option<R.Failure>, perMetric: seq<seq<R.BucketPoint>>, asOfs: seq<Option<int>>)
    ensures failure.None? ==> SeriesSlots(docs, tenantId, q, from, to, perMetric, asOfs, |q.metrics|)
    ensures failure.Some? ==> !Supported(q, D.ModeSeries)
  {
    failure, perMetric, asOfs := None, [], [];
    for i := 0 to |q.metrics|
      invariant failure.None? && SeriesSlots(docs, tenantId, q, from, to, perMetric, asOfs, i)
    {
      var s := SeriesOf(docs, tenantId, q, from, to, i);
      if s.Err? {
        SeriesFails(docs, tenantId, q, from, to, i);
        failure := Some(s.error);
        return;
      }
      perMetric := perMetric + [s.value.0];
      asOfs := asOfs + [s.value.1];
    }
  }

  method QuerySeries(docs: seq<R.Doc>, tenantId: string, q: D.MetricQuery, from: int, to: int)
    returns (r: Result<QueryResult, QueryError>)
    ensures Supported(q, D.ModeSeries) ==> r.Ok? && SeriesOutcome(docs, tenantId, q, from, to, r.value)
    ensures r.Err? ==> r.error.Broken?
  {
    var failure, perMetric, asOfs := FetchSeries(docs, tenantId, q, from, to);
    if failure.Some? {
      return Err(Broken(failure.value));
    }
    var series := M.MergeSeries(q.metrics, perMetric);
    var dataAsOf := MaxDataAsOf(asOfs);
    return Ok(SeriesResult(series, dataAsOf));
  }

  ghost predicate SeriesOutcome(docs: seq<R.Doc>, tenantId: string, q: D.MetricQuery, from: int, to: int,
                                r: QueryResult)
  {
    && r.SeriesResult?
    && exists perMetric, asOfs :: SeriesSlots(docs, tenantId, q, from, to, perMetric, asOfs, |q.metrics|)
                                  && M.Aligned(M.Inputs(q.metrics, perMetric, |q.metrics|), r.series)
                                  && IsNewest(Present(asOfs), r.dataAsOf)
  }

  /** The merged series of an accepted query has one result per metric that has the bucket, and at most one point more
      than the bucket limit, for any number of metrics. */
  lemma MergedSeriesFits(docs: seq<R.Doc>, tenantId: string, q: D.MetricQuery, from: int, to: int, limits: D.Limits,
                         r: QueryResult, perMetric: seq<seq<R.BucketPoint>>, asOfs: seq<Option<int>>, dur: int)
    requires D.Validate(q, from, to, limits) == Ok(D.ModeSeries) && D.Duration(q.bucket) == Some(dur) && dur > 0
    requires from <= to && limits.maxBuckets <= D.MAX_DURATION / (24 * D.HOUR)
    requires SeriesSlots(docs, tenantId, q, from, to, perMetric, asOfs, |q.metrics|)
    requires r.SeriesResult? && M.Aligned(M.Inputs(q.metrics, perMetric, |q.metrics|), r.series)
    ensures |r.series| <= limits.maxBuckets + 1
    ensures from % dur == 0 ==> |r.series| <= limits.maxBuckets
    ensures forall k :: 0 <= k < |r.series| ==>
              |r.series[k].results| == M.Present(perMetric, |q.metrics|, r.series[k].ts)
  {
    SlotsOnGrid(docs, tenantId, q, from, to, dur, perMetric, asOfs);
    var entries := M.Inputs(q.metrics, perMetric, |q.metrics|);
    forall t | M.HasTs(entries, t) ensures A.KeyInRange(t, from, to, dur) {
      MergedKey(q.metrics, perMetric, t, from, to, dur);
    }
    AlignedFits(entries, r.series, from, to, dur);
    forall k | 0 <= k < |r.series|
      ensures |r.series[k].results| == M.Present(perMetric, |q.metrics|, r.series[k].ts)
    {
      M.OneResultEach(q.metrics, perMetric, |q.metrics|, r.series[k].ts);
    }
    A.AcceptedWindow(from, to, q.bucket, limits.maxBuckets);
    D.TouchedIsExpected(from, to, dur);
  }

  ghost predicate OnGrid(points: seq<R.BucketPoint>, from: int, to: int, dur: int)
    requires dur > 0
  {
    && (forall a, b :: 0 <= a < b < |points| ==> points[a].ts < points[b].ts)
    && (forall a :: 0 <= a < |points| ==> A.KeyInRange(points[a].ts, from, to, dur))
  }

  lemma SlotOnGrid(docs: seq<R.Doc>, tenantId: string, q: D.MetricQuery, from: int, to: int, i: nat, dur: int,
                   points: seq<R.BucketPoint>, asOf: Option<int>)
    requires i < |q.metrics| && D.Duration(q.bucket) == Some(dur) && dur > 0
    requires SeriesOf(docs, tenantId, q, from, to, i) == Ok((points, asOf))
    ensures OnGrid(points, from, to, dur)
  {
    var w := WindowOf(tenantId, q, from, to, q.metrics[i]);
    assert R.Series(docs, w, q.bucket, q.metrics[i].agg).value.0 == points;
    A.SeriesOnGrid(docs, w, q.bucket, q.metrics[i].agg);
  }

  lemma SlotsOnGrid(docs: seq<R.Doc>, tenantId: string, q: D.MetricQuery, from: int, to: int, dur: int,
                    perMetric: seq<seq<R.BucketPoint>>, asOfs: seq<Option<int>>)
    requires SeriesSlots(docs, tenantId, q, from, to, perMetric, asOfs, |q.metrics|)
    requires D.Duration(q.bucket) == Some(dur) && dur > 0
    ensures forall i :: 0 <= i < |perMetric| ==> OnGrid(perMetric[i], from, to, dur)
  {
    forall i | 0 <= i < |perMetric| ensures OnGrid(perMetric[i], from, to, dur) {
      SlotOnGrid(docs, tenantId, q, from, to, i, dur, perMetric[i], asOfs[i]);
    }
  }

  lemma AlignedFits(entries: seq<M.Entry>, series: seq<M.SeriesPoint>, from: int, to: int, dur: int)
    requires from <= to && dur > 0 && M.Aligned(entries, series)
    requires forall t :: M.HasTs(entries, t) ==> A.KeyInRange(t, from, to, dur)
    ensures |series| <= D.TouchedBuckets(from, to, dur)
  {
    var keys := seq(|series|, k requires 0 <= k < |series| => series[k].ts);
    A.KeysFit(keys, from, to, dur);
  }

  lemma MergedKey(specs: seq<D.MetricSpec>, perMetric: seq<seq<R.BucketPoint>>, t: int, from: int, to: int, dur: int)
    requires |perMetric| <= |specs| && dur > 0
    requires forall i :: 0 <= i < |perMetric| ==> OnGrid(perMetric[i], from, to, dur)
    requires M.HasTs(M.Inputs(specs, perMetric, |perMetric|), t)
    ensures A.KeyInRange(t, from, to, dur)
  {
    var i, j := M.Origin(specs, perMetric, |perMetric|, t);
    assert OnGrid(perMetric[i], from, to, dur);
  }

  /** A query is answered in its mode, or refused with a code: no accepted query asks for something unsupported. */
  method Query(docs: seq<R.Doc>, tenantId: string, q: D.MetricQuery, from: int, to: int, limits: D.Limits,
               round: real -> real, show: Show)
    returns (r: Result<QueryResult, QueryError>)
    requires limits.maxGroups >= 0 && Precise(round, limits.maxRawPoints)
    ensures r.Err? ==> r.error.Rejected?
    ensures match D.Validate(q, from, to, limits)
            case Err(code) => r == Err(Rejected(code))
            case Ok(ModeRaw) =>
              |q.metrics| == 1
              && RawOutcome(docs, WindowOf(tenantId, q, from, to, q.metrics[0]), q.maxPoints, limits, SlackOf(round), r)
            case Ok(ModeGrouped) =>
              && Supported(q, D.ModeGrouped)
              && var spec := q.metrics[0];
                 var m := R.Sampled(docs, WindowOf(tenantId, q, from, to, spec), spec.agg);
                 GroupedOutcome(m, q.groupBy.path, spec.agg, limits, show, r)
            case Ok(ModeSeries) => r.Ok? && SeriesOutcome(docs, tenantId, q, from, to, r.value)
            case Ok(ModeScalar) => r.Ok? && ScalarOutcome(docs, tenantId, q, from, to, r.value)
  {
    var mode := D.Validate(q, from, to, limits);
    if mode.Err? {
      return Err(Rejected(mode.error));
    }
    AcceptedIsSupported(q, from, to, limits);
    match mode.value
    case ModeRaw =>
      r := QueryRaw(docs, WindowOf(tenantId, q, from, to, q.metrics[0]), q.maxPoints, limits, round);
    case ModeGrouped =>
      var spec := q.metrics[0];
      r := QueryGrouped(docs, WindowOf(tenantId, q, from, to, spec), q.groupBy.path, spec.agg, limits, show);
    case ModeSeries =>
      r := QuerySeries(docs, tenantId, q, from, to);
    case ModeScalar =>
      r := QueryScalar(docs, tenantId, q, from, to);
  }

  // ------------------------------------------------------------- what the answers are made of

  /** What a query looks at for one of its metrics: the tenant's documents of its machine and of the metric's path, from
      the first instant of its window to the last, with the value it filters by, if any. */
  lemma QueryLooksAt(d: R.Doc, tenantId: string, q: D.MetricQuery, from: int, to: int, spec: D.MetricSpec)
    ensures R.Matches(d, WindowOf(tenantId, q, from, to, spec)) <==>
              && d.tenantId == tenantId && d.machineId == q.machineId && d.aasPath == spec.aasPath
              && from <= d.ts && d.ts <= to
              && (q.valueEquals == None || q.valueEquals == Some(d.value))
  {
  }

  /** The points of a raw window are the times and values of its matches, each as often as it matches, and no other. */
  lemma RawPointsAre(docs: seq<R.Doc>, w: R.Window)
    ensures var all := PointsOf(InOrder(docs, w));
            && |all| == |R.Matched(docs, w)|
            && (forall d :: d in docs && R.Matches(d, w) ==> RawPoint(d.ts, d.value) in all)
            && (forall p :: p in all ==> exists d :: d in docs && R.Matches(d, w) && p.ts == d.ts && p.value == d.value)
  {
    var rows := InOrder(docs, w);
    var all := PointsOf(rows);
    forall d | d in docs && R.Matches(d, w) ensures RawPoint(d.ts, d.value) in all {
      assert d in R.Matched(docs, w) && d in rows;
      var i :| 0 <= i < |rows| && rows[i] == d;
      assert all[i] == RawPoint(d.ts, d.value);
    }
    forall p | p in all ensures exists d :: d in docs && R.Matches(d, w) && p.ts == d.ts && p.value == d.value {
      var i :| 0 <= i < |all| && all[i] == p;
      assert rows[i] in R.Matched(docs, w);
    }
  }

  /** The value of a group is the scalar of the documents with its key. */
  lemma GroupsAreScalars(docs: seq<R.Doc>, w: R.Window, path: string, agg: D.Agg, rows: seq<R.GroupRow>, i: nat)
    requires agg == D.Count || R.Accumulates(agg)
    requires GroupsExactly(R.Sampled(docs, w, agg), path, agg, rows) && i < |rows|
    ensures rows[i].value == V.ValueOf(Filter(docs, V.Field(path, rows[i].key)), w, agg)
  {
    V.GroupIsScalar(docs, w, path, agg, rows[i].key);
  }
}
