/** Dashboard queries: their shape, the rules that accept them, and the grid of buckets. Times are in nanoseconds. */
module MetricsDomain {
  import opened Arithmetic
  import opened Collections

  datatype Agg = Avg | Sum | Min | Max | Last | Count | Delta | Raw | OtherAgg(name: string)

  datatype Bucket = NoBucket | M1 | M5 | M15 | H1 | H6 | D1 | OtherBucket(name: string)

  datatype Mode = ModeScalar | ModeSeries | ModeRaw | ModeGrouped

  datatype Code = InvalidParams | TooManyMetrics | RawModeConflict | GroupByConflict | RangeTooWide | TooManyGroups

  datatype MetricSpec = MetricSpec(aasPath: string, agg: Agg)

  /** A measured value, or one that a filter asks for; filters take only the first three kinds. */
  datatype Value = BoolValue(b: bool) | TextValue(s: string) | NumberValue(n: real) | OtherValue

  /** A field to group by, and whether it matches the pattern payload.<field>. */
  datatype GroupBy = Ungrouped | ByField(path: string, matchesPattern: bool)

  datatype MetricQuery = MetricQuery(
    machineId: string, bucket: Bucket, metrics: seq<MetricSpec>, groupBy: GroupBy,
    valueEquals: Option<Value>, maxPoints: int)

  datatype Limits = Limits(maxSpecs: int, maxBuckets: int, maxRawPoints: int, maxGroups: int)

  predicate AggValid(agg: Agg) { !agg.OtherAgg? }

  const SECOND := 1_000_000_000
  const MINUTE := 60 * SECOND
  const HOUR := 60 * MINUTE

  function Duration(b: Bucket): Option<int> {
    match b
    case M1 => Some(MINUTE)
    case M5 => Some(5 * MINUTE)
    case M15 => Some(15 * MINUTE)
    case H1 => Some(HOUR)
    case H6 => Some(6 * HOUR)
    case D1 => Some(24 * HOUR)
    case NoBucket => None
    case OtherBucket(_) => None
  }

  /** A difference of times saturates at the range of a 64-bit count of nanoseconds. */
  const MAX_DURATION := 0x7fff_ffff_ffff_ffff

  function SubTimes(to: int, from: int): int {
    var d := to - from;
    if d > MAX_DURATION then MAX_DURATION else if d < -MAX_DURATION - 1 then -MAX_DURATION - 1 else d
  }

  /** Integer division that truncates toward zero. */
  function Quotient(a: int, b: int): int
    requires b > 0
  {
    if a >= 0 then a / b else -((-a) / b)
  }

  /** Truncation toward zero: what remains has the sign of the dividend, and is smaller than the divisor. */
  lemma TowardZero(a: int, b: int)
    requires b > 0
    ensures a >= 0 ==> 0 <= a - Quotient(a, b) * b < b
    ensures a <= 0 ==> -b < a - Quotient(a, b) * b <= 0
  {
    if a < 0 {
      var q := -a / b;
      assert -a == q * b + -a % b;
      assert (-q) * b == -(q * b);
    } else {
      assert a == a / b * b + a % b;
    }
  }

  function ExpectedBuckets(from: int, to: int, dur: int): int
    requires dur > 0
  {
    Quotient(SubTimes(to, from), dur) + 1
  }

  function CheckBucketCount(from: int, to: int, bucket: Bucket, maxBuckets: int): Option<Code> {
    match Duration(bucket)
    case None => None
    case Some(dur) => if ExpectedBuckets(from, to, dur) > maxBuckets then Some(RangeTooWide) else None
  }

  predicate HasAgg(specs: seq<MetricSpec>, agg: Agg) {
    exists i :: 0 <= i < |specs| && specs[i].agg == agg
  }

  predicate HasRawAmongMultiple(specs: seq<MetricSpec>) {
    |specs| >= 2 && HasAgg(specs, Raw)
  }

  function Validate(q: MetricQuery, from: int, to: int, limits: Limits): Result<Mode, Code> {
    if q.machineId == [] then Err(InvalidParams)
    else if |q.metrics| == 0 then Err(InvalidParams)
    else if |q.metrics| > limits.maxSpecs then Err(TooManyMetrics)
    else if exists i :: 0 <= i < |q.metrics| && (q.metrics[i].aasPath == [] || !AggValid(q.metrics[i].agg)) then
      Err(InvalidParams)
    else if q.bucket != NoBucket && Duration(q.bucket).None? then Err(InvalidParams)
    else if q.groupBy.ByField? && !q.groupBy.matchesPattern then Err(InvalidParams)
    else if q.valueEquals == Some(OtherValue) then Err(InvalidParams)
    else if q.maxPoints < 0 || q.maxPoints > limits.maxRawPoints then Err(InvalidParams)
    else
      var isRaw := |q.metrics| == 1 && q.metrics[0].agg == Raw;
      var isGrouped := q.groupBy.ByField?;
      if HasRawAmongMultiple(q.metrics) then Err(RawModeConflict)
      else if isRaw then
        if q.bucket != NoBucket || isGrouped then Err(RawModeConflict) else Ok(ModeRaw)
      else if isGrouped then
        if q.bucket != NoBucket || |q.metrics| != 1 then Err(GroupByConflict)
        else if q.metrics[0].agg == Last || q.metrics[0].agg == Delta then Err(InvalidParams)
        else Ok(ModeGrouped)
      else if q.bucket != NoBucket then
        var tooMany := CheckBucketCount(from, to, q.bucket, limits.maxBuckets);
        if tooMany.Some? then Err(tooMany.value)
        else if HasAgg(q.metrics, Last) || HasAgg(q.metrics, Delta) then Err(InvalidParams)
        else Ok(ModeSeries)
      else Ok(ModeScalar)
  }

  /** What an acceptable query looks like, with no order of checks. */
  ghost predicate Acceptable(q: MetricQuery, limits: Limits) {
    && q.machineId != [] && 1 <= |q.metrics| <= limits.maxSpecs
    && (forall i :: 0 <= i < |q.metrics| ==> q.metrics[i].aasPath != [] && !q.metrics[i].agg.OtherAgg?)
    && !q.bucket.OtherBucket? && (q.groupBy.ByField? ==> q.groupBy.matchesPattern)
    && q.valueEquals != Some(OtherValue) && 0 <= q.maxPoints <= limits.maxRawPoints
  }

  /** The mode an acceptable query asks for, or None if what it asks for together excludes itself. */
  ghost predicate Asks(q: MetricQuery, mode: Mode) {
    match mode
    case ModeRaw => |q.metrics| == 1 && q.metrics[0].agg == Raw && q.bucket == NoBucket && q.groupBy == Ungrouped
    case ModeGrouped =>
      |q.metrics| == 1 && q.metrics[0].agg !in {Raw, Last, Delta} && q.bucket == NoBucket && q.groupBy.ByField?
    case ModeSeries =>
      && q.bucket != NoBucket && q.groupBy == Ungrouped
      && forall i :: 0 <= i < |q.metrics| ==> q.metrics[i].agg !in {Raw, Last, Delta}
    case ModeScalar =>
      && q.bucket == NoBucket && q.groupBy == Ungrouped
      && forall i :: 0 <= i < |q.metrics| ==> q.metrics[i].agg != Raw
  }

  /** A query is accepted in a mode if and only if it is acceptable, asks for that mode, and its window has no more
      buckets than the limit. */
  lemma AcceptedIff(q: MetricQuery, from: int, to: int, limits: Limits, mode: Mode)
    ensures Validate(q, from, to, limits) == Ok(mode) <==>
              && Acceptable(q, limits) && Asks(q, mode)
              && (mode == ModeSeries ==> ExpectedBuckets(from, to, Duration(q.bucket).value) <= limits.maxBuckets)
  {
    if Validate(q, from, to, limits).Ok? {
      forall i | 0 <= i < |q.metrics| ensures q.metrics[i].aasPath != [] && AggValid(q.metrics[i].agg) {
        assert !(q.metrics[i].aasPath == [] || !AggValid(q.metrics[i].agg));
      }
    }
    Has(q.metrics, Raw);
    Has(q.metrics, Last);
    Has(q.metrics, Delta);
  }

  lemma Has(specs: seq<MetricSpec>, agg: Agg)
    ensures HasAgg(specs, agg) <==> !forall i :: 0 <= i < |specs| ==> specs[i].agg != agg
  {
  }

  /** The window has more buckets than the limit. */
  predicate TooWide(bucket: Bucket, from: int, to: int, maxBuckets: int) {
    match Duration(bucket)
    case None => false
    case Some(dur) => ExpectedBuckets(from, to, dur) > maxBuckets
  }

  /** A refusal by its cause, for each code: which code a query gets that has several things wrong. */
  lemma RefusedBecause(q: MetricQuery, from: int, to: int, limits: Limits)
    ensures var v := Validate(q, from, to, limits);
            var named := q.machineId != [] && |q.metrics| > 0;
            var raw := exists i :: 0 <= i < |q.metrics| && q.metrics[i].agg == Raw;
            var ends := exists i :: 0 <= i < |q.metrics| && q.metrics[i].agg in {Last, Delta};
            var plain := Acceptable(q, limits) && !raw;
            var wide := TooWide(q.bucket, from, to, limits.maxBuckets);
            && (v == Err(TooManyMetrics) <==> named && |q.metrics| > limits.maxSpecs)
            && (v == Err(RawModeConflict) <==>
                  Acceptable(q, limits) && raw && (|q.metrics| > 1 || q.bucket != NoBucket || q.groupBy.ByField?))
            && (v == Err(GroupByConflict) <==>
                  plain && q.groupBy.ByField? && (q.bucket != NoBucket || |q.metrics| != 1))
            && (v == Err(RangeTooWide) <==> plain && q.groupBy == Ungrouped && wide)
            && (v == Err(InvalidParams) <==>
                  || !named
                  || (|q.metrics| <= limits.maxSpecs && !Acceptable(q, limits))
                  || (plain && ends && q.groupBy.ByField? && q.bucket == NoBucket && |q.metrics| == 1)
                  || (plain && ends && q.groupBy == Ungrouped && q.bucket != NoBucket && !wide))
            && v != Err(TooManyGroups)
  {
    Has(q.metrics, Raw);
    Has(q.metrics, Last);
    Has(q.metrics, Delta);
  }

  // ------------------------------------------------------------- the grid

  datatype TimeUnit = UnitMinute | UnitHour | UnitDay

  function DateTruncUnit(b: Bucket): Option<(TimeUnit, int)> {
    match b
    case M1 => Some((UnitMinute, 1))
    case M5 => Some((UnitMinute, 5))
    case M15 => Some((UnitMinute, 15))
    case H1 => Some((UnitHour, 1))
    case H6 => Some((UnitHour, 6))
    case D1 => Some((UnitDay, 1))
    case NoBucket => None
    case OtherBucket(_) => None
  }

  function UnitLength(u: TimeUnit): int {
    match u case UnitMinute => MINUTE case UnitHour => HOUR case UnitDay => 24 * HOUR
  }

  /** $dateTrunc counts its bins from 2000-01-01T00:00:00Z, 10957 days after the epoch. */
  const TRUNC_REFERENCE := 10957 * 24 * HOUR

  function DateTrunc(t: int, u: TimeUnit, binSize: int): int
    requires binSize > 0
  {
    var bin := binSize * UnitLength(u);
    TRUNC_REFERENCE + (t - TRUNC_REFERENCE) / bin * bin
  }

  /** Start of the bucket of a time, on the grid of whole durations since the epoch. */
  function BucketStart(t: int, dur: int): int
    requires dur > 0
  {
    t / dur * dur
  }

  /** The repository's grid is the one the limit is counted on: same buckets supported, same starts. */
  lemma SameGrid(b: Bucket, t: int)
    ensures DateTruncUnit(b).Some? <==> Duration(b).Some?
    ensures DateTruncUnit(b).Some? ==>
              var (u, size) := DateTruncUnit(b).value;
              DateTrunc(t, u, size) == BucketStart(t, Duration(b).value)
  {
    if DateTruncUnit(b).Some? {
      var (u, size) := DateTruncUnit(b).value;
      assert size * UnitLength(u) == Duration(b).value;
      var bins := match b
        case M1 => 15778080
        case M5 => 3155616
        case M15 => 1051872
        case H1 => 262968
        case H6 => 43828
        case _ => 10957;
      assert bins * Duration(b).value == TRUNC_REFERENCE;
      ShiftedGrid(t, bins, Duration(b).value);
    }
  }

  lemma ShiftedGrid(t: int, k: int, dur: int)
    requires dur > 0
    ensures k * dur + (t - k * dur) / dur * dur == BucketStart(t, dur)
  {
    ShiftedDivision(t, k, dur);
    assert (t / dur - k) * dur == t / dur * dur - k * dur;
  }

  lemma ShiftedDivision(t: int, k: int, dur: int)
    requires dur > 0
    ensures (t - k * dur) / dur == t / dur - k
  {
    var q, r := t / dur, t % dur;
    assert t - k * dur == (q - k) * dur + r;
    DivisionIs(t - k * dur, q - k, r, dur);
  }

  /** The grids nest: a bucket lies in one bucket of each coarser grid whose duration is a multiple of its own. */
  lemma GridsNest(t: int, dur: int, k: int)
    requires dur > 0 && k > 0 && k * dur > 0
    ensures BucketStart(BucketStart(t, dur), k * dur) == BucketStart(t, k * dur)
  {
    var coarse := k * dur;
    var q := t / coarse;
    var rest := t - q * coarse;
    assert t == q * coarse + t % coarse;
    ShiftedDivision(t, q * k, dur);
    assert q * k * dur == q * coarse;
    assert t / dur * dur == q * coarse + rest / dur * dur by {
      assert t / dur == q * k + rest / dur;
    }
    assert 0 <= rest / dur * dur <= rest;
    DivisionIs(t / dur * dur, q, rest / dur * dur, coarse);
  }

  /** The six grids, in seconds: each is a whole number of times as coarse as the one before. */
  lemma SixGrids(t: int)
    ensures Duration(M1) == Some(60 * SECOND) && SECOND == 1_000_000_000
    ensures NestsIn(M1, M5, 5, t) && NestsIn(M5, M15, 3, t) && NestsIn(M15, H1, 4, t) && NestsIn(H1, H6, 6, t)
         && NestsIn(H6, D1, 4, t)
  {
    GridsNest(t, MINUTE, 5);
    GridsNest(t, 5 * MINUTE, 3);
    GridsNest(t, 15 * MINUTE, 4);
    GridsNest(t, HOUR, 6);
    GridsNest(t, 6 * HOUR, 4);
  }

  /** Every bucket of the grid `fine` lies in one of the grid `coarse`, that has k of them. */
  predicate NestsIn(fine: Bucket, coarse: Bucket, k: int, t: int) {
    match (Duration(fine), Duration(coarse))
    case (Some(d), Some(e)) => d > 0 && e == k * d && e > 0 && BucketStart(BucketStart(t, d), e) == BucketStart(t, e)
    case _ => false
  }

  /** How many buckets of the grid a window touches. */
  function TouchedBuckets(from: int, to: int, dur: int): int
    requires dur > 0
  {
    to / dur - from / dur + 1
  }

  /** A window touches the expected number of buckets or one more; exactly the expected number if and only if the
      leftovers of its start and of its length fit in one bucket, as they do for an aligned start. */
  lemma TouchedIsExpected(from: int, to: int, dur: int)
    requires dur > 0 && 0 <= to - from <= MAX_DURATION
    ensures TouchedBuckets(from, to, dur) - ExpectedBuckets(from, to, dur)
         == if from % dur + (to - from) % dur < dur then 0 else 1
    ensures from % dur == 0 ==> TouchedBuckets(from, to, dur) == ExpectedBuckets(from, to, dur)
  {
    var len := to - from;
    var r := from % dur + len % dur;
    assert to == (from / dur + len / dur) * dur + r by {
      assert from == from / dur * dur + from % dur;
      assert len == len / dur * dur + len % dur;
      assert (from / dur + len / dur) * dur == from / dur * dur + len / dur * dur;
    }
    if r < dur {
      DivisionIs(to, from / dur + len / dur, r, dur);
    } else {
      assert to == (from / dur + len / dur + 1) * dur + (r - dur);
      DivisionIs(to, from / dur + len / dur + 1, r - dur, dur);
    }
  }
}
