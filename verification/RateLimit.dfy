/** The token bucket script, shared word for word by the ingest limiter (whole tokens per second) and the dashboard
    limiter (a fraction of a token per second), and the two limiters built on it. Clocks are in milliseconds. */
module RateLimit {
  import opened Collections

  /** The hash a key holds, and when Redis may drop it. */
  datatype Bucket = Bucket(tokens: real, ts: int, expireAt: int)

  datatype Reply = Reply(allowed: bool, retryAfter: int)

  datatype Call = Call(now: int, requested: nat)

  function Ceil(x: real): (n: int)
    ensures n as real - 1.0 < x <= n as real
  {
    -((-x).Floor)
  }

  function Min(a: real, b: real): real { if a <= b then a else b }

  function Forward(before: int, now: int): nat { if before <= now then now - before else 0 }

  /** Tokens earned in `ms` milliseconds. */
  function Credit(rate: real, ms: int): real { ms as real / 1000.0 * rate }

  ghost predicate Configured(rate: real, burst: real) { rate > 0.0 && burst >= 1.0 }

  function Ttl(rate: real, burst: real): int
    requires rate > 0.0
  {
    Ceil(burst / rate * 1000.0) + 1000
  }

  /** Tokens at `now`, before any is taken. */
  function Refill(rate: real, burst: real, now: int, key: Option<Bucket>): real {
    match key
    case None => burst
    case Some(b) => Min(burst, b.tokens + Credit(rate, Forward(b.ts, now)))
  }

  function Script(rate: real, burst: real, call: Call, key: Option<Bucket>): (Bucket, Reply)
    requires rate > 0.0
  {
    var tokens := Refill(rate, burst, call.now, key);
    var expireAt := call.now + Ttl(rate, burst);
    var requested := call.requested as real;
    if tokens >= requested then
      (Bucket(tokens - requested, call.now, expireAt), Reply(true, 0))
    else
      var wait := Ceil((requested - tokens) / rate);
      (Bucket(tokens, call.now, expireAt), Reply(false, if wait < 1 then 1 else wait))
  }

  // ------------------------------------------------------------- the limiters

  /** One Redis database and a limiter in front of it. */
  class RateLimiter {
    var keys: map<string, Bucket>
    const rate: real
    const burst: real

    /** Defaults of the ingest limiter. */
    constructor Ingest(rps: int, burst: int)
      ensures Configured(this.rate, this.burst) && keys == map[]
      ensures this.rate == if rps > 0 then rps as real else 200.0
      ensures this.burst == if burst > 0 then burst as real else 1000.0
    {
      keys := map[];
      this.rate := if rps <= 0 then 200.0 else rps as real;
      this.burst := if burst <= 0 then 1000.0 else burst as real;
    }

    /** Defaults of the dashboard limiter. */
    constructor Dashboard(rps: real, burst: int)
      ensures Configured(this.rate, this.burst) && keys == map[]
      ensures this.rate == if rps > 0.0 then rps else 15.0 / 60.0
      ensures this.burst == if burst > 0 then burst as real else 5.0
    {
      keys := map[];
      this.rate := if rps <= 0.0 then 15.0 / 60.0 else rps;
      this.burst := if burst <= 0 then 5.0 else burst as real;
    }

    /** What the script finds: an expired key is gone. */
    function Find(key: string, now: int): Option<Bucket>
      reads this
    {
      if key in keys && now < keys[key].expireAt then Some(keys[key]) else None
    }

    method Allow(key: string, now: int) returns (allowed: bool, retryAfter: int)
      requires Configured(rate, burst)
      modifies this
      ensures var (bucket, reply) := Script(rate, burst, Call(now, 1), old(Find(key, now)));
        && keys == old(keys)[key := bucket]
        && allowed == reply.allowed && retryAfter == reply.retryAfter
    {
      var tokens, ts := burst, now;
      if key in keys && now < keys[key].expireAt {
        tokens, ts := keys[key].tokens, keys[key].ts;
      }
      tokens := Min(burst, tokens + Credit(rate, if now - ts < 0 then 0 else now - ts));
      assert tokens == Refill(rate, burst, now, old(Find(key, now)));
      allowed := false;
      if tokens >= 1.0 {
        tokens := tokens - 1.0;
        allowed := true;
      }
      keys := keys[key := Bucket(tokens, now, now + Ceil(burst / rate * 1000.0) + 1000)];
      retryAfter := 0;
      if !allowed {
        retryAfter := Ceil((1.0 - tokens) / rate);
        if retryAfter < 1 {
          retryAfter := 1;
        }
      }
    }
  }

  // ------------------------------------------------------------- runs of one key

  ghost predicate Sane(rate: real, burst: real, key: Option<Bucket>)
    requires rate > 0.0
  {
    key.Some? ==>
      && 0.0 <= key.value.tokens <= burst
      && key.value.expireAt == key.value.ts + Ttl(rate, burst)
  }

  function Replies(rate: real, burst: real, key: Option<Bucket>, calls: seq<Call>): seq<Reply>
    requires rate > 0.0
    decreases calls
  {
    if calls == [] then [] else
      var (b, reply) := Script(rate, burst, calls[0], key);
      [reply] + Replies(rate, burst, Some(b), calls[1..])
  }

  function KeyAfter(rate: real, burst: real, key: Option<Bucket>, calls: seq<Call>): Option<Bucket>
    requires rate > 0.0
    decreases calls
  {
    if calls == [] then key else KeyAfter(rate, burst, Some(Script(rate, burst, calls[0], key).0), calls[1..])
  }

  /** Tokens handed out over the run. */
  function Granted(rate: real, burst: real, key: Option<Bucket>, calls: seq<Call>): nat
    requires rate > 0.0
    decreases calls
  {
    if calls == [] then 0 else
      var (b, reply) := Script(rate, burst, calls[0], key);
      (if reply.allowed then calls[0].requested else 0) + Granted(rate, burst, Some(b), calls[1..])
  }

  /** Sum of the forward moves of the clock, counted from `from`. */
  function ForwardMoves(from: int, calls: seq<Call>): nat
    decreases calls
  {
    if calls == [] then 0 else Forward(from, calls[0].now) + ForwardMoves(calls[0].now, calls[1..])
  }

  lemma {:induction false} RunStaysSane(rate: real, burst: real, key: Option<Bucket>, calls: seq<Call>)
    requires Configured(rate, burst) && Sane(rate, burst, key)
    ensures Sane(rate, burst, KeyAfter(rate, burst, key, calls))
    decreases calls
  {
    if calls != [] {
      CallStaysSane(rate, burst, key, calls[0]);
      RunStaysSane(rate, burst, Some(Script(rate, burst, calls[0], key).0), calls[1..]);
    }
  }

  lemma CallStaysSane(rate: real, burst: real, key: Option<Bucket>, call: Call)
    requires Configured(rate, burst) && Sane(rate, burst, key)
    ensures Sane(rate, burst, Some(Script(rate, burst, call, key).0))
  {
    if key.Some? {
      CreditNonNegative(rate, Forward(key.value.ts, call.now));
    }
  }

  lemma CreditNonNegative(rate: real, ms: nat)
    requires rate > 0.0
    ensures Credit(rate, ms) >= 0.0
  {
  }

  lemma CreditAdds(rate: real, a: int, b: int)
    ensures Credit(rate, a + b) == Credit(rate, a) + Credit(rate, b)
  {
    assert (a + b) as real / 1000.0 == a as real / 1000.0 + b as real / 1000.0;
  }

  lemma {:induction false} GrantedWithinCredit(rate: real, burst: real, b: Bucket, calls: seq<Call>)
    requires Configured(rate, burst) && Sane(rate, burst, Some(b))
    ensures Granted(rate, burst, Some(b), calls) as real <= b.tokens + Credit(rate, ForwardMoves(b.ts, calls))
    decreases calls
  {
    if calls != [] {
      var (next, reply) := Script(rate, burst, calls[0], Some(b));
      CallStaysSane(rate, burst, Some(b), calls[0]);
      GrantedWithinCredit(rate, burst, next, calls[1..]);
      CreditAdds(rate, Forward(b.ts, calls[0].now), ForwardMoves(calls[0].now, calls[1..]));
    }
  }

  lemma StretchWithinCredit(rate: real, burst: real, key: Option<Bucket>, calls: seq<Call>)
    requires Configured(rate, burst) && calls != [] && Sane(rate, burst, key)
    ensures Granted(rate, burst, key, calls) as real <= burst + Credit(rate, ForwardMoves(calls[0].now, calls))
  {
    var (b, reply) := Script(rate, burst, calls[0], key);
    CallStaysSane(rate, burst, key, calls[0]);
    GrantedWithinCredit(rate, burst, b, calls[1..]);
    assert ForwardMoves(calls[0].now, calls) == ForwardMoves(calls[0].now, calls[1..]);
  }

  /** Any stretch of calls, after any history, is granted at most burst plus what the clock's forward moves within
      the stretch earn. The clock may step back at will. */
  lemma StretchBound(rate: real, burst: real, history: seq<Call>, calls: seq<Call>)
    requires Configured(rate, burst) && calls != []
    ensures var key := KeyAfter(rate, burst, None, history);
            Granted(rate, burst, key, calls) as real
              <= burst + ForwardMoves(calls[0].now, calls) as real / 1000.0 * rate
  {
    RunStaysSane(rate, burst, None, history);
    StretchWithinCredit(rate, burst, KeyAfter(rate, burst, None, history), calls);
  }

  ghost predicate Monotone(calls: seq<Call>) {
    forall i, j :: 0 <= i < j < |calls| ==> calls[i].now <= calls[j].now
  }

  lemma {:induction false} MonotoneMoves(calls: seq<Call>)
    requires Monotone(calls) && calls != []
    ensures ForwardMoves(calls[0].now, calls) == calls[|calls| - 1].now - calls[0].now
  {
    if |calls| > 1 {
      MonotoneMoves(calls[1..]);
      assert ForwardMoves(calls[1].now, calls[1..]) == ForwardMoves(calls[1].now, calls[1..][1..]);
    }
  }

  lemma WindowWithinCredit(rate: real, burst: real, key: Option<Bucket>, calls: seq<Call>)
    requires Configured(rate, burst) && calls != [] && Monotone(calls) && Sane(rate, burst, key)
    requires forall c :: c in calls ==> c.requested == 1
    ensures |Filter(Replies(rate, burst, key, calls), (r: Reply) => r.allowed)| as real
              <= burst + Credit(rate, calls[|calls| - 1].now - calls[0].now)
  {
    StretchWithinCredit(rate, burst, key, calls);
    MonotoneMoves(calls);
    AllowedAreGranted(rate, burst, key, calls);
  }

  /** With a clock that never steps back, and one token per call, a window of calls lets through at most
      burst + rate * length. */
  lemma WindowBound(rate: real, burst: real, history: seq<Call>, calls: seq<Call>)
    requires Configured(rate, burst) && calls != [] && Monotone(calls)
    requires forall c :: c in calls ==> c.requested == 1
    ensures var key := KeyAfter(rate, burst, None, history);
            |Filter(Replies(rate, burst, key, calls), (r: Reply) => r.allowed)| as real
              <= burst + (calls[|calls| - 1].now - calls[0].now) as real / 1000.0 * rate
  {
    RunStaysSane(rate, burst, None, history);
    WindowWithinCredit(rate, burst, KeyAfter(rate, burst, None, history), calls);
  }

  lemma {:induction false} AllowedAreGranted(rate: real, burst: real, key: Option<Bucket>, calls: seq<Call>)
    requires rate > 0.0
    requires forall c :: c in calls ==> c.requested == 1
    ensures |Filter(Replies(rate, burst, key, calls), (r: Reply) => r.allowed)| == Granted(rate, burst, key, calls)
    decreases calls
  {
    if calls != [] {
      var (b, reply) := Script(rate, burst, calls[0], key);
      AllowedAreGranted(rate, burst, Some(b), calls[1..]);
      assert Replies(rate, burst, key, calls)[1..] == Replies(rate, burst, Some(b), calls[1..]);
    }
  }

  // ------------------------------------------------------------- a client within its allowance gets in

  /** Tokens asked for over some calls. */
  function Asked(calls: seq<Call>): nat {
    if calls == [] then 0 else calls[0].requested + Asked(calls[1..])
  }

  /** A run is granted whole while the bucket covers all that is asked for, whatever the clock does. */
  lemma {:induction false} CoveredIsGranted(rate: real, burst: real, b: Bucket, calls: seq<Call>)
    requires Configured(rate, burst) && Sane(rate, burst, Some(b)) && Asked(calls) as real <= b.tokens
    ensures |Replies(rate, burst, Some(b), calls)| == |calls|
    ensures forall i :: 0 <= i < |calls| ==> Replies(rate, burst, Some(b), calls)[i] == Reply(true, 0)
    decreases calls
  {
    if calls != [] {
      var (next, reply) := Script(rate, burst, calls[0], Some(b));
      CreditNonNegative(rate, Forward(b.ts, calls[0].now));
      CallStaysSane(rate, burst, Some(b), calls[0]);
      CoveredIsGranted(rate, burst, next, calls[1..]);
      assert Replies(rate, burst, Some(b), calls)[1..] == Replies(rate, burst, Some(next), calls[1..]);
    }
  }

  /** A fresh key grants every call of a run as long as no more than burst has been asked for. */
  lemma FreshKeyGrants(rate: real, burst: real, calls: seq<Call>, i: nat)
    requires Configured(rate, burst) && i < |calls| && Asked(calls[..i + 1]) as real <= burst
    ensures i < |Replies(rate, burst, None, calls)| && Replies(rate, burst, None, calls)[i] == Reply(true, 0)
  {
    var mine := calls[..i + 1];
    var first := Script(rate, burst, mine[0], None);
    CallStaysSane(rate, burst, None, mine[0]);
    CoveredIsGranted(rate, burst, first.0, mine[1..]);
    RepliesOfPrefix(rate, burst, None, calls, i + 1);
    assert Replies(rate, burst, None, mine)[1..] == Replies(rate, burst, Some(first.0), mine[1..]);
    assert Replies(rate, burst, None, mine)[i] == Reply(true, 0);
  }

  lemma {:induction false} RepliesOfPrefix(rate: real, burst: real, key: Option<Bucket>, calls: seq<Call>, k: nat)
    requires rate > 0.0 && k <= |calls|
    ensures |Replies(rate, burst, key, calls)| == |calls|
    ensures Replies(rate, burst, key, calls[..k]) == Replies(rate, burst, key, calls)[..k]
    decreases calls
  {
    if calls != [] {
      var next := Some(Script(rate, burst, calls[0], key).0);
      RepliesOfPrefix(rate, burst, next, calls[1..], if k == 0 then 0 else k - 1);
      if k > 0 {
        assert calls[..k][1..] == calls[1..][..k - 1];
      }
    }
  }

  /** Tokens handed out over some calls, going by the replies. */
  function Handed(calls: seq<Call>, replies: seq<Reply>): nat
    requires |calls| == |replies|
  {
    if calls == [] then 0 else
      var n := |calls| - 1;
      Handed(calls[..n], replies[..n]) + if replies[n].allowed then calls[n].requested else 0
  }

  function RepliesTo(rate: real, burst: real, calls: seq<Call>): (r: seq<Reply>)
    requires rate > 0.0
    ensures |r| == |calls|
  {
    RepliesOfPrefix(rate, burst, None, calls, 0);
    Replies(rate, burst, None, calls)
  }

  /** One call more. */
  lemma {:induction false} OneCallMore(rate: real, burst: real, key: Option<Bucket>, calls: seq<Call>)
    requires rate > 0.0 && calls != []
    ensures var n := |calls| - 1;
            var before := KeyAfter(rate, burst, key, calls[..n]);
            && |Replies(rate, burst, key, calls)| == |calls|
            && KeyAfter(rate, burst, key, calls) == Some(Script(rate, burst, calls[n], before).0)
            && Replies(rate, burst, key, calls)[n] == Script(rate, burst, calls[n], before).1
    decreases calls
  {
    var n := |calls| - 1;
    RepliesOfPrefix(rate, burst, key, calls, 0);
    if n > 0 {
      var next := Some(Script(rate, burst, calls[0], key).0);
      OneCallMore(rate, burst, next, calls[1..]);
      assert calls[..n][1..] == calls[1..][..n - 1];
    }
  }

  /** What a stretch of time earns. */
  function Earned(rate: real, from: int, to: int): real { (to - from) as real / 1000.0 * rate }

  /** The tokens left are all that the stretch from call j could use, less what it was handed. */
  ghost predicate FullAt(rate: real, burst: real, calls: seq<Call>, replies: seq<Reply>, j: nat, tokens: real) {
    && j < |calls| == |replies|
    && tokens == burst + Earned(rate, calls[j].now, calls[|calls| - 1].now) - Handed(calls[j..], replies[j..]) as real
  }

  lemma HandedStep(calls: seq<Call>, replies: seq<Reply>, j: nat)
    requires |calls| == |replies| && j < |calls|
    ensures var n := |calls| - 1;
            var last := if replies[n].allowed then calls[n].requested else 0;
            Handed(calls[j..], replies[j..]) == Handed(calls[..n][j..], replies[..n][j..]) + last
  {
    var n := |calls| - 1;
    assert calls[j..][..n - j] == calls[..n][j..] && replies[j..][..n - j] == replies[..n][j..];
  }

  lemma EarnedSince(rate: real, from: int, mid: int, to: int)
    ensures Earned(rate, from, to) == Earned(rate, from, mid) + Earned(rate, mid, to)
  {
    assert (to - from) as real / 1000.0 == (mid - from) as real / 1000.0 + (to - mid) as real / 1000.0;
  }

  lemma FullHere(rate: real, burst: real, calls: seq<Call>, replies: seq<Reply>, tokens: real)
    requires calls != [] && |calls| == |replies|
    requires var n := |calls| - 1; tokens == burst - (if replies[n].allowed then calls[n].requested else 0) as real
    ensures FullAt(rate, burst, calls, replies, |calls| - 1, tokens)
  {
    HandedStep(calls, replies, |calls| - 1);
    assert calls[..|calls| - 1][|calls| - 1..] == [];
  }

  lemma FullBefore(rate: real, burst: real, calls: seq<Call>, replies: seq<Reply>, j: nat, was: real, tokens: real)
    requires |calls| > 1 && |calls| == |replies|
    requires FullAt(rate, burst, calls[..|calls| - 1], replies[..|calls| - 1], j, was)
    requires var n := |calls| - 1;
             tokens == was + Earned(rate, calls[n - 1].now, calls[n].now)
                       - (if replies[n].allowed then calls[n].requested else 0) as real
    ensures FullAt(rate, burst, calls, replies, j, tokens)
  {
    var n := |calls| - 1;
    HandedStep(calls, replies, j);
    EarnedSince(rate, calls[j].now, calls[n - 1].now, calls[n].now);
  }

  lemma Taken(rate: real, burst: real, call: Call, key: Option<Bucket>)
    requires rate > 0.0
    ensures var (b, reply) := Script(rate, burst, call, key);
            && b.ts == call.now
            && b.tokens == Refill(rate, burst, call.now, key) - (if reply.allowed then call.requested else 0) as real
  {
  }

  lemma RefillEarns(rate: real, burst: real, b: Bucket, now: int)
    requires b.ts <= now && Refill(rate, burst, now, Some(b)) != burst
    ensures Refill(rate, burst, now, Some(b)) == b.tokens + Earned(rate, b.ts, now)
  {
  }

  lemma {:induction false} LastFull(rate: real, burst: real, calls: seq<Call>) returns (j: nat)
    requires Configured(rate, burst) && calls != [] && Monotone(calls)
    ensures var key := KeyAfter(rate, burst, None, calls);
            && key.Some? && key.value.ts == calls[|calls| - 1].now
            && FullAt(rate, burst, calls, RepliesTo(rate, burst, calls), j, key.value.tokens)
    decreases |calls|
  {
    var n := |calls| - 1;
    var replies, before := RepliesTo(rate, burst, calls), KeyAfter(rate, burst, None, calls[..n]);
    OneCallMore(rate, burst, None, calls);
    Taken(rate, burst, calls[n], before);
    RepliesOfPrefix(rate, burst, None, calls, n);
    var after := Script(rate, burst, calls[n], before).0;
    if n == 0 {
      j := 0;
      FullHere(rate, burst, calls, replies, after.tokens);
    } else {
      j := LastFull(rate, burst, calls[..n]);
      assert calls[n - 1].now <= calls[n].now;
      if Refill(rate, burst, calls[n].now, before) == burst {
        j := n;
        FullHere(rate, burst, calls, replies, after.tokens);
      } else {
        RefillEarns(rate, burst, before.value, calls[n].now);
        FullBefore(rate, burst, calls, replies, j, before.value.tokens, after.tokens);
      }
    }
  }

  /** Nobody is refused without cause: when a call is refused, on a clock that never steps back, some stretch of calls
      that ends with it was handed more than burst + rate * length, less what the call asks for. */
  lemma RefusalIsEarned(rate: real, burst: real, calls: seq<Call>)
    requires Configured(rate, burst) && calls != [] && Monotone(calls)
    requires !RepliesTo(rate, burst, calls)[|calls| - 1].allowed
    ensures var n, replies := |calls| - 1, RepliesTo(rate, burst, calls);
            exists j :: 0 <= j <= n
              && Handed(calls[j..], replies[j..]) as real
                 > burst + (calls[n].now - calls[j].now) as real / 1000.0 * rate - calls[n].requested as real
  {
    var n := |calls| - 1;
    var replies, before := RepliesTo(rate, burst, calls), KeyAfter(rate, burst, None, calls[..n]);
    var j := LastFull(rate, burst, calls);
    OneCallMore(rate, burst, None, calls);
    Taken(rate, burst, calls[n], before);
    assert Handed(calls[j..], replies[j..]) as real
        > burst + Earned(rate, calls[j].now, calls[n].now) - calls[n].requested as real;
  }

  // ------------------------------------------------------------- key expiry

  /** The same run when Redis drops the key before the calls marked in `drops`. */
  function RepliesDropping(rate: real, burst: real, key: Option<Bucket>, calls: seq<Call>, drops: seq<bool>): seq<Reply>
    requires rate > 0.0 && |drops| == |calls|
    decreases calls
  {
    if calls == [] then [] else
      var (b, reply) := Script(rate, burst, calls[0], if drops[0] then None else key);
      [reply] + RepliesDropping(rate, burst, Some(b), calls[1..], drops[1..])
  }

  /** A drop may happen, but need not, once the key's time is over. */
  ghost predicate MayDrop(rate: real, burst: real, key: Option<Bucket>, calls: seq<Call>, drops: seq<bool>)
    requires rate > 0.0 && |drops| == |calls|
    decreases calls
  {
    calls != [] ==>
      && (drops[0] && key.Some? ==> key.value.expireAt <= calls[0].now)
      && MayDrop(rate, burst, Some(Script(rate, burst, calls[0], if drops[0] then None else key).0),
                 calls[1..], drops[1..])
  }

  /** Key expiry cannot be told from the replies: by the time a key may go, its bucket is full again. */
  lemma {:induction false} ExpiryIsInvisible(
    rate: real, burst: real, key: Option<Bucket>, calls: seq<Call>, drops: seq<bool>)
    requires Configured(rate, burst) && Sane(rate, burst, key) && |drops| == |calls|
    requires MayDrop(rate, burst, key, calls, drops)
    ensures RepliesDropping(rate, burst, key, calls, drops) == Replies(rate, burst, key, calls)
    decreases calls
  {
    if calls != [] {
      if drops[0] && key.Some? {
        IdleBucketIsFull(rate, burst, key.value, calls[0].now);
      }
      CallStaysSane(rate, burst, key, calls[0]);
      ExpiryIsInvisible(rate, burst, Some(Script(rate, burst, calls[0], key).0), calls[1..], drops[1..]);
    }
  }

  /** What the database holds for a key, expired or not. */
  function Held(limiter: RateLimiter, key: string): Option<Bucket>
    reads limiter
  {
    if key in limiter.keys then Some(limiter.keys[key]) else None
  }

  /** One call of a limiter answers and leaves what the script does with what is held, expired or not. */
  lemma FoundOrFull(rate: real, burst: real, held: Option<Bucket>, found: Option<Bucket>, call: Call)
    requires Configured(rate, burst) && Sane(rate, burst, held)
    requires found == if held.Some? && call.now < held.value.expireAt then held else None
    ensures Script(rate, burst, call, found) == Script(rate, burst, call, held)
  {
    if held.Some? && held.value.expireAt <= call.now {
      IdleBucketIsFull(rate, burst, held.value, call.now);
    }
  }

  function CallsAt(times: seq<int>): (r: seq<Call>)
    ensures |r| == |times|
  {
    seq(|times|, i requires 0 <= i < |times| => Call(times[i], 1))
  }

  /** One client, call by call: its replies are those of one run of the script on one bucket that is never dropped. */
  method ServeClient(limiter: RateLimiter, key: string, times: seq<int>) returns (replies: seq<Reply>)
    requires Configured(limiter.rate, limiter.burst) && Sane(limiter.rate, limiter.burst, Held(limiter, key))
    modifies limiter
    ensures replies == Replies(limiter.rate, limiter.burst, old(Held(limiter, key)), CallsAt(times))
    ensures Held(limiter, key) == KeyAfter(limiter.rate, limiter.burst, old(Held(limiter, key)), CallsAt(times))
    ensures limiter.keys - {key} == old(limiter.keys) - {key}
  {
    ghost var start, calls := Held(limiter, key), CallsAt(times);
    replies := [];
    for i := 0 to |times|
      invariant Sane(limiter.rate, limiter.burst, Held(limiter, key))
      invariant Held(limiter, key) == KeyAfter(limiter.rate, limiter.burst, start, calls[..i])
      invariant replies == Replies(limiter.rate, limiter.burst, start, calls[..i])
      invariant limiter.keys - {key} == old(limiter.keys) - {key}
    {
      ghost var held := Held(limiter, key);
      FoundOrFull(limiter.rate, limiter.burst, held, limiter.Find(key, times[i]), calls[i]);
      CallStaysSane(limiter.rate, limiter.burst, held, calls[i]);
      NextReply(limiter.rate, limiter.burst, start, calls, i);
      var allowed, retryAfter := limiter.Allow(key, times[i]);
      replies := replies + [Reply(allowed, retryAfter)];
    }
    assert calls[..|times|] == calls;
  }

  lemma NextReply(rate: real, burst: real, key: Option<Bucket>, calls: seq<Call>, i: nat)
    requires rate > 0.0 && i < |calls|
    ensures var (b, reply) := Script(rate, burst, calls[i], KeyAfter(rate, burst, key, calls[..i]));
            && KeyAfter(rate, burst, key, calls[..i + 1]) == Some(b)
            && Replies(rate, burst, key, calls[..i + 1]) == Replies(rate, burst, key, calls[..i]) + [reply]
  {
    var more := calls[..i + 1];
    assert more[..i] == calls[..i];
    OneCallMore(rate, burst, key, more);
    RepliesOfPrefix(rate, burst, key, more, i);
  }

  /** A key outlives the time an empty bucket needs to fill by one second, to the millisecond. */
  lemma KeyOutlivesFill(rate: real, burst: real, call: Call, key: Option<Bucket>)
    requires Configured(rate, burst)
    ensures var life := (Script(rate, burst, call, key).0.expireAt - call.now) as real;
            burst / rate * 1000.0 + 1000.0 <= life < burst / rate * 1000.0 + 1001.0
  {
  }

  lemma IdleBucketIsFull(rate: real, burst: real, b: Bucket, now: int)
    requires Configured(rate, burst) && Sane(rate, burst, Some(b)) && b.expireAt <= now
    ensures Refill(rate, burst, now, Some(b)) == Refill(rate, burst, now, None)
  {
    var fill := burst / rate;
    var idle := (now - b.ts) as real / 1000.0;
    assert now - b.ts >= Ceil(fill * 1000.0) + 1000;
    assert fill > 0.0;
    assert idle >= fill;
    Scale(rate, fill, idle);
    assert fill * rate == burst;
    assert Credit(rate, Forward(b.ts, now)) == idle * rate;
  }

  lemma Scale(rate: real, a: real, b: real)
    requires rate > 0.0 && a <= b
    ensures a * rate <= b * rate
  {
  }

  // ------------------------------------------------------------- the wait that is announced

  /** A refused client that waits as told is let in, if nobody else used the key; a wait of more than one second is
      not a second too long; and the key is still there at that moment. */
  lemma RetryAfterIsExact(rate: real, burst: real, key: Option<Bucket>, now: int)
    requires Configured(rate, burst) && Sane(rate, burst, key)
    requires !Script(rate, burst, Call(now, 1), key).1.allowed
    ensures var (b, reply) := Script(rate, burst, Call(now, 1), key);
            var wait := 1000 * reply.retryAfter;
      && Script(rate, burst, Call(now + wait, 1), Some(b)).1.allowed
      && (reply.retryAfter > 1 ==> !Script(rate, burst, Call(now + wait - 1000, 1), Some(b)).1.allowed)
      && now + wait < b.expireAt
  {
    var (b, reply) := Script(rate, burst, Call(now, 1), key);
    CallStaysSane(rate, burst, key, Call(now, 1));
    var r := reply.retryAfter;
    RefillAfterSeconds(rate, burst, b, r);
    RefillAfterSeconds(rate, burst, b, r - 1);
    WaitCoversNeed(rate, b.tokens, r);
    WaitIsShort(rate, burst, b.tokens, r);
    assert Min(burst, b.tokens + (r as real) * rate) >= 1.0;
  }

  lemma RefillAfterSeconds(rate: real, burst: real, b: Bucket, s: nat)
    requires Configured(rate, burst)
    ensures Refill(rate, burst, b.ts + 1000 * s, Some(b)) == Min(burst, b.tokens + s as real * rate)
  {
    assert (1000 * s) as real / 1000.0 == s as real;
  }

  lemma Quotient(rate: real, x: real) returns (q: real)
    requires rate > 0.0
    ensures q == x / rate && q * rate == x
  {
    q := x / rate;
  }

  /** r seconds earn what is missing from one token, and r - 1 do not unless r is 1. */
  lemma WaitCoversNeed(rate: real, tokens: real, r: int)
    requires rate > 0.0 && tokens < 1.0
    requires var need := Ceil((1.0 - tokens) / rate); r == if need < 1 then 1 else need
    ensures tokens + r as real * rate >= 1.0
    ensures r > 1 ==> tokens + (r - 1) as real * rate < 1.0
  {
    Enough(rate, tokens, r);
    if r > 1 {
      NotEnough(rate, tokens, r - 1);
    }
  }

  lemma Enough(rate: real, tokens: real, s: int)
    requires rate > 0.0 && (1.0 - tokens) / rate <= s as real
    ensures tokens + s as real * rate >= 1.0
  {
    var need := Quotient(rate, 1.0 - tokens);
    Scale(rate, need, s as real);
  }

  lemma NotEnough(rate: real, tokens: real, s: int)
    requires rate > 0.0 && s as real < (1.0 - tokens) / rate
    ensures tokens + s as real * rate < 1.0
  {
    var need := Quotient(rate, 1.0 - tokens);
    StrictScale(rate, s as real, need);
  }

  lemma StrictScale(rate: real, a: real, b: real)
    requires rate > 0.0 && a < b
    ensures a * rate < b * rate
  {
  }

  lemma WaitIsShort(rate: real, burst: real, tokens: real, r: int)
    requires Configured(rate, burst) && 0.0 <= tokens < 1.0
    requires var need := Ceil((1.0 - tokens) / rate); r == if need < 1 then 1 else need
    ensures 1000 * r < Ttl(rate, burst)
  {
    var fill, need := burst / rate, (1.0 - tokens) / rate;
    Divide(rate, 1.0 - tokens, burst);
    assert fill > 0.0 && need <= fill;
    assert r as real < fill + 1.0;
    assert (1000 * r) as real < fill * 1000.0 + 1000.0;
  }

  lemma Divide(rate: real, a: real, b: real)
    requires rate > 0.0 && a <= b
    ensures a / rate <= b / rate
    ensures b > 0.0 ==> b / rate > 0.0
  {
    var x, y := a / rate, b / rate;
    assert x * rate == a && y * rate == b;
    if y < x {
      StrictScale(rate, y, x);
    }
    if y <= 0.0 {
      Scale(rate, y, 0.0);
    }
  }
}
