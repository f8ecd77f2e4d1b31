/** Lookups, revocations and cache expiry, interleaved at will: how stale an accepted credential can be. */
module ApiKeyStaleness {
  import opened Collections
  import opened ApiKeyFormat
  import opened ApiKeyAuth

  type Db = map<string, Credential>

  /** A state of the database, and when it began. */
  datatype Version = Version(db: Db, since: int)

  /** A cached credential, with the version of the database it was read from. */
  datatype Cached = Cached(cred: Credential, version: nat, readAt: int, setAt: int)

  /** A request between its lookup and its decision. `setAt` is the age of the cache entry it used, if any; `pending`
      says that it read the database and has not filled the cache yet. */
  datatype Request = Request(keyId: string, cred: Credential, version: nat, readAt: int, setAt: Option<int>,
                             gotAt: int, pending: bool)

  datatype Acceptance = Acceptance(request: Request, digest: seq<Byte>, at: int)

  /** `versions` lists every state the database went through, the current one last. */
  datatype World = World(now: int, versions: seq<Version>, cache: map<string, Cached>, requests: map<nat, Request>,
                         accepted: seq<Acceptance>)

  datatype Step =
    | Tick(ms: nat)
    | ReadCache(thread: nat, keyId: string)
    | ReadDb(thread: nat, keyId: string)
    | FillCache(thread: nat)
    | Decide(thread: nat, digest: seq<Byte>)
    | RevokeKey(keyId: string)
    | DeleteCached(keyId: string)
    | CreateKey(keyId: string, cred: Credential)
    | SetDevice(deviceId: nat, active: bool)

  function Current(w: World): Db
    requires w.versions != []
  {
    w.versions[|w.versions| - 1].db
  }

  function Fresh(w: World, keyId: string, ttl: int): Option<Cached> {
    if keyId in w.cache && w.now < w.cache[keyId].setAt + ttl then Some(w.cache[keyId]) else None
  }

  predicate Enabled(w: World, step: Step, ttl: int) {
    && w.versions != []
    && match step
       case Tick(_) => true
       case ReadCache(thread, keyId) => thread !in w.requests && Fresh(w, keyId, ttl).Some?
       case ReadDb(thread, keyId) => thread !in w.requests && keyId in Current(w)
       case FillCache(thread) => thread in w.requests && w.requests[thread].pending
       case Decide(thread, _) => thread in w.requests
       case RevokeKey(keyId) => keyId in Current(w)
       case DeleteCached(_) => true
       case CreateKey(keyId, _) => keyId !in Current(w)
       case SetDevice(_, _) => true
  }

  /** The database after `db` is written to it. */
  function Written(w: World, db: Db): World { w.(versions := w.versions + [Version(db, w.now)]) }

  /** A request that missed the cache reads the database, may fill the cache at any later time or not at all, and
      decides. DeleteCached is also what expiry and eviction do. */
  function Next(w: World, step: Step, ttl: int): World
    requires Enabled(w, step, ttl)
  {
    match step
    case Tick(ms) => w.(now := w.now + ms)
    case ReadCache(thread, keyId) =>
      var c := w.cache[keyId];
      w.(requests := w.requests[thread := Request(keyId, c.cred, c.version, c.readAt, Some(c.setAt), w.now, false)])
    case ReadDb(thread, keyId) =>
      var version := |w.versions| - 1;
      w.(requests := w.requests[thread := Request(keyId, Current(w)[keyId], version, w.now, None, w.now, true)])
    case FillCache(thread) =>
      var r := w.requests[thread];
      w.(cache := w.cache[r.keyId := Cached(r.cred, r.version, r.readAt, w.now)],
         requests := w.requests[thread := r.(pending := false)])
    case Decide(thread, digest) =>
      var r := w.requests[thread];
      w.(requests := w.requests - {thread},
         accepted := if r.cred.keyHash == digest && Usable(r.cred, w.now)
                     then w.accepted + [Acceptance(r, digest, w.now)] else w.accepted)
    case RevokeKey(keyId) => Written(w, Current(w)[keyId := Revoked(Current(w)[keyId], w.now)])
    case DeleteCached(keyId) => w.(cache := w.cache - {keyId})
    case CreateKey(keyId, cred) => Written(w, Current(w)[keyId := cred])
    case SetDevice(deviceId, active) => Written(w, WithDevice(Current(w), deviceId, active))
  }

  function WithDevice(db: Db, deviceId: nat, active: bool): Db {
    map k | k in db :: if db[k].deviceId == deviceId then db[k].(deviceActive := active) else db[k]
  }

  ghost predicate EnabledRun(w: World, steps: seq<Step>, ttl: int)
    decreases steps
  {
    steps == [] || (Enabled(w, steps[0], ttl) && EnabledRun(Next(w, steps[0], ttl), steps[1..], ttl))
  }

  function Run(w: World, steps: seq<Step>, ttl: int): World
    requires EnabledRun(w, steps, ttl)
    decreases steps
  {
    if steps == [] then w else Run(Next(w, steps[0], ttl), steps[1..], ttl)
  }

  // ------------------------------------------------------------- the steps are those of the code

  /** The cache as the code sees it. */
  function View(w: World): map<string, CacheEntry> {
    map k | k in w.cache :: CacheEntry(w.cache[k].cred, w.cache[k].setAt)
  }

  /** ReadCache, or ReadDb and FillCache, with nothing in between, do what Keys.Lookup does. */
  lemma StepsOfLookup(w: World, t: nat, keyId: string, ttl: int)
    requires w.versions != [] && t !in w.requests && keyId in Current(w)
    ensures var hit := keyId in View(w) && w.now < View(w)[keyId].setAt + ttl;
            var steps := if hit then [ReadCache(t, keyId)] else [ReadDb(t, keyId), FillCache(t)];
            && EnabledRun(w, steps, ttl)
            && var after := Run(w, steps, ttl);
               && t in after.requests && after.requests[t].keyId == keyId
               && after.requests[t].cred == (if hit then View(w)[keyId].cred else Current(w)[keyId])
               && View(after) == (if hit then View(w) else View(w)[keyId := CacheEntry(Current(w)[keyId], w.now)])
               && after.versions == w.versions
  {
    if keyId in View(w) && w.now < View(w)[keyId].setAt + ttl {
      RunOne(w, ReadCache(t, keyId), ttl);
    } else {
      var read, fill := ReadDb(t, keyId), FillCache(t);
      var next := Next(w, read, ttl);
      RunOne(next, fill, ttl);
      assert [read, fill][1..] == [fill];
    }
  }

  /** Decide accepts exactly what Keys.Authenticate accepts of a credential. */
  lemma StepOfDecide(w: World, t: nat, digest: seq<Byte>, ttl: int)
    requires w.versions != [] && t in w.requests
    ensures var cred, accepted := w.requests[t].cred, Next(w, Decide(t, digest), ttl).accepted;
            accepted == if && cred.keyHash == digest && cred.revokedAt == None && cred.deviceActive
                           && (cred.expiresAt.None? || w.now < cred.expiresAt.value)
                        then w.accepted + [Acceptance(w.requests[t], digest, w.now)] else w.accepted
  {
  }

  /** RevokeKey and DeleteCached do what Keys.RevokeAPIKey does to the database and to the cache. */
  lemma StepsOfRevoke(w: World, keyId: string, ttl: int)
    requires w.versions != [] && keyId in Current(w)
    requires forall k :: k in Current(w) && Current(w)[k].keyPk == Current(w)[keyId].keyPk ==> k == keyId
    ensures var cred := Current(w)[keyId];
            && Current(Next(w, RevokeKey(keyId), ttl)) == RevokeWhere(Current(w), cred.keyPk, cred.tenantId, w.now)
            && View(Next(w, DeleteCached(keyId), ttl)) == View(w) - {keyId}
  {
  }

  /** Switching a device on or off reaches the credentials of that device and no other, and nothing else of theirs. */
  lemma StepOfDevice(w: World, deviceId: nat, active: bool, ttl: int)
    requires w.versions != []
    ensures var before, after := Current(w), Current(Next(w, SetDevice(deviceId, active), ttl));
            && after.Keys == before.Keys
            && forall k :: k in before ==>
                 if before[k].deviceId == deviceId then
                   after[k].deviceActive == active && after[k].(deviceActive := before[k].deviceActive) == before[k]
                 else after[k] == before[k]
  {
  }

  // ------------------------------------------------------------- what every acceptance rests on

  /** The credential is what the database held for the key at that time. */
  ghost predicate ReadFrom(w: World, keyId: string, cred: Credential, version: nat, readAt: int) {
    && version < |w.versions| && keyId in w.versions[version].db && w.versions[version].db[keyId] == cred
    && w.versions[version].since <= readAt <= w.now
    && (version + 1 < |w.versions| ==> readAt <= w.versions[version + 1].since)
  }

  ghost predicate RequestSound(w: World, r: Request, ttl: int) {
    && ReadFrom(w, r.keyId, r.cred, r.version, r.readAt)
    && r.readAt <= r.gotAt <= w.now
    && (r.setAt.Some? ==> r.readAt <= r.setAt.value <= r.gotAt < r.setAt.value + ttl)
  }

  /** An acceptance used a credential that was unrevoked, with an active device, in the database at the time it was
      read; a cache entry was younger than the time to live when it was used; and the key had not expired. */
  ghost predicate Justified(w: World, a: Acceptance, ttl: int) {
    && RequestSound(w, a.request, ttl)
    && a.request.gotAt <= a.at <= w.now
    && a.request.cred.keyHash == a.digest
    && a.request.cred.revokedAt.None? && a.request.cred.deviceActive
    && (a.request.cred.expiresAt.None? || a.at < a.request.cred.expiresAt.value)
  }

  /** Keys stay; a revocation is stamped with the time it is written, and stays as it is. */
  ghost predicate Grows(before: Version, after: Version) {
    && before.since <= after.since
    && forall k :: k in before.db ==>
         && k in after.db
         && (before.db[k].revokedAt.Some? ==> after.db[k].revokedAt == before.db[k].revokedAt)
         && (before.db[k].revokedAt.None? && after.db[k].revokedAt.Some? ==>
               after.db[k].revokedAt.value == after.since)
  }

  ghost predicate History(versions: seq<Version>) {
    versions != [] && forall v :: 0 <= v < |versions| - 1 ==> Grows(versions[v], versions[v + 1])
  }

  ghost predicate CachedSound(w: World, keyId: string, c: Cached) {
    ReadFrom(w, keyId, c.cred, c.version, c.readAt) && c.readAt <= c.setAt <= w.now
  }

  ghost predicate Sound(w: World, ttl: int) {
    && History(w.versions) && w.versions[|w.versions| - 1].since <= w.now
    && (forall k :: k in w.cache ==> CachedSound(w, k, w.cache[k]))
    && (forall t :: t in w.requests ==> RequestSound(w, w.requests[t], ttl))
    && (forall a :: a in w.accepted ==> Justified(w, a, ttl))
  }

  lemma {:induction false} EveryAcceptanceIsJustified(w: World, steps: seq<Step>, ttl: int)
    requires Sound(w, ttl) && EnabledRun(w, steps, ttl)
    ensures Sound(Run(w, steps, ttl), ttl)
    decreases steps
  {
    if steps != [] {
      StepIsSound(w, steps[0], ttl);
      EveryAcceptanceIsJustified(Next(w, steps[0], ttl), steps[1..], ttl);
    }
  }

  /** The world goes on: time passes, and at most one state of the database is added, beginning now. */
  ghost predicate GoesOn(w: World, next: World) {
    && w.now <= next.now
    && (next.versions == w.versions
        || (|next.versions| == |w.versions| + 1 && w.versions <= next.versions
            && next.versions[|w.versions|].since == w.now))
  }

  /** What was read stays read from where it was. */
  lemma ReadFromLater(w: World, next: World, keyId: string, cred: Credential, version: nat, readAt: int)
    requires GoesOn(w, next) && ReadFrom(w, keyId, cred, version, readAt)
    ensures ReadFrom(next, keyId, cred, version, readAt)
  {
    assert next.versions[version] == w.versions[version];
  }

  lemma RequestLater(w: World, next: World, r: Request, ttl: int)
    requires GoesOn(w, next) && RequestSound(w, r, ttl)
    ensures RequestSound(next, r, ttl)
  {
    ReadFromLater(w, next, r.keyId, r.cred, r.version, r.readAt);
  }

  lemma StepGoesOn(w: World, step: Step, ttl: int)
    requires Enabled(w, step, ttl)
    ensures GoesOn(w, Next(w, step, ttl))
  {
  }

  lemma StepIsSound(w: World, step: Step, ttl: int)
    requires Sound(w, ttl) && Enabled(w, step, ttl)
    ensures Sound(Next(w, step, ttl), ttl)
  {
    var next := Next(w, step, ttl);
    HistoryGoesOn(w, step, ttl);
    forall k | k in next.cache ensures CachedSound(next, k, next.cache[k]) {
      CacheStaysSound(w, step, ttl, k);
    }
    forall t | t in next.requests ensures RequestSound(next, next.requests[t], ttl) {
      RequestStaysSound(w, step, ttl, t);
    }
    forall a | a in next.accepted ensures Justified(next, a, ttl) {
      AcceptanceStaysJustified(w, step, ttl, a);
    }
  }

  lemma CacheStaysSound(w: World, step: Step, ttl: int, k: string)
    requires Sound(w, ttl) && Enabled(w, step, ttl) && k in Next(w, step, ttl).cache
    ensures var next := Next(w, step, ttl); CachedSound(next, k, next.cache[k])
  {
    var next := Next(w, step, ttl);
    var c := next.cache[k];
    StepGoesOn(w, step, ttl);
    if k in w.cache && w.cache[k] == c {
      assert CachedSound(w, k, c);
    } else {
      assert RequestSound(w, w.requests[step.thread], ttl);
    }
    ReadFromLater(w, next, k, c.cred, c.version, c.readAt);
  }

  lemma RequestStaysSound(w: World, step: Step, ttl: int, t: nat)
    requires Sound(w, ttl) && Enabled(w, step, ttl) && t in Next(w, step, ttl).requests
    ensures var next := Next(w, step, ttl); RequestSound(next, next.requests[t], ttl)
  {
    var next := Next(w, step, ttl);
    StepGoesOn(w, step, ttl);
    if t in w.requests {
      RequestLater(w, next, w.requests[t], ttl);
    } else if step.ReadCache? {
      assert CachedSound(w, step.keyId, w.cache[step.keyId]);
    }
  }

  lemma AcceptanceStaysJustified(w: World, step: Step, ttl: int, a: Acceptance)
    requires Sound(w, ttl) && Enabled(w, step, ttl) && a in Next(w, step, ttl).accepted
    ensures Justified(Next(w, step, ttl), a, ttl)
  {
    StepGoesOn(w, step, ttl);
    if a in w.accepted {
      assert Justified(w, a, ttl);
    } else {
      assert a == Acceptance(w.requests[step.thread], step.digest, w.now);
      assert RequestSound(w, a.request, ttl);
    }
    RequestLater(w, Next(w, step, ttl), a.request, ttl);
  }

  lemma HistoryGoesOn(w: World, step: Step, ttl: int)
    requires History(w.versions) && w.versions[|w.versions| - 1].since <= w.now && Enabled(w, step, ttl)
    ensures var next := Next(w, step, ttl);
            History(next.versions) && next.versions[|next.versions| - 1].since <= next.now
  {
    var next := Next(w, step, ttl);
    var n := |w.versions|;
    if next.versions != w.versions {
      assert Grows(w.versions[n - 1], next.versions[n]);
      forall v | 0 <= v < |next.versions| - 1 ensures Grows(next.versions[v], next.versions[v + 1]) {
        if v < n - 1 {
          assert Grows(w.versions[v], w.versions[v + 1]);
        }
      }
    }
  }

  /** A key that was unrevoked in one state and is revoked in a later one was revoked after the first had ended. */
  lemma {:induction false} RevokedAfter(versions: seq<Version>, keyId: string, v: nat, u: nat)
    requires History(versions) && v <= u < |versions|
    requires keyId in versions[v].db && versions[v].db[keyId].revokedAt.None?
    ensures keyId in versions[u].db
    ensures versions[u].db[keyId].revokedAt.Some? ==>
              v < u && versions[v + 1].since <= versions[u].db[keyId].revokedAt.value
    ensures v < u ==> versions[v + 1].since <= versions[u].since
  {
    if v < u {
      RevokedAfter(versions, keyId, v, u - 1);
      assert Grows(versions[u - 1], versions[u - 1 + 1]);
    }
  }

  lemma {:induction false} RevokedForever(versions: seq<Version>, keyId: string, v: nat, u: nat)
    requires History(versions) && v <= u < |versions|
    requires keyId in versions[v].db && versions[v].db[keyId].revokedAt.Some?
    ensures keyId in versions[u].db && versions[u].db[keyId].revokedAt == versions[v].db[keyId].revokedAt
  {
    if v < u {
      RevokedForever(versions, keyId, v, u - 1);
      assert Grows(versions[u - 1], versions[u - 1 + 1]);
    }
  }

  /** Staleness is bounded. Whatever is accepted for a key was read from a state before the revoked ones, and no later
      than the time of the revocation; so a cache hit is accepted before the revocation plus the time to live, the time
      from the read to the fill, and the time from the hit to the decision. */
  lemma StaleOnlyBefore(w: World, a: Acceptance, revokedIn: nat, ttl: int)
    requires Sound(w, ttl) && a in w.accepted
    requires revokedIn < |w.versions| && a.request.keyId in w.versions[revokedIn].db
    requires w.versions[revokedIn].db[a.request.keyId].revokedAt.Some?
    ensures var r, revokedAt := a.request, w.versions[revokedIn].db[a.request.keyId].revokedAt.value;
            && r.version < revokedIn
            && r.readAt <= revokedAt
            && (r.setAt.Some? ==> a.at < revokedAt + (r.setAt.value - r.readAt) + ttl + (a.at - r.gotAt))
  {
    assert Justified(w, a, ttl);
    if revokedIn <= a.request.version {
      RevokedForever(w.versions, a.request.keyId, revokedIn, a.request.version);
    } else {
      RevokedAfter(w.versions, a.request.keyId, a.request.version, revokedIn);
    }
  }

  // ------------------------------------------------------------- exactly when a revocation is final

  /** RevokeAPIKey has finished for the key: revoked in the database, gone from the cache. */
  ghost predicate RevocationDone(w: World, keyId: string) {
    w.versions != [] && keyId in Current(w) && Current(w)[keyId].revokedAt.Some? && keyId !in w.cache
  }

  function AcceptancesOf(w: World, keyId: string): nat {
    |Filter(w.accepted, (a: Acceptance) => a.request.keyId == keyId)|
  }

  ghost predicate NeverAcceptedAgain(w: World, keyId: string, ttl: int) {
    forall steps :: EnabledRun(w, steps, ttl) ==> AcceptancesOf(Run(w, steps, ttl), keyId) == AcceptancesOf(w, keyId)
  }

  ghost predicate NobodyHolds(w: World, keyId: string) {
    forall t :: t in w.requests && w.requests[t].keyId == keyId ==> !Usable(w.requests[t].cred, w.now)
  }

  /** After a finished revocation the key is never accepted again, in any interleaving, if and only if no request is
      in flight with a usable credential of that key. */
  lemma RevocationIsFinalIff(w: World, keyId: string, ttl: int)
    requires RevocationDone(w, keyId)
    ensures NeverAcceptedAgain(w, keyId, ttl) <==> NobodyHolds(w, keyId)
  {
    if NobodyHolds(w, keyId) {
      forall steps | EnabledRun(w, steps, ttl)
        ensures AcceptancesOf(Run(w, steps, ttl), keyId) == AcceptancesOf(w, keyId)
      {
        DeadStaysDead(w, keyId, steps, ttl);
      }
    } else {
      var t :| t in w.requests && w.requests[t].keyId == keyId && Usable(w.requests[t].cred, w.now);
      HolderGetsIn(w, keyId, t, ttl);
    }
  }

  lemma HolderGetsIn(w: World, keyId: string, t: nat, ttl: int)
    requires w.versions != [] && t in w.requests && w.requests[t].keyId == keyId && Usable(w.requests[t].cred, w.now)
    ensures var steps := [Decide(t, w.requests[t].cred.keyHash)];
            EnabledRun(w, steps, ttl) && AcceptancesOf(Run(w, steps, ttl), keyId) == AcceptancesOf(w, keyId) + 1
  {
    var step := Decide(t, w.requests[t].cred.keyHash);
    var steps := [step];
    var next := Next(w, step, ttl);
    assert steps[1..] == [];
    assert EnabledRun(next, steps[1..], ttl);
    var a := Acceptance(w.requests[t], w.requests[t].cred.keyHash, w.now);
    FilterConcat(w.accepted, [a], (x: Acceptance) => x.request.keyId == keyId);
  }

  /** Revoked in the database; every credential of the key still around is unusable, and stays so. */
  ghost predicate Dead(w: World, keyId: string) {
    && w.versions != [] && keyId in Current(w) && Current(w)[keyId].revokedAt.Some?
    && (keyId in w.cache ==> !Usable(w.cache[keyId].cred, w.now))
    && NobodyHolds(w, keyId)
  }

  lemma {:induction false} DeadStaysDead(w: World, keyId: string, steps: seq<Step>, ttl: int)
    requires Dead(w, keyId) && EnabledRun(w, steps, ttl)
    ensures AcceptancesOf(Run(w, steps, ttl), keyId) == AcceptancesOf(w, keyId)
    decreases steps
  {
    if steps != [] {
      DeadStep(w, keyId, steps[0], ttl);
      DeadStaysDead(Next(w, steps[0], ttl), keyId, steps[1..], ttl);
    }
  }

  lemma DeadStep(w: World, keyId: string, step: Step, ttl: int)
    requires Dead(w, keyId) && Enabled(w, step, ttl)
    ensures Dead(Next(w, step, ttl), keyId)
    ensures AcceptancesOf(Next(w, step, ttl), keyId) == AcceptancesOf(w, keyId)
  {
    var next := Next(w, step, ttl);
    if step.Decide? && next.accepted != w.accepted {
      var a := Acceptance(w.requests[step.thread], step.digest, w.now);
      FilterConcat(w.accepted, [a], (x: Acceptance) => x.request.keyId == keyId);
    }
  }

  // ------------------------------------------------------------- exactly when the cache stays clean

  ghost predicate CacheClean(w: World, keyId: string) {
    keyId in w.cache ==> !Usable(w.cache[keyId].cred, w.now)
  }

  /** What writing the database before the cache is meant to secure: the old credential is not cached again. */
  ghost predicate NeverCachedAgain(w: World, keyId: string, ttl: int) {
    forall steps :: EnabledRun(w, steps, ttl) ==> CacheClean(Run(w, steps, ttl), keyId)
  }

  ghost predicate NobodyMayFill(w: World, keyId: string) {
    forall t :: t in w.requests && w.requests[t].keyId == keyId && w.requests[t].pending ==>
      !Usable(w.requests[t].cred, w.now)
  }

  /** After a finished revocation no run caches a usable credential of the key again if and only if no request that
      read the database, and has yet to fill the cache, holds one. Requests that hit the cache do not matter. */
  lemma NeverCachedAgainIff(w: World, keyId: string, ttl: int)
    requires RevocationDone(w, keyId)
    ensures NeverCachedAgain(w, keyId, ttl) <==> NobodyMayFill(w, keyId)
  {
    if NobodyMayFill(w, keyId) {
      forall steps | EnabledRun(w, steps, ttl) ensures CacheClean(Run(w, steps, ttl), keyId) {
        CleanStaysClean(w, keyId, steps, ttl);
      }
    } else {
      var t :| t in w.requests && w.requests[t].keyId == keyId && w.requests[t].pending
               && Usable(w.requests[t].cred, w.now);
      var fill := FillCache(t);
      RunOne(w, fill, ttl);
      assert !CacheClean(Run(w, [fill], ttl), keyId);
    }
  }

  /** Revoked in the database, not usable in the cache, and nobody is about to change that. */
  ghost predicate Clean(w: World, keyId: string) {
    && w.versions != [] && keyId in Current(w) && Current(w)[keyId].revokedAt.Some?
    && CacheClean(w, keyId) && NobodyMayFill(w, keyId)
  }

  lemma {:induction false} CleanStaysClean(w: World, keyId: string, steps: seq<Step>, ttl: int)
    requires Clean(w, keyId) && EnabledRun(w, steps, ttl)
    ensures Clean(Run(w, steps, ttl), keyId)
    decreases steps
  {
    if steps != [] {
      CleanStep(w, keyId, steps[0], ttl);
      CleanStaysClean(Next(w, steps[0], ttl), keyId, steps[1..], ttl);
    }
  }

  lemma CleanStep(w: World, keyId: string, step: Step, ttl: int)
    requires Clean(w, keyId) && Enabled(w, step, ttl)
    ensures Clean(Next(w, step, ttl), keyId)
  {
  }

  /** Then only requests that were in flight when the revocation finished can still get in. */
  lemma {:induction false} OnlyOldRequestsGetIn(
    w: World, keyId: string, steps: seq<Step>, ttl: int, held: set<Request>)
    requires Clean(w, keyId) && EnabledRun(w, steps, ttl)
    requires forall t :: t in w.requests && w.requests[t].keyId == keyId && Usable(w.requests[t].cred, w.now) ==>
               w.requests[t] in held
    ensures forall a :: a in Run(w, steps, ttl).accepted && a.request.keyId == keyId ==>
              a in w.accepted || a.request in held
    decreases steps
  {
    if steps != [] {
      var next := Next(w, steps[0], ttl);
      CleanStep(w, keyId, steps[0], ttl);
      OnlyOldRequestsGetIn(next, keyId, steps[1..], ttl, held);
      if steps[0].Decide? && next.accepted != w.accepted {
        assert forall a :: a in next.accepted ==>
          a in w.accepted || a == Acceptance(w.requests[steps[0].thread], steps[0].digest, w.now);
      }
    }
  }

  /** Every read of the database is followed at once by the fill. */
  ghost predicate AtomicLookups(steps: seq<Step>) {
    forall i :: 0 <= i < |steps| && steps[i].ReadDb? ==> i + 1 < |steps| && steps[i + 1] == FillCache(steps[i].thread)
  }

  ghost predicate NothingPending(w: World) {
    forall t :: t in w.requests ==> !w.requests[t].pending
  }

  /** With lookups that are atomic, nobody is between the read and the fill; so a revocation that finishes then is never
      undone by the cache, whatever follows. */
  lemma AtomicLookupsNeverRefill(w: World, keyId: string, steps: seq<Step>, ttl: int)
    requires NothingPending(w) && EnabledRun(w, steps, ttl) && AtomicLookups(steps)
    requires RevocationDone(Run(w, steps, ttl), keyId)
    ensures NeverCachedAgain(Run(w, steps, ttl), keyId, ttl)
  {
    AtomicLeavesNothingPending(w, steps, ttl);
    NeverCachedAgainIff(Run(w, steps, ttl), keyId, ttl);
  }

  lemma {:induction false} AtomicLeavesNothingPending(w: World, steps: seq<Step>, ttl: int)
    requires NothingPending(w) && EnabledRun(w, steps, ttl) && AtomicLookups(steps)
    ensures NothingPending(Run(w, steps, ttl))
    decreases steps
  {
    if steps != [] {
      var next := Next(w, steps[0], ttl);
      assert forall i :: 0 <= i < |steps| - 1 ==> steps[1..][i] == steps[i + 1];
      if steps[0].ReadDb? {
        var filled := Next(next, steps[1], ttl);
        assert steps[1..][1..] == steps[2..];
        assert forall i :: 0 <= i < |steps| - 2 ==> steps[2..][i] == steps[i + 2];
        AtomicLeavesNothingPending(filled, steps[2..], ttl);
      } else {
        AtomicLeavesNothingPending(next, steps[1..], ttl);
      }
    }
  }

  lemma RunOne(w: World, step: Step, ttl: int)
    requires Enabled(w, step, ttl)
    ensures EnabledRun(w, [step], ttl) && Run(w, [step], ttl) == Next(w, step, ttl)
  {
    assert [step][1..] == [];
    assert EnabledRun(Next(w, step, ttl), [], ttl);
  }

  /** A pending request of a usable credential fills the cache, and a request that comes later gets in with it. */
  lemma LaterRequestGetsIn(w: World, t: nat, u: nat, ttl: int)
    requires w.versions != [] && t in w.requests && w.requests[t].pending && Usable(w.requests[t].cred, w.now)
    requires ttl > 0 && u !in w.requests
    ensures var r := w.requests[t];
            var steps := [FillCache(t), ReadCache(u, r.keyId), Decide(u, r.cred.keyHash)];
            EnabledRun(w, steps, ttl) && AcceptancesOf(Run(w, steps, ttl), r.keyId) == AcceptancesOf(w, r.keyId) + 1
  {
    var r := w.requests[t];
    var steps := [FillCache(t), ReadCache(u, r.keyId), Decide(u, r.cred.keyHash)];
    var w1 := Next(w, steps[0], ttl);
    var w2 := Next(w1, steps[1], ttl);
    RunThree(w, steps, ttl);
    var a := Acceptance(w2.requests[u], r.cred.keyHash, w.now);
    FilterConcat(w.accepted, [a], (x: Acceptance) => x.request.keyId == r.keyId);
  }

  /** So the comment on RevokeAPIKey promises too much: a lookup that read before the revocation may fill the cache
      after the delete, and a request that comes later still gets in. */
  lemma StaleAfterRevoke(w: World, keyId: string, ttl: int)
    requires w.versions != [] && keyId in Current(w) && Usable(Current(w)[keyId], w.now)
    requires ttl > 0 && 0 !in w.requests && 1 !in w.requests
    ensures var before := [ReadDb(0, keyId), RevokeKey(keyId), DeleteCached(keyId)];
            var after := [FillCache(0), ReadCache(1, keyId), Decide(1, Current(w)[keyId].keyHash)];
      && EnabledRun(w, before, ttl) && RevocationDone(Run(w, before, ttl), keyId)
      && EnabledRun(Run(w, before, ttl), after, ttl)
      && AcceptancesOf(Run(Run(w, before, ttl), after, ttl), keyId) == AcceptancesOf(w, keyId) + 1
  {
    var before := [ReadDb(0, keyId), RevokeKey(keyId), DeleteCached(keyId)];
    var w1 := Next(w, before[0], ttl);
    var w2 := Next(w1, before[1], ttl);
    var w3 := Next(w2, before[2], ttl);
    RunThree(w, before, ttl);
    LaterRequestGetsIn(w3, 0, 1, ttl);
  }

  lemma RunThree(w: World, steps: seq<Step>, ttl: int)
    requires |steps| == 3 && Enabled(w, steps[0], ttl)
    requires Enabled(Next(w, steps[0], ttl), steps[1], ttl)
    requires Enabled(Next(Next(w, steps[0], ttl), steps[1], ttl), steps[2], ttl)
    ensures EnabledRun(w, steps, ttl)
    ensures Run(w, steps, ttl) == Next(Next(Next(w, steps[0], ttl), steps[1], ttl), steps[2], ttl)
  {
    var w1 := Next(w, steps[0], ttl);
    var w2 := Next(w1, steps[1], ttl);
    var w3 := Next(w2, steps[2], ttl);
    assert steps[1..] == [steps[1], steps[2]] && steps[1..][1..] == [steps[2]] && steps[1..][1..][1..] == [];
    assert EnabledRun(w3, [], ttl) && Run(w3, [], ttl) == w3;
    assert EnabledRun(w2, [steps[2]], ttl) && Run(w2, [steps[2]], ttl) == w3;
    assert EnabledRun(w1, [steps[1], steps[2]], ttl) && Run(w1, [steps[1], steps[2]], ttl) == w3;
  }
}
