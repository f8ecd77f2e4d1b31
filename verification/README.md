# Verified model of the Embolsadora API core

A Dafny 4.11 model of the parts of the backend that decide something: what is stored, who is let in, what a caller
may see, and what a query answers. Each part is a module or two, built the way the code is: what the Go code does by
changing things step by step is a class or a method with loops, proved against a specification function; what it
computes is a function; what it promises is a lemma over every input or every run.

`dafny verify dfyconfig.toml` checks everything.

## Parts

**Ingest** (`IngestDomain`, `MeasurementStore`, `MeasurementsRepository`, `IngestService`, `EdgeProtocol`). A batch of
events goes through two filters, the envelope check and the BSON encoding, and each filter shifts positions. The
reference semantics (`MeasurementStore.DocsAfter`, `Fates`) walks the original batch once, with no index arrays; the
class methods keep `origIndex` and `sent` as the code does, and are proved to give exactly that. The server is free
to refuse any write, to lose its reply, to fail its write concern, or to stop in the middle, and other requests may
store documents between any two of this one's (`ServerPlan`). `EdgeProtocol` puts outboxes around it: requests are
retried, interleave document by document, and may still be writing after their events were acknowledged; replies come
late, repeatedly, out of order or never. `EveryFlightIsACall` proves that each request of a run, with the company it
had, is one call of `Service.IngestBatch`.

**Rate limits** (`RateLimit`). The Lua script of both limiters as a state machine over reals.

**Dashboards** (`MetricsDomain`, `MetricsRepository`, `MetricsAgreement`, `MetricsMeaning`, `Decimation`, `SeriesMerge`,
`Dashboards`). An aggregation pipeline is match, group, sort and limit over a sequence of documents. A bucket is named by its start
on the grid of whole durations; `SameGrid` proves that this is what `$dateTrunc` computes. `MetricsMeaning` says what the
values are in terms of the documents alone, `MetricsAgreement` how the modes agree. `Query` runs a query from validation
to the answer.

**User roles** (`UserRoleTable`, `UserRoleRepository`, `UserRoleCloaking`, `UserRoleEffects`, `UserRoleAnswers`). The SQL
statements with their guards over one table. `HiddenIsAbsent` is a simulation between the table and the table with everything hidden
erased; `UserRoleEffects` says which rows each call touches and what every run keeps, whoever calls, and
`UserRoleAnswers` which error each refusal gets.

**API keys** (`ApiKeyFormat`, `ApiKeyAuth`, `ApiKeyStaleness`). A print/parse pair down to the bytes, the cached
lookup, the revocation, and every interleaving of the two.

**Logs** (`Logs`, `LogContext`). Keyset pagination against the one sorted list, and the window around an entry.

`Collections` and `Arithmetic` hold what the others share: filtering, stable sorting, and facts about quotients.

## Where the code falls short of its own words

- The comment at `internal/app/edge_devices/service.go:421` says that writing the database before deleting the cache
  entry keeps the old credential from being cached again. A lookup that read before the revocation may still fill the
  cache after the delete, and a later request gets in: `StaleAfterRevoke` gives the interleaving, for any usable key.
  `NeverCachedAgainIff` gives the exact condition: no request that read the database, and has yet to fill the cache,
  holds a usable credential of the key. Then only requests already in flight can get in (`OnlyOldRequestsGetIn`); with
  lookups that are atomic the condition always holds (`AtomicLookupsNeverRefill`). `StaleOnlyBefore` is the bound in
  time that holds in every interleaving, `RevocationIsFinalIff` the condition for no acceptance at all.
- An ordinary caller's listings hide platform identities only as long as these own no row that is shown:
  `ListingsHideIff`. A caller who sees global roles breaks this by giving a platform identity any other role
  (`GlobalCallerExposes`); ordinary callers cannot (`HiddenIsAbsent` proves that they keep it).
- The `total` of a page of logs is what is left from the cursor on, not the size of the list: `TotalIsWhatIsLeft`.
- A switch of status reaches every row of the pair that is not pending, so it fails whole when two of them would become
  active: `SwitchTouchesPair` gives the exact condition, and `ActivationFails` a run that meets it: a user who was
  revoked, assigned again and suspended cannot be activated.
- BulkCreate looks up a conflict outside its transaction, so it may call a user unknown whom the caller knows, also a
  caller who sees everything. `KnownUserCalledUnknownIff` gives the exact condition, for batches of any length: the role
  may be assigned, and the first refused row clashes with an earlier row of the batch and with none of the table.
  `RepeatedUserIsCalledUnknown` is an instance.

## Model

| member | source | states |
|---|---|---|
| `IngestDomain.EnvelopeVerdict` | internal/app/ingest/validate.go:73-155 | an event is admitted if and only if its envelope is well formed and names the machine of the key; a rejection's code says which of the two failed, in whatever order the checks run; kind and version never reject |
| `IngestDomain.AdmittedDocument` | internal/app/ingest/validate.go:73-155 | a stored document has the event's own id, time, sequence number (none if absent), kind, version and payload, the key's tenant, device and machine, and the time of arrival; skew is flagged exactly for an unknown kind or a newer version |
| `IngestDomain.RejectionIsTrue` | internal/app/ingest/validate.go:73-146 | the message of a rejection is true of the event: the field it names is missing, the type it names is wrong, or the machine is another |
| `IngestDomain.RejectionIsTerminal` | internal/domain/ingest/measurement.go:7-30 | a rejected envelope always gets a code that is terminal for the Edge |
| `MeasurementStore.InsertKeepsIndex` | internal/repo/mongo/measurements/repository.go:66-95 | an unordered insert only appends, never holds (tenantId, eventId) twice, and afterwards holds the key of every document it calls stored or duplicated, whatever others store meanwhile |
| `MeasurementStore.GrowthIsStored` | internal/repo/mongo/measurements/repository.go:129-207 | the collection grows by exactly one document for each position stored, and by what others store meanwhile |
| `MeasurementStore.FateByCause` | internal/repo/mongo/measurements/repository.go:66-95 | a document is a duplicate if and only if the server tried it and the collection it found held its (tenantId, eventId); stored if and only if it did not; refused if and only if the server says so |
| `MeasurementStore.InsertAddsOnlySent` | internal/repo/mongo/measurements/repository.go:174-184 | every document was there before, is one of those sent, or came from another request |
| `MeasurementStore.CompactFates` | internal/repo/mongo/measurements/repository.go:147-172 | leaving out documents that cannot be encoded changes no other document's fate |
| `MeasurementsRepository.Collection.InsertMany` | internal/repo/mongo/measurements/repository.go:174-184 | ordered:false: every document is tried; the reply lists exactly the refused ones, by position in what was sent |
| `MeasurementsRepository.Repository.InsertMany` | internal/repo/mongo/measurements/repository.go:129-207 | the report says of every document what became of it; fails whole if and only if something was sent and the reply was lost or reports a write concern error |
| `MeasurementsRepository.Repository.EncodeAll` | internal/repo/mongo/measurements/repository.go:154-172 | `sent` maps what was encoded back to its place, `invalid` holds exactly the rest with its error |
| `MeasurementsRepository.Repository.SplitErrors` | internal/repo/mongo/measurements/repository.go:186-199 | write errors are split by code, each mapped through `sent`; out-of-range indices are ignored |
| `MeasurementsRepository.TranslatedReport` | internal/repo/mongo/measurements/repository.go:186-207 | the mapped errors are the fates of the documents handed in: none lost, none swapped |
| `MeasurementsRepository.InsertedIsGrowth` | internal/domain/ingest/repository.go:29-55 | the three parts of a report are disjoint and in range, and Inserted is the growth of the collection besides what others store, also with a key repeated inside the batch |
| `IngestService.Service.IngestBatch` | internal/app/ingest/service.go:60-176 | stores and answers exactly what the one-pass reference says, event by event; every document it adds carries the fields of one of its events, unless others stored it; an error only when the write failed whole |
| `IngestService.Service.ValidateAll` | internal/app/ingest/service.go:63-94 | `valid` are the admitted events and `origIndex` their positions; one error for each other event |
| `IngestService.Service.ReportErrors` | internal/app/ingest/service.go:122-161 | one entry for each document not stored, at its original index, duplicates first, then invalid, then failed |
| `IngestService.ErrorsAtOriginalIndices` | internal/app/ingest/service.go:63-94 | errors[] is strictly increasing in index; it has an entry at i exactly when one is due to event i, and it is that one |
| `IngestService.AcceptedIsGrowth` | internal/app/ingest/service.go:164-175 | the store grows by exactly Accepted, besides what others store meanwhile, and Accepted plus Rejected is the batch |
| `IngestService.StoredCarries` | internal/app/ingest/service.go:63-121 | after a batch every document was there before, came from another request, or has the fields of one of the events |
| `IngestService.StoredIsThere` | internal/app/ingest/service.go:63-121 | an event that is called stored is in the collection, with all its fields |
| `IngestService.EntryByCause` | internal/app/ingest/service.go:63-161 | each of the four codes is given to event i if and only if its cause holds of event i, and no entry if and only if it was stored |
| `IngestService.ErrorsSort` | internal/app/ingest/service.go:162-164 | sorting the errors as collected gives the errors in order of the original events |
| `EdgeProtocol.Serve` | internal/app/ingest/service.go:60-176 | the answer the protocol speaks of is the one the service gives |
| `EdgeProtocol.EveryFlightIsACall` | internal/app/ingest/service.go:60-176 | over every run, however requests interleave, what a request has done is what one call of the service does with the same server and the same company |
| `EdgeProtocol.AnswerIsTheServices` | internal/app/ingest/service.go:60-176 | so a complete request answers what the service answers |
| `EdgeProtocol.EveryRunIsSafe` | internal/domain/ingest/measurement.go:7-30 | over every run, with requests interleaved, delayed and repeated: acknowledged only if the event's own key is stored, no key stored twice, killed only because its envelope, machine or encoding was bad when it was served, never for storage |
| `EdgeProtocol.EveryRunIsAccounted` | internal/app/ingest/service.go:52-60 | over every run: no event disappears from outbox, acknowledged and dead; nothing is stored that no Edge of that tenant sent |
| `EdgeProtocol.ReactionIsFate` | internal/domain/ingest/measurement.go:7-30 | what the Edge does with the event at position k is decided by that event's own fate |
| `EdgeProtocol.CleanSendDrains` | internal/app/ingest/service.go:60-176 | a request without faults leaves nothing of its batch in the outbox, whatever other requests do meanwhile |
| `RateLimit.RateLimiter.Ingest` | internal/consumers/ratelimit.go:65-73 | the limiter's rate is positive and its burst at least one, with the defaults 200 and 1000 |
| `RateLimit.RateLimiter.Dashboard` | internal/api/middleware/dashboard_ratelimit.go:72-80 | the same with a fractional rate, defaults 15 a minute and 5 |
| `RateLimit.RateLimiter.Allow` | internal/consumers/ratelimit.go:18-96 | one call rewrites the key as the script does and nothing else |
| `RateLimit.ServeClient` | internal/consumers/ratelimit.go:75-96 | a client served call by call gets the replies of one run of the script on one bucket, whether or not Redis drops the key meanwhile; other keys stay |
| `RateLimit.StretchBound` | internal/consumers/ratelimit.go:24-41 | any stretch of calls after any history is granted at most burst plus rate times the clock's forward moves, even if the clock steps back |
| `RateLimit.WindowBound` | internal/consumers/ratelimit.go:24-41 | with a clock that never steps back, a window lets through at most burst plus rate times its length |
| `RateLimit.FreshKeyGrants` | internal/consumers/ratelimit.go:24-39 | a fresh key grants every call as long as no more than burst has been asked for, whatever the clock does |
| `RateLimit.RefusalIsEarned` | internal/consumers/ratelimit.go:24-39 | with a clock that never steps back, a call is refused only if some stretch of calls ending with it was handed more than burst plus rate times its length, less what the call asks for |
| `RateLimit.RunStaysSane` | internal/consumers/ratelimit.go:24-42 | tokens stay between zero and burst over every run |
| `RateLimit.ExpiryIsInvisible` | internal/consumers/ratelimit.go:27-42 | dropping idle keys after their PEXPIRE time changes no reply |
| `RateLimit.KeyOutlivesFill` | internal/consumers/ratelimit.go:41-42 | a key lives one second longer than an empty bucket takes to fill, to the millisecond |
| `RateLimit.RetryAfterIsExact` | internal/consumers/ratelimit.go:32-50 | a refused client that waits retry_after is let in, one second less would not do when it is more than one, and the key is still there |
| `UserRoleRepository.Repository.CreateRow` | internal/repo/pg/user_roles/repository.go:207-243 | the checks, the insert and the error mapping are `Create` |
| `UserRoleRepository.Repository.BulkCreateRows` | internal/repo/pg/user_roles/repository.go:284-338 | the loop in a transaction is `BulkCreate` |
| `UserRoleRepository.Repository.UpdateRows` | internal/repo/pg/user_roles/resources.go:123-166 | an UPDATE, row by row, changes exactly the rows it selects and returns them in order, or stops whole at a row the trigger does not admit |
| `UserRoleRepository.Repository.UpdateRole` | internal/repo/pg/user_roles/repository.go:245-271 | the guarded update, row by row, is `Update` |
| `UserRoleRepository.Repository.RevokeRow` | internal/repo/pg/user_roles/repository.go:273-282 | the guarded revocation is `Revoke` |
| `UserRoleRepository.Repository.SwitchStatus` | internal/repo/pg/user_roles/repository.go:412-431 | the switch of all rows of a pair, or none, is `UpdateStatus` |
| `UserRoleCloaking.HiddenIsAbsent` | internal/repo/pg/user_roles/repository.go:55-338 | for every sequence of ordinary calls the replies are those of the table with hidden rows, roles and identities erased; erasing commutes with every step; the invariant is kept |
| `UserRoleCloaking.CallHides` | internal/repo/pg/user_roles/resources.go:82-197 | the same for one call of each kind |
| `UserRoleCloaking.CreateHides` | internal/repo/pg/user_roles/repository.go:207-243 | creating for a hidden user answers as for a user that does not exist, down to the error |
| `UserRoleCloaking.BulkCreateHides` | internal/repo/pg/user_roles/repository.go:284-338 | the same for a batch, whose conflicts are looked up outside its transaction |
| `UserRoleCloaking.InsertHides` | internal/repo/pg/user_roles/repository.go:172-243 | the guard, the index and the foreign keys give the same reply on both tables |
| `UserRoleCloaking.UpdateHides` | internal/repo/pg/user_roles/resources.go:123-138 | a change of role commutes with erasing |
| `UserRoleCloaking.RevokeHides` | internal/repo/pg/user_roles/resources.go:144-150 | a revocation commutes with erasing |
| `UserRoleCloaking.UpdateStatusHides` | internal/repo/pg/user_roles/resources.go:156-162 | a switch of status commutes with erasing, and fails on both tables or on neither |
| `UserRoleCloaking.ConflictIsShown` | internal/repo/pg/user_roles/resources.go:156-162 | an ordinary switch cannot run into a hidden active row |
| `UserRoleCloaking.ListingsHideIff` | internal/repo/pg/user_roles/resources.go:22-56 | listings are those of the erased table if and only if no platform identity owns a shown row |
| `UserRoleEffects.EveryRunKeepsTable` | internal/repo/pg/user_roles/repository.go:123-338 | whoever calls, in whatever order: at most one active row per user and tenant, no dangling row, no tenant with a role it may not use |
| `UserRoleEffects.OrdinaryRunsLeaveHidden` | internal/repo/pg/user_roles/resources.go:82-162 | ordinary callers leave the rows of global roles exactly as they are and add none |
| `UserRoleEffects.CreateSucceedsIff` | internal/repo/pg/user_roles/repository.go:123-243 | when exactly a row is created; otherwise nothing changes |
| `UserRoleEffects.BulkIsAllOrNothing` | internal/repo/pg/user_roles/repository.go:284-338 | a batch goes in exactly when its rows would go in one at a time, with that outcome; otherwise nothing changes |
| `UserRoleEffects.UpdateTouchesOne` | internal/repo/pg/user_roles/resources.go:123-138 | which one row a change of role touches, in which fields, and when it does not |
| `UserRoleEffects.RevokeTouchesOne` | internal/repo/pg/user_roles/resources.go:144-150 | which one row a revocation touches, and when it does not |
| `UserRoleEffects.RevokeFreesThePlace` | internal/repo/pg/user_roles/resources.go:144-150 | after the active row is revoked the user has no active row in the tenant, and can be assigned there again by whoever may assign the role |
| `UserRoleEffects.SwitchTouchesPair` | internal/repo/pg/user_roles/resources.go:156-162 | a switch of status fails whole if and only if two rows of the pair would be active; it finds no assignment if and only if it reaches no row; otherwise it touches exactly the rows of the pair that are not pending and answers with one of them |
| `UserRoleEffects.GlobalCallerExposes` | internal/repo/pg/user_roles/resources.go:82-95 | a caller who sees global roles breaks the hiding of a platform identity by giving it any other role, and listings then differ |
| `UserRoleEffects.ActivationFails` | internal/repo/pg/user_roles/resources.go:156-162 | a user who was revoked, assigned again and suspended cannot be activated |
| `UserRoleEffects.BatchAnswers` | internal/repo/pg/user_roles/repository.go:284-338 | the answer to a batch is that of its first refused row, looked up in the committed table, or all its rows |
| `UserRoleEffects.KnownUserCalledUnknownIff` | internal/repo/pg/user_roles/repository.go:295-331 | a batch of any length calls unknown a user the caller knows if and only if its role may be assigned and its first refused row clashes with an earlier row of the batch and with none of the table |
| `UserRoleEffects.RepeatedUserIsCalledUnknown` | internal/repo/pg/user_roles/repository.go:314-319 | an instance: two active rows of one user, the first acceptable alone |
| `UserRoleEffects.TenantListIsExact` | internal/repo/pg/user_roles/resources.go:22-56 | a tenant's list has exactly the rows the caller may see, of known users and the status asked for, each as often as the table, newest first, with the role's name and the user's profile |
| `UserRoleEffects.UserListIsExact` | internal/repo/pg/user_roles/resources.go:172-182 | a user's list has exactly the memberships the caller may see, of its own tenant or of all, each as often as the table, newest first, with the names of tenant and role |
| `UserRoleEffects.IdFindsTheRow` | internal/repo/pg/user_roles/resources.go:101-107 | a look-up by id finds the one row with it, or nothing if it is hidden from the caller |
| `UserRoleAnswers.CreateAnswers` | internal/repo/pg/user_roles/repository.go:123-243 | each of the five errors of a creation if and only if its cause holds of the table's fields: role absent, deleted, foreign or hidden; role reserved; user hidden or absent, or conflict hidden; conflict visible; tenant absent |
| `UserRoleAnswers.HiddenConflictHidesUser` | internal/repo/pg/user_roles/repository.go:172-182 | whoever has a conflict that the caller may not see is a user that the caller may not see |
| `UserRoleAnswers.BulkAnswers` | internal/repo/pg/user_roles/repository.go:284-338 | each error of a batch if and only if its cause holds: of its role, or of the row it stops at, with that row's user; a conflict within the batch is answered as an unknown user |
| `UserRoleAnswers.UpdateAnswers` | internal/repo/pg/user_roles/repository.go:245-271 | each answer to a change of role if and only if its cause holds: role unknown to the caller; reserved in the caller's tenant or in that of the row it reaches; no row reached |
| `ApiKeyFormat.HexRoundTrip` | internal/domain/apikeys/keygen.go:37-44 | hexadecimal text decodes to the bytes it was made from (section 8 of RFC 4648) |
| `ApiKeyFormat.Base64RoundTrip` | internal/domain/apikeys/keygen.go:46-50 | unpadded base64url text decodes to the bytes it was made from (section 5 of RFC 4648) |
| `ApiKeyFormat.Alphabets` | internal/domain/apikeys/keygen.go:37-50 | every digit of both encodings is where RFC 4648 puts it (sections 8, in lower case, and 5) |
| `ApiKeyFormat.HexVectors` | internal/domain/apikeys/keygen.go:37-44 | test vectors of section 10 of RFC 4648 |
| `ApiKeyFormat.Base64Vectors` | internal/domain/apikeys/keygen.go:46-50 | test vectors of the same section, unpadded, and one for the URL alphabet |
| `ApiKeyFormat.ParseIsExact` | internal/domain/apikeys/keygen.go:55-75 | Parse accepts exactly prefix, twelve hexadecimal characters, separator and a secret that is not empty, and what it finds prints back to the text |
| `ApiKeyFormat.ParseUndoesGenerate` | internal/domain/apikeys/keygen.go:37-75 | Parse undoes Generate for all random bytes, also when the secret contains the separator, and the secret has the stored digest |
| `ApiKeyAuth.Keys.Lookup` | internal/security/apikeys_authenticator.go:110-135 | a live cache entry wins; otherwise the database, and only a hit is cached |
| `ApiKeyAuth.Keys.Authenticate` | internal/security/apikeys_authenticator.go:58-105 | who gets in: a well-formed key whose looked-up credential has the secret's digest and is unrevoked, unexpired, with an active device; every other key is refused |
| `ApiKeyAuth.Keys.RevokeAPIKey` | internal/app/edge_devices/service.go:424-450 | the key of that device is revoked in the database, then its own cache entry goes; otherwise nothing changes |
| `ApiKeyStaleness.StepsOfLookup` | internal/security/apikeys_authenticator.go:110-135 | the machine's read and fill steps, taken together, are `Keys.Lookup` |
| `ApiKeyStaleness.StepOfDecide` | internal/security/apikeys_authenticator.go:70-100 | the machine accepts a credential exactly when its digest is the key's, it is unrevoked, its device is active, and it has no expiry or one still to come |
| `ApiKeyStaleness.StepsOfRevoke` | internal/app/edge_devices/service.go:438-444 | the machine's revoke and delete steps are those of `Keys.RevokeAPIKey` |
| `ApiKeyStaleness.StepOfDevice` | internal/app/edge_devices/service.go:132-163 | switching a device on or off reaches the credentials of that device and of no other |
| `ApiKeyStaleness.EveryAcceptanceIsJustified` | internal/security/apikeys_authenticator.go:58-135 | in every interleaving an accepted key was unrevoked with an active device in the database at the time of the read behind it, its cache entry was younger than the time to live, and it had not expired |
| `ApiKeyStaleness.StaleOnlyBefore` | internal/security/apikeys_authenticator.go:110-135 | whatever is accepted was read no later than the revocation; a cache hit is accepted before the revocation plus the time to live and the delays from read to fill and from hit to decision |
| `ApiKeyStaleness.NeverCachedAgainIff` | internal/app/edge_devices/service.go:419-450 | after a finished revocation no run caches a usable credential of the key again if and only if no request that read the database and has yet to fill the cache holds one |
| `ApiKeyStaleness.OnlyOldRequestsGetIn` | internal/app/edge_devices/service.go:419-450 | then only requests that were in flight can still be accepted |
| `ApiKeyStaleness.AtomicLookupsNeverRefill` | internal/security/apikeys_authenticator.go:110-135 | with atomic lookups a finished revocation is never undone by the cache |
| `ApiKeyStaleness.RevocationIsFinalIff` | internal/app/edge_devices/service.go:419-450 | after a finished revocation no run accepts the key again if and only if no request in flight, however it got its credential, holds a usable one |
| `ApiKeyStaleness.LaterRequestGetsIn` | internal/security/apikeys_authenticator.go:110-135 | a request that has yet to fill the cache lets a later one in |
| `ApiKeyStaleness.StaleAfterRevoke` | internal/app/edge_devices/service.go:419-424 | an interleaving in which a revoked key is accepted after the revocation has finished |
| `MetricsDomain.AcceptedIff` | internal/domain/metrics/validate.go:21-113 | a query is accepted in a mode if and only if it is acceptable, asks for that mode alone, and its window has no more buckets than the limit, in whatever order the checks run |
| `MetricsDomain.RefusedBecause` | internal/domain/metrics/validate.go:21-113 | each code of a refusal if and only if its cause holds, also when several things are wrong |
| `MetricsDomain.SameGrid` | internal/repo/mongo/metrics/repository.go:295-327 | dateTruncUnit and duration support the same buckets and describe the same grid |
| `MetricsDomain.TowardZero` | internal/domain/metrics/validate.go:106-113 | the quotient that counts buckets truncates toward zero: the remainder has the sign of the dividend |
| `MetricsDomain.SixGrids` | internal/domain/metrics/metrics.go:42-60 | the six grids start at 60 seconds, each 5, 3, 4, 6 and 4 times as coarse as the one before, and each bucket lies in one bucket of the next |
| `MetricsDomain.TouchedIsExpected` | internal/domain/metrics/validate.go:106-113 | a window touches as many buckets as the limit counts, or one more: exactly when which |
| `MetricsRepository.RunSeriesPipeline` | internal/repo/mongo/metrics/repository.go:366-399 | one pass over the rows gives the points and the newest sample, not the newest bucket |
| `MetricsRepository.KeysExactly` | internal/repo/mongo/metrics/repository.go:333-343 | a group stage has each key of its documents once and no other |
| `MetricsRepository.BucketsAddUp` | internal/repo/mongo/metrics/repository.go:314-364 | the totals of the buckets add up to the total of the documents |
| `MetricsAgreement.SampleCountsAgree` | internal/repo/mongo/metrics/repository.go:116-364 | the sample counts of a series add up to the scalar's, for every aggregation |
| `MetricsAgreement.CountsAndSumsAgree` | internal/repo/mongo/metrics/repository.go:116-364 | counts and sums of a series add up to the scalar's |
| `MetricsAgreement.AveragesAgree` | internal/repo/mongo/metrics/repository.go:116-364 | bucket averages weighted by their sample counts give the scalar average |
| `MetricsAgreement.ExtremesAgree` | internal/repo/mongo/metrics/repository.go:116-364 | the least (greatest) bucket value is the scalar minimum (maximum) |
| `MetricsAgreement.FreshnessAgrees` | internal/repo/mongo/metrics/repository.go:116-399 | a series is exactly as fresh as the scalar |
| `MetricsAgreement.EndsOfWindow` | internal/repo/mongo/metrics/repository.go:195-261 | `last` is the number of a newest document of the window, `delta` that less the number of an oldest |
| `MetricsMeaning.SamplesCountEach` | internal/repo/mongo/metrics/repository.go:70-76 | one document more, anywhere, is one sample more if and only if it matches and is a number, or matches and is counted |
| `MetricsMeaning.SumAddsEach` | internal/repo/mongo/metrics/repository.go:116-160 | nothing sums to zero; one document more raises the sum by exactly its number if it matches, and leaves it alone otherwise |
| `MetricsMeaning.CountIsItsSamples` | internal/repo/mongo/metrics/repository.go:263-290 | a count is the number of its samples |
| `MetricsMeaning.AverageSharesTheSum` | internal/repo/mongo/metrics/repository.go:78-160 | an average times its samples is the sum of the same samples |
| `MetricsMeaning.OneNumber` | internal/repo/mongo/metrics/repository.go:116-160 | with one matching number the sum and the average are that number |
| `MetricsMeaning.OrderDoesNotMatter` | internal/repo/mongo/metrics/repository.go:116-160 | sum and samples depend on the documents, not on their order |
| `MetricsMeaning.ExtremesOfNumbers` | internal/repo/mongo/metrics/repository.go:116-160 | the minimum (maximum) is the number of a match, and no match has a smaller (greater) one |
| `MetricsMeaning.EndsOfNumbers` | internal/repo/mongo/metrics/repository.go:195-261 | `last` is the number of a newest match, `delta` that less the number of an oldest |
| `MetricsMeaning.FreshnessIsNewest` | internal/repo/mongo/metrics/repository.go:116-160 | freshness is the time of the newest document looked at, and absent if there is none |
| `MetricsMeaning.PointIsScalar` | internal/repo/mongo/metrics/repository.go:314-399 | a point of a series is the scalar of the window clipped to its bucket |
| `MetricsMeaning.EveryDocHasAPoint` | internal/repo/mongo/metrics/repository.go:314-399 | every document looked at lies in the bucket of a point |
| `MetricsMeaning.GroupIsScalar` | internal/repo/mongo/metrics/repository.go:508-575 | value and freshness of a group are those of the scalar of the documents with its key |
| `MetricsAgreement.SeriesSize` | internal/repo/mongo/metrics/repository.go:314-399 | a series has at most one point for each touched bucket, and all of them when every bucket has data |
| `MetricsAgreement.SeriesOnGrid` | internal/repo/mongo/metrics/repository.go:366-399 | the points of a series ascend strictly and start buckets that the window touches |
| `MetricsAgreement.AcceptedSeriesFits` | internal/domain/metrics/validate.go:76-113 | an accepted series has at most MaxBuckets points, or one more if the window does not start on the grid |
| `Decimation.DecimateUniform` | internal/repo/mongo/metrics/repository.go:464-496 | for every number of points and every maximum: all, the last, or exactly `maxPoints` points at evenly spaced positions from the first to the last |
| `Decimation.DecimationThins` | internal/repo/mongo/metrics/repository.go:464-496 | the indices ascend strictly from the first point to the last, with exact numbers for any size, and for up to 2^24 points with any rounding that is within a relative 2^-52 on the values that occur |
| `Decimation.DecimationIsEven` | internal/repo/mongo/metrics/repository.go:464-496 | position i is above i * (n - 1) / (max - 1) - 1 and not above i * (n - 1) / (max - 1), up to a slack of 2^-26 that exact numbers do not need |
| `Decimation.ExactIsFloor` | internal/repo/mongo/metrics/repository.go:464-496 | with exact numbers position i is the whole part of its share, and two steps differ by at most one |
| `SeriesMerge.MergeSeries` | internal/app/dashboards/service.go:111-133 | one point per timestamp of the inputs, strictly ascending, with the results of that timestamp in spec order |
| `SeriesMerge.MergeIsStableSort` | internal/app/dashboards/service.go:107-133 | the merged series is the stable sort of all the points by timestamp: nothing lost, nothing added, order kept |
| `SeriesMerge.OneResultEach` | internal/app/dashboards/service.go:107-133 | a point has one result for each metric that has its bucket: no filler |
| `SeriesMerge.PointIsMerged` | internal/app/dashboards/service.go:111-133 | every point of every metric is in the merged series at its own time, with its own value and sample count, under the path and aggregation of its metric |
| `Dashboards.MaxDataAsOf` | internal/app/dashboards/service.go:176-187 | the newest of the times that are there |
| `Dashboards.Raw` | internal/repo/mongo/metrics/repository.go:408-457 | the first `limit` matches in time order, thinned only when the window was fetched whole |
| `Dashboards.QueryRaw` | internal/app/dashboards/service.go:135-155 | refused if and only if the matches are more than MaxRawPoints; otherwise all of them in time order, or exactly maxPoints of them, evenly spaced, with both ends; freshness is that of the whole window |
| `Dashboards.QueryGrouped` | internal/app/dashboards/service.go:157-174 | refused if and only if the keys are more than MaxGroups; otherwise one group per key, printed, with its value, greatest first, and the freshness of the whole window |
| `Dashboards.QueryScalar` | internal/app/dashboards/service.go:54-78 | slot i is the scalar of metric i; freshness is the newest of the metrics |
| `Dashboards.QuerySeries` | internal/app/dashboards/service.go:80-105 | the merge of the series of every metric; freshness is the newest of the metrics |
| `Dashboards.AcceptedIsSupported` | internal/domain/metrics/validate.go:21-104 | every accepted query asks of the repository, in its mode, only what it supports |
| `Dashboards.MergedSeriesFits` | internal/domain/metrics/validate.go:106-113 | the merged series of an accepted query has at most MaxBuckets points, or one more, for any number of metrics |
| `Dashboards.Query` | internal/app/dashboards/service.go:30-52 | a query is answered in its mode or refused with a code; "agg no soportado" and "bucket no soportado" are unreachable |
| `Dashboards.QueryLooksAt` | internal/repo/mongo/metrics/repository.go:32-58 | a query looks at the tenant's documents of its machine and metric path, from the first instant of the window to the last, with the value asked for if any |
| `Dashboards.RawPointsAre` | internal/repo/mongo/metrics/repository.go:408-457 | the points of a raw window are the times and values of its matches and no other |
| `Dashboards.GroupsAreScalars` | internal/repo/mongo/metrics/repository.go:508-575 | the value of each group of an answer is the scalar of the documents with its key |
| `Logs.WalkReturnsEverything` | internal/app/logs/service.go:38-55 | following the cursor gives every matching entry once, newest first, in exactly n / limit + 1 calls, whatever arrives above the cursor meanwhile |
| `Logs.PageIsExact` | internal/repo/pg/logs/repository.go:105-157 | a page is the newest of the rows below the cursor, `createdAt` never increasing and ids breaking ties, as many as asked for between 1 and 100 and else 50, with their total and the key of the last one if the page is full |
| `Logs.RowsAre` | internal/repo/pg/logs/repository.go:300-336 | the rows are exactly the entries of the table that meet every filter and lie below the cursor |
| `Logs.AnyCursor` | internal/repo/pg/logs/repository.go:105-157 | the answer to any cursor, also a made-up one, is the part of the one sorted list below it |
| `Logs.RowsAfter` | internal/repo/pg/logs/repository.go:113-122 | below the last entry of a page lies exactly the rest of the list |
| `Logs.ArrivalsInvisible` | internal/repo/pg/logs/repository.go:113-122 | entries that arrive above the cursor do not change the pages below it |
| `Logs.TotalIsWhatIsLeft` | internal/repo/pg/logs/repository.go:124-134 | the total of page k is the size of the list less the pages before it |
| `LogContext.Reverse` | internal/repo/pg/logs/repository.go:199-202 | swapping from both ends reverses the slice |
| `LogContext.GetContext` | internal/repo/pg/logs/repository.go:176-223 | not found if and only if the tenant has no such entry; otherwise the stretch of the tenant's log around it, without gaps, in time order, up to the window size on each side, which is 10 unless between 1 and 50 is asked for |
| `LogContext.WindowAround` | internal/app/logs/service.go:63-68 | the two limited queries, one of them reversed, are adjacent slices of the log |
| `LogContext.ChronicleIsTheLog` | internal/repo/pg/logs/repository.go:184-222 | the log of a tenant is exactly its entries, oldest first, ids breaking ties |

## Left out

- `SeriesMerge.MergeSeries`: timestamps are numbers; Go's `time.Time` map keys also compare locations, which are all UTC here.
- `Dashboards.QueryGrouped`: groups of equal value come in a fixed order, while `$sort` may return them in any; how a key is printed is an input; a field that is null counts as absent.
- `Dashboards.Raw`: points of equal `ts` come in the order they were stored, while `$sort` may return them in any.
- `MetricsAgreement.CountsAndSumsAgree`: sums are exact reals; doubles added in another order may differ in the last places.
- `MetricsAgreement.AveragesAgree`: averages are exact reals, for the same reason.
- `Dashboards.Query`: MaxGroups is not negative, as `$limit` needs a positive number, and numbers are precise enough to thin MaxRawPoints points.
- `UserRoleCloaking.HiddenIsAbsent`: rows created at the same instant are listed in table order, which SQL leaves open; of a user's profile only the address is kept.
- `RateLimit.RateLimiter.Allow`: does not model Redis failures and unreadable replies, which let the request through, nor Lua's rounding of numbers to text.
- `ApiKeyAuth.Keys.Authenticate`: does not model a failing database, which is an error of its own and not a refusal.
- `ApiKeyAuth.Keys.RevokeAPIKey`: the list of the device's keys is an input, equal to what the database holds.
- `Decimation.DecimationThins`: it says nothing of rounded numbers beyond 2^24 points.
- `Logs.WalkReturnsEverything`: cursors are decoded values; base64 and JSON are library code. Deletions during a walk are not covered.
- `ApiKeyStaleness.StaleOnlyBefore`: the database, the cache and the service read one clock.
- `UserRoleEffects.EveryRunKeepsTable`: roles, users and tenants do not change during a run; ids passed in are fresh.
- `UserRoleCloaking.BulkCreateHides`: a batch sends one tenant and one role, as its only caller does.
- Wording of error messages: messages are names, except what storage itself says.
- JSON, BSON, regular expressions and text search: decoded values and tests are inputs; whether a document can be encoded is an arbitrary function of the document.
- The millisecond rounding of times sent to Mongo, and `valueEquals` against array fields.
- Write errors with an index out of range: ignored by the code, assumed not to happen; write errors come in order of the documents.
- Database isolation and locks: log and user-role calls run one at a time; key lookups and the ingest protocol interleave.
- The assigned_by foreign key, and the order in which Postgres checks foreign keys.
- Version-skew metrics, discard counters, last_seen and last_used touches: no effect on replies.
- Query timeouts, Catalog, Batch and ResolveWindow of the dashboards: a window is given with from before to.
- Log writing, export, retention and subscriptions; invitations; roles, tenants and permissions as such; HTTP, configuration and telemetry: plumbing, or easy members.
