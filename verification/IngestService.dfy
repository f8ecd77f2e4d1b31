/** IngestBatch: validate, persist, and answer with one error per event that was not stored. */
module IngestService {
  import opened Collections
  import opened IngestDomain
  import opened MeasurementStore
  import opened MeasurementsRepository

  // ------------------------------------------------------------- the reference: one event at a time

  /** What each event sends to the collection: its document, if it is admitted and can be encoded. */
  function ItemOf(e: RawEvent, dev: DeviceContext, now: int, encodeError: Measurement -> Option<string>)
    : Option<Measurement>
  {
    match ValidateEvent(e, dev, now)
    case Rejected(_, _) => None
    case Admitted(doc, _) => if encodeError(doc).None? then Some(doc) else None
  }

  function ItemsOf(events: seq<RawEvent>, dev: DeviceContext, now: int, encodeError: Measurement -> Option<string>)
    : (items: seq<Option<Measurement>>)
    ensures |items| == |events|
  {
    seq(|events|, i requires 0 <= i < |events| => ItemOf(events[i], dev, now, encodeError))
  }

  /** The entry, if any, that the fate of an admitted event adds to errors[]. */
  function FateError(i: nat, fate: Fate): seq<EventError> {
    match fate
    case Stored => []
    case AlreadyThere => [EventError(i, Duplicate, AlreadyIngested)]
    case NotSent => [EventError(i, InvalidSchema, NotSerializable)]
    case Faulted(message) => [EventError(i, StorageUnavailable, Storage(message))]
  }

  /** The entry due to the event at position i. */
  function ErrorOf(i: nat, e: RawEvent, dev: DeviceContext, now: int, fate: Fate): seq<EventError> {
    match ValidateEvent(e, dev, now)
    case Rejected(code, message) => [EventError(i, code, message)]
    case Admitted(_, _) => FateError(i, fate)
  }

  function DueParts(events: seq<RawEvent>, dev: DeviceContext, now: int, fates: seq<Fate>): (r: seq<seq<EventError>>)
    requires |events| == |fates|
    ensures |r| == |events|
  {
    seq(|events|, i requires 0 <= i < |events| => ErrorOf(i, events[i], dev, now, fates[i]))
  }

  /** errors[] for the first n events. */
  function ErrorsDue(events: seq<RawEvent>, dev: DeviceContext, now: int, fates: seq<Fate>, n: nat): seq<EventError>
    requires n <= |events| == |fates|
  {
    Concat(DueParts(events, dev, now, fates), n)
  }

  function ResultDue(events: seq<RawEvent>, dev: DeviceContext, now: int, fates: seq<Fate>): IngestResult
    requires |events| == |fates|
  {
    var errors := ErrorsDue(events, dev, now, fates, |events|);
    IngestResult(|events| - |errors|, |errors|, errors)
  }

  // ------------------------------------------------------------- what the reference promises

  /** errors[] is strictly increasing in index; it has an entry at i exactly when something is due to event i, and
      then it is that entry. */
  lemma ErrorsAtOriginalIndices(events: seq<RawEvent>, dev: DeviceContext, now: int, fates: seq<Fate>, n: nat)
    requires n <= |events| == |fates|
    ensures var errors := ErrorsDue(events, dev, now, fates, n);
      && (forall k, l :: 0 <= k < l < |errors| ==> errors[k].index < errors[l].index)
      && (forall k :: 0 <= k < |errors| ==>
            && errors[k].index < n
            && ErrorOf(errors[k].index, events[errors[k].index], dev, now, fates[errors[k].index]) == [errors[k]])
      && (forall i :: 0 <= i < n && ErrorOf(i, events[i], dev, now, fates[i]) != [] ==>
            ErrorOf(i, events[i], dev, now, fates[i])[0] in errors)
  {
    var parts := DueParts(events, dev, now, fates);
    ConcatByPosition(parts, (e: EventError) => e.index, n);
    forall i | 0 <= i < n && ErrorOf(i, events[i], dev, now, fates[i]) != []
      ensures ErrorOf(i, events[i], dev, now, fates[i])[0] in ErrorsDue(events, dev, now, fates, n)
    {
      assert parts[i] != [];
    }
  }

  /** Every batch that does not fail stores exactly Accepted documents, besides what other requests store meanwhile;
      also with keys repeated inside the batch. */
  lemma AcceptedIsGrowth(docs: seq<Measurement>, events: seq<RawEvent>, dev: DeviceContext, now: int,
                         encodeError: Measurement -> Option<string>, plan: ServerPlan)
    ensures var items := ItemsOf(events, dev, now, encodeError);
            var result := ResultDue(events, dev, now, Fates(docs, items, plan));
      && |DocsAfter(docs, items, plan, |events|)| == |docs| + result.accepted + Arrived(items, plan, |events|)
      && (plan.others == map[] ==> |DocsAfter(docs, items, plan, |events|)| == |docs| + result.accepted)
      && result.accepted + result.rejected == |events|
      && 0 <= result.accepted
  {
    var items := ItemsOf(events, dev, now, encodeError);
    var fates := Fates(docs, items, plan);
    GrowthIsStored(docs, items, plan, |events|);
    forall i | 0 <= i < |events|
      ensures |ErrorOf(i, events[i], dev, now, fates[i])| == if fates[i] == Stored then 0 else 1
    {
      OneErrorUnlessStored(docs, events, dev, now, encodeError, plan, i);
    }
    DueIsTheRest(events, dev, now, fates, |events|);
    if plan.others == map[] {
      NobodyElse(items, plan, |events|);
    }
  }

  lemma OneErrorUnlessStored(docs: seq<Measurement>, events: seq<RawEvent>, dev: DeviceContext, now: int,
                             encodeError: Measurement -> Option<string>, plan: ServerPlan, i: nat)
    requires i < |events|
    ensures var fate := Fates(docs, ItemsOf(events, dev, now, encodeError), plan)[i];
            |ErrorOf(i, events[i], dev, now, fate)| == if fate == Stored then 0 else 1
  {
  }

  /** An event is either stored or due an error. */
  lemma {:induction false} DueIsTheRest(events: seq<RawEvent>, dev: DeviceContext, now: int, fates: seq<Fate>, n: nat)
    requires n <= |events| == |fates|
    requires forall i :: 0 <= i < n ==>
               |ErrorOf(i, events[i], dev, now, fates[i])| == if fates[i] == Stored then 0 else 1
    ensures |ErrorsDue(events, dev, now, fates, n)| + |StoredPositions(fates, n)| == n
  {
    if n == 0 {
      assert StoredPositions(fates, 0) == {};
    } else {
      DueIsTheRest(events, dev, now, fates, n - 1);
      OneMoreStored(fates, n - 1);
      assert ErrorsDue(events, dev, now, fates, n)
          == ErrorsDue(events, dev, now, fates, n - 1) + ErrorOf(n - 1, events[n - 1], dev, now, fates[n - 1]);
    }
  }

  // ------------------------------------------------------------- what is stored, and what is answered, by cause

  /** Every document is one of before, one that others stored, or carries one of the events. */
  ghost predicate StoredFromEvents(before: seq<Measurement>, after: seq<Measurement>, events: seq<RawEvent>,
                                   dev: DeviceContext, now: int, plan: ServerPlan)
  {
    forall m :: m in after ==>
      || m in before
      || (exists k :: k in plan.others && m in plan.others[k])
      || (exists i :: 0 <= i < |events| && HasFieldsOf(m, events[i], dev, now))
  }

  lemma StoredCarries(docs: seq<Measurement>, events: seq<RawEvent>, dev: DeviceContext, now: int,
                      encodeError: Measurement -> Option<string>, plan: ServerPlan)
    ensures var items := ItemsOf(events, dev, now, encodeError);
            StoredFromEvents(docs, DocsAfter(docs, items, plan, |events|), events, dev, now, plan)
  {
    var items := ItemsOf(events, dev, now, encodeError);
    InsertAddsOnlySent(docs, items, plan, |events|);
    forall m | Some(m) in items ensures exists i :: 0 <= i < |events| && HasFieldsOf(m, events[i], dev, now) {
      var i :| 0 <= i < |items| && items[i] == Some(m);
      AdmittedDocument(events[i], dev, now);
    }
  }

  /** An event with fate Stored is in the collection afterwards, with all its fields. */
  lemma StoredIsThere(docs: seq<Measurement>, events: seq<RawEvent>, dev: DeviceContext, now: int,
                      encodeError: Measurement -> Option<string>, plan: ServerPlan, i: nat)
    requires i < |events| && Fates(docs, ItemsOf(events, dev, now, encodeError), plan)[i] == Stored
    ensures exists m :: m in DocsAfter(docs, ItemsOf(events, dev, now, encodeError), plan, |events|)
                        && HasFieldsOf(m, events[i], dev, now)
  {
    AdmittedDocument(events[i], dev, now);
    StoredStays(docs, ItemsOf(events, dev, now, encodeError), plan, i);
  }

  lemma StoredStays(docs: seq<Measurement>, items: seq<Option<Measurement>>, plan: ServerPlan, i: nat)
    requires i < |items| && FateAt(docs, items, plan, i) == Stored
    ensures items[i].Some? && items[i].value in DocsAfter(docs, items, plan, |items|)
  {
    var here, after := DocsAfter(docs, items, plan, i + 1), DocsAfter(docs, items, plan, |items|);
    InsertOnlyAppends(docs, items, plan, i + 1, |items|);
    assert here[|here| - 1] == items[i].value;
    assert after[|here| - 1] == here[|here| - 1];
  }

  ghost predicate Entry(errors: seq<EventError>, i: nat, code: Code) {
    exists k :: 0 <= k < |errors| && errors[k].index == i && errors[k].code == code
  }

  /** The code of each event by its cause, over the fields of the event, what can be encoded and what the collection
      did; an event without an entry is stored. */
  lemma EntryByCause(docs: seq<Measurement>, events: seq<RawEvent>, dev: DeviceContext, now: int,
                     encodeError: Measurement -> Option<string>, plan: ServerPlan, i: nat)
    requires i < |events|
    ensures var items := ItemsOf(events, dev, now, encodeError);
            var fates := Fates(docs, items, plan);
            var errors, e := ResultDue(events, dev, now, fates).errors, events[i];
            var mine := e.Envelope? && e.machineId == Some(dev.machineId);
            && (Entry(errors, i, ValidationFailed) <==> WellFormed(e) && !mine)
            && (Entry(errors, i, InvalidSchema) <==> !WellFormed(e) || (mine && items[i].None?))
            && (Entry(errors, i, Duplicate) <==> fates[i] == AlreadyThere)
            && (Entry(errors, i, StorageUnavailable) <==> fates[i].Faulted?)
            && ((forall k :: 0 <= k < |errors| ==> errors[k].index != i) <==> fates[i] == Stored)
            && (fates[i].Faulted? ==> EventError(i, StorageUnavailable, Storage(fates[i].message)) in errors)
            && (fates[i] == AlreadyThere ==> EventError(i, Duplicate, AlreadyIngested) in errors)
            && (WellFormed(e) && mine && items[i].None? ==> EventError(i, InvalidSchema, NotSerializable) in errors)
  {
    var items := ItemsOf(events, dev, now, encodeError);
    var fates := Fates(docs, items, plan);
    ErrorsAtOriginalIndices(events, dev, now, fates, |events|);
    EnvelopeVerdict(events[i], dev, now);
    OneEntry(events, dev, now, fates, i);
  }

  /** The entries with index i are the one due to event i, if any. */
  lemma OneEntry(events: seq<RawEvent>, dev: DeviceContext, now: int, fates: seq<Fate>, i: nat)
    requires i < |events| == |fates|
    ensures var errors, due := ErrorsDue(events, dev, now, fates, |events|), ErrorOf(i, events[i], dev, now, fates[i]);
            && (due == [] ==> forall k :: 0 <= k < |errors| ==> errors[k].index != i)
            && (due != [] ==> due[0] in errors && due[0].index == i)
            && (forall code :: Entry(errors, i, code) <==> due != [] && due[0].code == code)
  {
    ErrorsAtOriginalIndices(events, dev, now, fates, |events|);
  }

  // ------------------------------------------------------------- the service

  function ByIndex(): (EventError, EventError) -> bool {
    (a: EventError, b: EventError) => a.index <= b.index
  }

  class Service {
    const repo: Repository

    constructor (repo: Repository)
      ensures this.repo == repo
    {
      this.repo := repo;
    }

    /** Fails only when the write failed whole; otherwise answers ResultDue, whose reference fates know nothing of
        the index arrays used here. */
    method IngestBatch(dev: DeviceContext, events: seq<RawEvent>, now: int, plan: ServerPlan)
      returns (r: Result<IngestResult, StoreError>)
      modifies repo.coll
      ensures var items := ItemsOf(events, dev, now, repo.encodeError);
        && repo.coll.docs == DocsAfter(old(repo.coll.docs), items, plan, |events|)
        && (r.Err? <==> plan.reply != Answers && exists i :: 0 <= i < |items| && items[i].Some?)
        && (r.Ok? ==> r.value == ResultDue(events, dev, now, Fates(old(repo.coll.docs), items, plan)))
      ensures StoredFromEvents(old(repo.coll.docs), repo.coll.docs, events, dev, now, plan)
    {
      ghost var before, items := repo.coll.docs, ItemsOf(events, dev, now, repo.encodeError);
      ghost var fates := Fates(before, items, plan);
      StoredCarries(before, events, dev, now, repo.encodeError, plan);
      var valid, origIndex, errs := ValidateAll(dev, events, now);
      ValidBatch(before, events, dev, now, repo.encodeError, plan, valid, origIndex);
      ghost var validFates := Fates(before, Encodable(valid, repo.encodeError), plan);
      if |valid| > 0 {
        var report := repo.InsertMany(valid, plan);
        if report.Err? {
          return Err(report.error);
        }
        var more := ReportErrors(report.value, origIndex, validFates);
        errs := errs + more;
      }
      ErrorsMerge(events, dev, now, fates, valid, origIndex, validFates);
      ErrorsSort(events, dev, now, fates, errs);
      errs := Sort(errs, ByIndex());
      r := Ok(IngestResult(|events| - |errs|, |errs|, errs));
    }

    method ValidateAll(dev: DeviceContext, events: seq<RawEvent>, now: int)
      returns (valid: seq<Measurement>, origIndex: seq<nat>, errs: seq<EventError>)
      ensures Admits(events, dev, now, valid, origIndex, |events|)
      ensures errs == Concat(EnvelopeParts(events, dev, now), |events|)
    {
      valid, origIndex, errs := [], [], [];
      for i := 0 to |events|
        invariant Admits(events, dev, now, valid, origIndex, i)
        invariant errs == Concat(EnvelopeParts(events, dev, now), i)
      {
        match ValidateEvent(events[i], dev, now)
        case Rejected(code, message) =>
          CompactsSkip(AdmittedOf(events, dev, now), AllSent(valid), origIndex, None, i);
          errs := errs + [EventError(i, code, message)];
        case Admitted(m, _) =>
          CompactsKeep(AdmittedOf(events, dev, now), AllSent(valid), origIndex, None, i);
          assert AllSent(valid + [m]) == AllSent(valid) + [Some(m)];
          valid, origIndex := valid + [m], origIndex + [i];
      }
    }

    /** Maps the report back to positions of the original batch. */
    method ReportErrors(report: InsertReport, origIndex: seq<nat>, ghost fates: seq<Fate>)
      returns (errs: seq<EventError>)
      requires ReportMatches(report, fates) && |origIndex| == |fates|
      ensures errs == Concat(FateParts(origIndex, fates), |fates|)
    {
      errs := [];
      for j := 0 to |origIndex|
        invariant errs == Concat(FateParts(origIndex, fates), j)
      {
        if j in report.duplicated {
          errs := errs + [EventError(origIndex[j], Duplicate, AlreadyIngested)];
          continue;
        }
        if j in report.invalid {
          errs := errs + [EventError(origIndex[j], InvalidSchema, NotSerializable)];
          continue;
        }
        if j in report.failed {
          errs := errs + [EventError(origIndex[j], StorageUnavailable, Storage(report.failed[j]))];
        }
      }
    }
  }

  // ------------------------------------------------------------- the index arrays agree with the reference

  function AdmittedDoc(e: RawEvent, dev: DeviceContext, now: int): Option<Measurement> {
    match ValidateEvent(e, dev, now)
    case Rejected(_, _) => None
    case Admitted(doc, _) => Some(doc)
  }

  function AdmittedOf(events: seq<RawEvent>, dev: DeviceContext, now: int): (r: seq<Option<Measurement>>)
    ensures |r| == |events|
  {
    seq(|events|, i requires 0 <= i < |events| => AdmittedDoc(events[i], dev, now))
  }

  /** `valid` are the documents of the admitted events among the first n, `origIndex` their positions. */
  ghost predicate Admits(events: seq<RawEvent>, dev: DeviceContext, now: int,
                         valid: seq<Measurement>, origIndex: seq<nat>, n: nat)
    requires n <= |events|
  {
    |valid| == |origIndex| && Compacts(AdmittedOf(events, dev, now), AllSent(valid), origIndex, None, n, |valid|)
  }

  function EnvelopeError(i: nat, e: RawEvent, dev: DeviceContext, now: int): seq<EventError> {
    match ValidateEvent(e, dev, now)
    case Rejected(code, message) => [EventError(i, code, message)]
    case Admitted(_, _) => []
  }

  function EnvelopeParts(events: seq<RawEvent>, dev: DeviceContext, now: int): (r: seq<seq<EventError>>)
    ensures |r| == |events|
  {
    seq(|events|, i requires 0 <= i < |events| => EnvelopeError(i, events[i], dev, now))
  }

  function FateParts(origIndex: seq<nat>, fates: seq<Fate>): (r: seq<seq<EventError>>)
    requires |origIndex| == |fates|
    ensures |r| == |fates|
  {
    seq(|fates|, j requires 0 <= j < |fates| => FateError(origIndex[j], fates[j]))
  }

  /** The admitted documents, encoded or not, are the items of the batch without those never sent. */
  lemma ValidBatch(before: seq<Measurement>, events: seq<RawEvent>, dev: DeviceContext, now: int,
                   encodeError: Measurement -> Option<string>, plan: ServerPlan,
                   valid: seq<Measurement>, origIndex: seq<nat>)
    requires Admits(events, dev, now, valid, origIndex, |events|)
    ensures Compacts(Fates(before, ItemsOf(events, dev, now, encodeError), plan),
                     Fates(before, Encodable(valid, encodeError), plan), origIndex, NotSent, |events|, |valid|)
    ensures DocsAfter(before, ItemsOf(events, dev, now, encodeError), plan, |events|)
         == DocsAfter(before, Encodable(valid, encodeError), plan, |valid|)
    ensures (exists i :: 0 <= i < |events| && ItemsOf(events, dev, now, encodeError)[i].Some?)
       <==> (exists j :: 0 <= j < |valid| && encodeError(valid[j]).None?)
  {
    var items, sub := ItemsOf(events, dev, now, encodeError), Encodable(valid, encodeError);
    ItemsCompact(events, dev, now, encodeError, valid, origIndex);
    CompactWalk(before, items, sub, origIndex, plan, |events|, |valid|);
    CompactFates(before, items, sub, origIndex, plan, |events|, |valid|);
    SomethingToSend(items, sub, origIndex);
    assert forall j :: 0 <= j < |valid| ==> (sub[j].Some? <==> encodeError(valid[j]).None?);
  }

  lemma ItemsCompact(events: seq<RawEvent>, dev: DeviceContext, now: int,
                     encodeError: Measurement -> Option<string>, valid: seq<Measurement>, origIndex: seq<nat>)
    requires Admits(events, dev, now, valid, origIndex, |events|)
    ensures Compacts(ItemsOf(events, dev, now, encodeError), Encodable(valid, encodeError), origIndex,
                     None, |events|, |valid|)
  {
    var keep := (o: Option<Measurement>) => if o.Some? && encodeError(o.value).None? then o else None;
    CompactsMap(AdmittedOf(events, dev, now), AllSent(valid), origIndex, None, keep, |events|, |valid|);
    assert Map(AdmittedOf(events, dev, now), keep) == ItemsOf(events, dev, now, encodeError);
    assert Map(AllSent(valid), keep) == Encodable(valid, encodeError);
  }

  lemma SomethingToSend(items: seq<Option<Measurement>>, sub: seq<Option<Measurement>>, pos: seq<nat>)
    requires |sub| == |pos| && Compacts(items, sub, pos, None, |items|, |sub|)
    ensures (exists i :: 0 <= i < |items| && items[i].Some?) <==> (exists j :: 0 <= j < |sub| && sub[j].Some?)
  {
    CompactsAt(items, sub, pos, None, |items|, |sub|);
    if i :| 0 <= i < |items| && items[i].Some? {
      var j :| 0 <= j < |pos| && pos[j] == i;
      assert sub[j].Some?;
    }
    if j :| 0 <= j < |sub| && sub[j].Some? {
      assert items[pos[j]].Some?;
    }
  }

  /** Envelope errors and report errors together are the errors due. */
  lemma ErrorsMerge(events: seq<RawEvent>, dev: DeviceContext, now: int, fates: seq<Fate>,
                    valid: seq<Measurement>, origIndex: seq<nat>, validFates: seq<Fate>)
    requires |events| == |fates| && |valid| == |validFates| == |origIndex|
    requires Admits(events, dev, now, valid, origIndex, |events|)
    requires Compacts(fates, validFates, origIndex, NotSent, |events|, |valid|)
    ensures multiset(Concat(EnvelopeParts(events, dev, now), |events|))
            + multiset(Concat(FateParts(origIndex, validFates), |valid|))
         == multiset(ErrorsDue(events, dev, now, fates, |events|))
  {
    var rest := RestParts(AdmittedOf(events, dev, now), fates);
    ConcatSplit(DueParts(events, dev, now, fates), EnvelopeParts(events, dev, now), rest, |events|);
    RestCompact(AdmittedOf(events, dev, now), AllSent(valid), fates, validFates, origIndex, |events|, |valid|);
    ConcatCompact(rest, FateParts(origIndex, validFates), origIndex, |events|, |valid|);
  }

  /** The errors of the admitted events alone. */
  function RestParts(admitted: seq<Option<Measurement>>, fates: seq<Fate>): (r: seq<seq<EventError>>)
    requires |admitted| == |fates|
    ensures |r| == |fates|
  {
    seq(|fates|, i requires 0 <= i < |fates| => if admitted[i].None? then [] else FateError(i, fates[i]))
  }

  lemma {:induction false} RestCompact(
    admitted: seq<Option<Measurement>>, valid: seq<Option<Measurement>>, fates: seq<Fate>, validFates: seq<Fate>,
    pos: seq<nat>, n: nat, k: nat)
    requires |admitted| == |fates| && |valid| == |validFates| == |pos|
    requires n <= |fates| && k <= |pos|
    requires forall j :: 0 <= j < |valid| ==> valid[j].Some?
    requires Compacts(admitted, valid, pos, None, n, k)
    requires Compacts(fates, validFates, pos, NotSent, n, k)
    ensures Compacts(RestParts(admitted, fates), FateParts(pos, validFates), pos, [], n, k)
  {
    if n != 0 {
      if k > 0 && pos[k - 1] == n - 1 {
        RestCompact(admitted, valid, fates, validFates, pos, n - 1, k - 1);
        assert valid[k - 1].Some?;
      } else {
        RestCompact(admitted, valid, fates, validFates, pos, n - 1, k);
      }
    }
  }

  lemma ErrorsSort(events: seq<RawEvent>, dev: DeviceContext, now: int, fates: seq<Fate>, errs: seq<EventError>)
    requires |events| == |fates|
    requires multiset(errs) == multiset(ErrorsDue(events, dev, now, fates, |events|))
    ensures Sort(errs, ByIndex()) == ErrorsDue(events, dev, now, fates, |events|)
  {
    ErrorsAtOriginalIndices(events, dev, now, fates, |events|);
    SortFinds(errs, ErrorsDue(events, dev, now, fates, |events|), ByIndex());
  }
}
