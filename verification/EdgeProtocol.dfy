/** The whole exchange: Edges with outboxes, requests that write document by document while others do, and replies that
    arrive late, out of order, more than once, or never. */
module EdgeProtocol {
  import opened Collections
  import opened IngestDomain
  import opened MeasurementStore
  import opened MeasurementsRepository
  import opened IngestService

  /** A row of some device's outbox. */
  datatype Entry = Entry(dev: DeviceContext, row: nat, event: RawEvent)

  /** A request on the server, `now` by its clock. `fates` says what became of the events tried so far. The rest is
      history: the collection when the request came, what others stored before each of its documents, and what they
      stored since the last. */
  datatype Flight = Flight(
    dev: DeviceContext, batch: seq<Entry>, now: int, faults: map<nat, Fault>, reply: ReplyMode, fates: seq<Fate>,
    start: seq<Measurement>, others: map<nat, seq<Measurement>>, since: seq<Measurement>)

  /** An answer on the wire, to a batch that was served at `now`. */
  datatype Reply = Reply(batch: seq<Entry>, now: int, answer: Result<IngestResult, StoreError>)

  /** `dead` keeps the server's clock of the request whose answer killed the event. */
  datatype World = World(outbox: set<Entry>, acked: set<Entry>, dead: map<Entry, int>,
                         docs: seq<Measurement>, flights: seq<Flight>, wire: seq<Reply>)

  datatype Step =
    | Enqueue(entry: Entry)
    | Send(dev: DeviceContext, batch: seq<Entry>, now: int, faults: map<nat, Fault>, reply: ReplyMode)
    | Write(f: nat)
    | Respond(f: nat)
    | Deliver(k: nat)

  datatype Reaction = Ack | Kill | Retry

  const MAX_BATCH := 1000

  function Events(batch: seq<Entry>): (r: seq<RawEvent>)
    ensures |r| == |batch|
  {
    seq(|batch|, i requires 0 <= i < |batch| => batch[i].event)
  }

  function Items(fl: Flight, encodeError: Measurement -> Option<string>): (r: seq<Option<Measurement>>)
    ensures |r| == |fl.batch|
  {
    ItemsOf(Events(fl.batch), fl.dev, fl.now, encodeError)
  }

  /** The answer due to fates. */
  function AnswerTo(events: seq<RawEvent>, dev: DeviceContext, now: int, encodeError: Measurement -> Option<string>,
                    reply: ReplyMode, fates: seq<Fate>): Result<IngestResult, StoreError>
    requires |events| == |fates|
  {
    var items := ItemsOf(events, dev, now, encodeError);
    if reply != Answers && exists i :: 0 <= i < |items| && items[i].Some? then Err(StoreError)
    else Ok(ResultDue(events, dev, now, fates))
  }

  /** One request served by the service. */
  method Serve(service: Service, dev: DeviceContext, batch: seq<Entry>, now: int, plan: ServerPlan)
    returns (answer: Result<IngestResult, StoreError>)
    modifies service.repo.coll
    ensures var items := ItemsOf(Events(batch), dev, now, service.repo.encodeError);
            && service.repo.coll.docs == DocsAfter(old(service.repo.coll.docs), items, plan, |items|)
            && answer == AnswerTo(Events(batch), dev, now, service.repo.encodeError, plan.reply,
                                  Fates(old(service.repo.coll.docs), items, plan))
  {
    answer := service.IngestBatch(dev, Events(batch), now, plan);
    if answer.Err? {
      assert answer.error == StoreError;
    }
  }

  /** How the Edge reads errors[] for the event it sent at position k. */
  function ReactionTo(errors: seq<EventError>, k: nat): Reaction {
    if errors == [] then Ack
    else if errors[0].index == k then
      match errors[0].code
      case Duplicate => Ack
      case InvalidSchema => Kill
      case ValidationFailed => Kill
      case StorageUnavailable => Retry
    else ReactionTo(errors[1..], k)
  }

  function Chosen(reply: Reply, reaction: Reaction): set<Entry> {
    if reply.answer.Err? then {} else
      set k | 0 <= k < |reply.batch| && ReactionTo(reply.answer.value.errors, k) == reaction :: reply.batch[k]
  }

  predicate Complete(fl: Flight) { |fl.fates| == |fl.batch| }

  predicate Enabled(w: World, step: Step) {
    match step
    case Enqueue(e) => e !in w.outbox + w.acked + w.dead.Keys
    case Send(dev, batch, _, _, _) =>
      && 1 <= |batch| <= MAX_BATCH
      && (forall i :: 0 <= i < |batch| ==> batch[i] in w.outbox && batch[i].dev == dev)
    case Write(f) => f < |w.flights| && |w.flights[f].fates| < |w.flights[f].batch|
    case Respond(f) => f < |w.flights| && Complete(w.flights[f])
    case Deliver(k) => k < |w.wire|
  }

  /** The fate of the next document of a request. */
  function NextFateOf(docs: seq<Measurement>, fl: Flight, encodeError: Measurement -> Option<string>): Fate
    requires |fl.fates| < |fl.batch|
  {
    var items := Items(fl, encodeError);
    var i := |fl.fates|;
    match items[i]
    case None => NotSent
    case Some(m) => FateIn(docs, m, Rank(items, i), fl.faults)
  }

  /** What the next attempt of a request stores. */
  function StoredBy(docs: seq<Measurement>, fl: Flight, encodeError: Measurement -> Option<string>): seq<Measurement>
    requires |fl.fates| < |fl.batch|
  {
    var item := Items(fl, encodeError)[|fl.fates|];
    if item.Some? && NextFateOf(docs, fl, encodeError) == Stored then [item.value] else []
  }

  /** The request after its own attempt. */
  function Attempted(docs: seq<Measurement>, fl: Flight, encodeError: Measurement -> Option<string>): Flight
    requires |fl.fates| < |fl.batch|
  {
    var items := Items(fl, encodeError);
    var i := |fl.fates|;
    var next := fl.(fates := fl.fates + [NextFateOf(docs, fl, encodeError)]);
    if items[i].None? then next else next.(others := fl.others[Rank(items, i) := fl.since], since := [])
  }

  /** The requests after request f has tried its next document: the others see what it stored. */
  function FlightsAfter(w: World, f: nat, encodeError: Measurement -> Option<string>): (r: seq<Flight>)
    requires f < |w.flights| && |w.flights[f].fates| < |w.flights[f].batch|
    ensures |r| == |w.flights|
  {
    var stored := StoredBy(w.docs, w.flights[f], encodeError);
    seq(|w.flights|, g requires 0 <= g < |w.flights| =>
      if g == f then Attempted(w.docs, w.flights[g], encodeError)
      else w.flights[g].(since := w.flights[g].since + stored))
  }

  function Next(w: World, step: Step, encodeError: Measurement -> Option<string>): World
    requires Enabled(w, step)
  {
    match step
    case Enqueue(e) => w.(outbox := w.outbox + {e})
    case Send(dev, batch, now, faults, reply) =>
      w.(flights := w.flights + [Flight(dev, batch, now, faults, reply, [], w.docs, map[], [])])
    case Write(f) =>
      w.(docs := w.docs + StoredBy(w.docs, w.flights[f], encodeError), flights := FlightsAfter(w, f, encodeError))
    case Respond(f) =>
      var fl := w.flights[f];
      w.(wire := w.wire + [Reply(fl.batch, fl.now, Answer(fl, encodeError))])
    case Deliver(k) =>
      var acks, kills := Chosen(w.wire[k], Ack) * w.outbox, Chosen(w.wire[k], Kill) * w.outbox;
      w.(outbox := w.outbox - acks - kills, acked := w.acked + acks,
         dead := w.dead + map e | e in kills - acks :: w.wire[k].now)
  }

  function Answer(fl: Flight, encodeError: Measurement -> Option<string>): Result<IngestResult, StoreError>
    requires Complete(fl)
  {
    AnswerTo(Events(fl.batch), fl.dev, fl.now, encodeError, fl.reply, fl.fates)
  }

  ghost predicate EnabledRun(w: World, steps: seq<Step>, encodeError: Measurement -> Option<string>)
    decreases steps
  {
    steps == [] || (Enabled(w, steps[0]) && EnabledRun(Next(w, steps[0], encodeError), steps[1..], encodeError))
  }

  function Run(w: World, steps: seq<Step>, encodeError: Measurement -> Option<string>): World
    requires EnabledRun(w, steps, encodeError)
    decreases steps
  {
    if steps == [] then w else Run(Next(w, steps[0], encodeError), steps[1..], encodeError)
  }

  // ------------------------------------------------------------- requests are calls of the service

  function PlanOf(fl: Flight): ServerPlan { ServerPlan(fl.faults, fl.others, fl.reply) }

  /** The fates of the first documents of one call, and the collection that they left to others. */
  ghost predicate Course(docs: seq<Measurement>, start: seq<Measurement>, items: seq<Option<Measurement>>,
                         plan: ServerPlan, fates: seq<Fate>, since: seq<Measurement>)
  {
    var n := |fates|;
    && n <= |items|
    && docs == DocsAfter(start, items, plan, n) + since
    && (forall i :: 0 <= i < n ==> fates[i] == FateAt(start, items, plan, i))
    && (forall r :: r in plan.others ==> r < Rank(items, n))
  }

  /** What a request has done so far is what one call of the service does up to there, with the same server and the same
      company. */
  ghost predicate OnCourse(docs: seq<Measurement>, fl: Flight, encodeError: Measurement -> Option<string>) {
    Course(docs, fl.start, Items(fl, encodeError), PlanOf(fl), fl.fates, fl.since)
  }

  ghost predicate AllOnCourse(w: World, encodeError: Measurement -> Option<string>) {
    forall f :: 0 <= f < |w.flights| ==> OnCourse(w.docs, w.flights[f], encodeError)
  }

  /** Company that comes later does not change what was done before. */
  lemma {:induction false} LaterCompany(docs: seq<Measurement>, items: seq<Option<Measurement>>, plan: ServerPlan,
                                        rank: nat, batch: seq<Measurement>, n: nat)
    requires n <= |items| && Rank(items, n) <= rank
    ensures DocsAfter(docs, items, plan.(others := plan.others[rank := batch]), n) == DocsAfter(docs, items, plan, n)
  {
    if n != 0 {
      LaterCompany(docs, items, plan, rank, batch, n - 1);
    }
  }

  lemma {:induction false} LaterCompanyFates(docs: seq<Measurement>, items: seq<Option<Measurement>>,
                                             plan: ServerPlan, rank: nat, batch: seq<Measurement>, n: nat, i: nat)
    requires i < n <= |items| && Rank(items, n) <= rank
    ensures FateAt(docs, items, plan.(others := plan.others[rank := batch]), i) == FateAt(docs, items, plan, i)
    decreases n
  {
    if i == n - 1 {
      LaterCompany(docs, items, plan, rank, batch, i);
    } else {
      LaterCompanyFates(docs, items, plan, rank, batch, n - 1, i);
    }
  }

  lemma CourseGoesOn(docs: seq<Measurement>, start: seq<Measurement>, items: seq<Option<Measurement>>,
                     plan: ServerPlan, fates: seq<Fate>, since: seq<Measurement>, m: Measurement)
    requires Course(docs, start, items, plan, fates, since) && |fates| < |items| && items[|fates|] == Some(m)
    ensures var rank := Rank(items, |fates|);
            var fate := FateIn(docs, m, rank, plan.faults);
            Course(docs + (if fate == Stored then [m] else []), start, items,
                   plan.(others := plan.others[rank := since]), fates + [fate], [])
  {
    var n := |fates|;
    var rank := Rank(items, n);
    var next := plan.(others := plan.others[rank := since]);
    CompanyNoted(docs, start, items, plan, fates, since);
    AttemptIsNext(docs, start, items, next, n);
    var fate := FateIn(docs, m, rank, plan.faults);
    forall i | 0 <= i < n + 1 ensures (fates + [fate])[i] == FateAt(start, items, next, i) {
      if i < n {
        assert (fates + [fate])[i] == fates[i];
      }
    }
    assert Rank(items, n + 1) == rank + 1;
  }

  lemma CompanyNoted(docs: seq<Measurement>, start: seq<Measurement>, items: seq<Option<Measurement>>,
                     plan: ServerPlan, fates: seq<Fate>, since: seq<Measurement>)
    requires Course(docs, start, items, plan, fates, since) && |fates| < |items|
    ensures var next := plan.(others := plan.others[Rank(items, |fates|) := since]);
            && DocsSeen(start, items, next, |fates|) == docs
            && forall i :: 0 <= i < |fates| ==> fates[i] == FateAt(start, items, next, i)
  {
    var n := |fates|;
    var rank := Rank(items, n);
    LaterCompany(start, items, plan, rank, since, n);
    forall i | 0 <= i < n ensures fates[i] == FateAt(start, items, plan.(others := plan.others[rank := since]), i) {
      LaterCompanyFates(start, items, plan, rank, since, n, i);
    }
  }

  /** Trying the next document where the request stands is the next step of the call. */
  lemma AttemptIsNext(docs: seq<Measurement>, start: seq<Measurement>, items: seq<Option<Measurement>>,
                      plan: ServerPlan, n: nat)
    requires n < |items| && items[n].Some? && docs == DocsSeen(start, items, plan, n)
    ensures var fate := FateIn(docs, items[n].value, Rank(items, n), plan.faults);
            && FateAt(start, items, plan, n) == fate
            && DocsAfter(start, items, plan, n + 1) == docs + if fate == Stored then [items[n].value] else []
  {
  }

  lemma CourseSkips(docs: seq<Measurement>, start: seq<Measurement>, items: seq<Option<Measurement>>,
                    plan: ServerPlan, fates: seq<Fate>, since: seq<Measurement>)
    requires Course(docs, start, items, plan, fates, since) && |fates| < |items| && items[|fates|] == None
    ensures Course(docs, start, items, plan, fates + [NotSent], since)
  {
  }

  lemma AttemptStaysOnCourse(docs: seq<Measurement>, fl: Flight, encodeError: Measurement -> Option<string>)
    requires OnCourse(docs, fl, encodeError) && |fl.fates| < |fl.batch|
    ensures OnCourse(docs + StoredBy(docs, fl, encodeError), Attempted(docs, fl, encodeError), encodeError)
  {
    var items := Items(fl, encodeError);
    match items[|fl.fates|]
    case None =>
      assert docs + StoredBy(docs, fl, encodeError) == docs;
      CourseSkips(docs, fl.start, items, PlanOf(fl), fl.fates, fl.since);
    case Some(m) =>
      CourseGoesOn(docs, fl.start, items, PlanOf(fl), fl.fates, fl.since, m);
  }

  /** Over every run, however requests interleave, each is a call of the service. */
  lemma {:induction false} EveryFlightIsACall(w: World, steps: seq<Step>, encodeError: Measurement -> Option<string>)
    requires AllOnCourse(w, encodeError) && EnabledRun(w, steps, encodeError)
    ensures AllOnCourse(Run(w, steps, encodeError), encodeError)
    decreases steps
  {
    if steps != [] {
      StepKeepsCourse(w, steps[0], encodeError);
      EveryFlightIsACall(Next(w, steps[0], encodeError), steps[1..], encodeError);
    }
  }

  lemma StepKeepsCourse(w: World, step: Step, encodeError: Measurement -> Option<string>)
    requires AllOnCourse(w, encodeError) && Enabled(w, step)
    ensures AllOnCourse(Next(w, step, encodeError), encodeError)
  {
    var next := Next(w, step, encodeError);
    if step.Write? {
      forall g | 0 <= g < |next.flights| ensures OnCourse(next.docs, next.flights[g], encodeError) {
        assert OnCourse(w.docs, w.flights[g], encodeError);
        if g == step.f {
          AttemptStaysOnCourse(w.docs, w.flights[g], encodeError);
        } else {
          CompanyStaysOnCourse(w.docs, w.flights[g], StoredBy(w.docs, w.flights[step.f], encodeError), encodeError);
        }
      }
    } else if step.Send? {
      forall g | 0 <= g < |next.flights| ensures OnCourse(next.docs, next.flights[g], encodeError) {
        if g < |w.flights| {
          assert OnCourse(w.docs, w.flights[g], encodeError);
        }
      }
    }
  }

  lemma CompanyStaysOnCourse(docs: seq<Measurement>, fl: Flight, stored: seq<Measurement>,
                             encodeError: Measurement -> Option<string>)
    requires OnCourse(docs, fl, encodeError)
    ensures OnCourse(docs + stored, fl.(since := fl.since + stored), encodeError)
  {
  }

  /** So a complete request answers what the service answers. */
  lemma AnswerIsTheServices(docs: seq<Measurement>, fl: Flight, encodeError: Measurement -> Option<string>)
    requires OnCourse(docs, fl, encodeError) && Complete(fl)
    ensures var items := Items(fl, encodeError);
            && docs == DocsAfter(fl.start, items, PlanOf(fl), |items|) + fl.since
            && Answer(fl, encodeError) == AnswerTo(Events(fl.batch), fl.dev, fl.now, encodeError, fl.reply,
                                                   Fates(fl.start, items, PlanOf(fl)))
  {
    assert fl.fates == Fates(fl.start, Items(fl, encodeError), PlanOf(fl));
  }

  // ------------------------------------------------------------- the invariant

  /** The event's own (tenantId, eventId) is stored. */
  ghost predicate Kept(docs: seq<Measurement>, e: Entry) {
    e.event.Envelope? && e.event.eventId.Some? && HasKey(docs, (e.dev.tenantId, e.event.eventId.value))
  }

  /** The event cannot be stored at that time: envelope, machine or encoding. The collection plays no part. */
  ghost predicate Hopeless(e: Entry, now: int, encodeError: Measurement -> Option<string>) {
    ItemOf(e.event, e.dev, now, encodeError).None?
  }

  ghost predicate FromEntry(m: Measurement, e: Entry) {
    exists now :: ValidateEvent(e.event, e.dev, now).Admitted? && ValidateEvent(e.event, e.dev, now).doc == m
  }

  /** A fate that fits the event: not sent if and only if there is nothing to send, and if it is to be acknowledged its
      key is there. */
  ghost predicate FateFits(docs: seq<Measurement>, item: Option<Measurement>, fate: Fate) {
    && (item.None? <==> fate == NotSent)
    && (fate in {Stored, AlreadyThere} ==> item.Some? && HasKey(docs, Key(item.value)))
  }

  ghost predicate FlightSound(docs: seq<Measurement>, fl: Flight, encodeError: Measurement -> Option<string>) {
    && |fl.fates| <= |fl.batch|
    && (forall i :: 0 <= i < |fl.batch| ==> fl.batch[i].dev == fl.dev)
    && (forall i :: 0 <= i < |fl.fates| ==>
          && FateFits(docs, Items(fl, encodeError)[i], fl.fates[i])
          && (fl.faults == map[] ==> !fl.fates[i].Faulted?))
  }

  ghost predicate ReplySound(docs: seq<Measurement>, r: Reply, encodeError: Measurement -> Option<string>) {
    && (forall e :: e in Chosen(r, Ack) ==> Kept(docs, e))
    && (forall e :: e in Chosen(r, Kill) ==> Hopeless(e, r.now, encodeError))
  }

  ghost predicate Safe(w: World, encodeError: Measurement -> Option<string>) {
    && UniqueKeys(w.docs)
    && w.outbox !! w.acked !! w.dead.Keys
    && (forall e :: e in w.acked ==> Kept(w.docs, e))
    && (forall e :: e in w.dead ==> Hopeless(e, w.dead[e], encodeError))
    && (forall f :: 0 <= f < |w.flights| ==> FlightSound(w.docs, w.flights[f], encodeError))
    && (forall k :: 0 <= k < |w.wire| ==> ReplySound(w.docs, w.wire[k], encodeError))
  }

  /** Over every run: an event leaves the outbox acknowledged only if its key is stored, the collection never holds
      a key twice, and an event is killed only for a reason of its own. */
  lemma {:induction false} EveryRunIsSafe(w: World, steps: seq<Step>, encodeError: Measurement -> Option<string>)
    requires Safe(w, encodeError) && EnabledRun(w, steps, encodeError)
    ensures Safe(Run(w, steps, encodeError), encodeError)
    decreases steps
  {
    if steps != [] {
      StepIsSafe(w, steps[0], encodeError);
      EveryRunIsSafe(Next(w, steps[0], encodeError), steps[1..], encodeError);
    }
  }

  lemma StepIsSafe(w: World, step: Step, encodeError: Measurement -> Option<string>)
    requires Safe(w, encodeError) && Enabled(w, step)
    ensures Safe(Next(w, step, encodeError), encodeError)
  {
    match step
    case Enqueue(_) =>
    case Send(_, _, _, _, _) => SendIsSafe(w, step, encodeError);
    case Write(f) => WriteIsSafe(w, f, encodeError);
    case Respond(f) => RespondIsSafe(w, f, encodeError);
    case Deliver(k) => DeliverIsSafe(w, k, encodeError);
  }

  lemma SendIsSafe(w: World, step: Step, encodeError: Measurement -> Option<string>)
    requires Safe(w, encodeError) && Enabled(w, step) && step.Send?
    ensures Safe(Next(w, step, encodeError), encodeError)
  {
    var next := Next(w, step, encodeError);
    forall f | 0 <= f < |next.flights| ensures FlightSound(next.docs, next.flights[f], encodeError) {
      if f < |w.flights| {
        assert next.flights[f] == w.flights[f];
      }
    }
  }

  lemma DeliverIsSafe(w: World, k: nat, encodeError: Measurement -> Option<string>)
    requires Safe(w, encodeError) && k < |w.wire|
    ensures Safe(Next(w, Deliver(k), encodeError), encodeError)
  {
    assert ReplySound(w.docs, w.wire[k], encodeError);
  }

  lemma KeptGrows(docs: seq<Measurement>, after: seq<Measurement>, e: Entry)
    requires docs <= after && Kept(docs, e)
    ensures Kept(after, e)
  {
    KeyStays(docs, after, (e.dev.tenantId, e.event.eventId.value));
  }

  lemma FlightGrows(docs: seq<Measurement>, after: seq<Measurement>, fl: Flight, since: seq<Measurement>,
                    encodeError: Measurement -> Option<string>)
    requires docs <= after && FlightSound(docs, fl, encodeError)
    ensures FlightSound(after, fl.(since := since), encodeError)
  {
    var next := fl.(since := since);
    forall i | 0 <= i < |fl.fates| ensures FateFits(after, Items(next, encodeError)[i], fl.fates[i]) {
      assert FateFits(docs, Items(fl, encodeError)[i], fl.fates[i]);
      if fl.fates[i] in {Stored, AlreadyThere} {
        KeyStays(docs, after, Key(Items(fl, encodeError)[i].value));
      }
    }
  }

  /** A document is stored only if its key is not there yet; then it is. */
  lemma AttemptFits(docs: seq<Measurement>, fl: Flight, encodeError: Measurement -> Option<string>)
    requires UniqueKeys(docs) && FlightSound(docs, fl, encodeError) && |fl.fates| < |fl.batch|
    ensures var after := docs + StoredBy(docs, fl, encodeError);
            UniqueKeys(after) && FlightSound(after, Attempted(docs, fl, encodeError), encodeError)
  {
    var item, fate := Items(fl, encodeError)[|fl.fates|], NextFateOf(docs, fl, encodeError);
    var after := docs + StoredBy(docs, fl, encodeError);
    FlightGrows(docs, after, fl, fl.since, encodeError);
    if fate == Stored {
      AppendKeepsUnique(docs, item.value);
      assert after[|docs|] == item.value;
    } else {
      assert after == docs;
    }
    assert FateFits(after, item, fate);
    var next := Attempted(docs, fl, encodeError);
    forall i | 0 <= i < |next.fates| ensures FateFits(after, Items(next, encodeError)[i], next.fates[i]) {
      if i < |fl.fates| {
        assert FateFits(after, Items(fl, encodeError)[i], fl.fates[i]);
      }
    }
  }

  lemma WriteIsSafe(w: World, f: nat, encodeError: Measurement -> Option<string>)
    requires Safe(w, encodeError) && Enabled(w, Write(f))
    ensures Safe(Next(w, Write(f), encodeError), encodeError)
  {
    var next := Next(w, Write(f), encodeError);
    AttemptFits(w.docs, w.flights[f], encodeError);
    forall g | 0 <= g < |next.flights| ensures FlightSound(next.docs, next.flights[g], encodeError) {
      if g != f {
        FlightGrows(w.docs, next.docs, w.flights[g], next.flights[g].since, encodeError);
      }
    }
    forall e | Kept(w.docs, e) ensures Kept(next.docs, e) {
      KeptGrows(w.docs, next.docs, e);
    }
    forall k | 0 <= k < |next.wire| ensures ReplySound(next.docs, next.wire[k], encodeError) {
      assert ReplySound(w.docs, w.wire[k], encodeError);
    }
  }

  lemma RespondIsSafe(w: World, f: nat, encodeError: Measurement -> Option<string>)
    requires Safe(w, encodeError) && Enabled(w, Respond(f))
    ensures Safe(Next(w, Respond(f), encodeError), encodeError)
  {
    var next := Next(w, Respond(f), encodeError);
    AnswerIsSound(w.docs, w.flights[f], encodeError);
    forall k | 0 <= k < |next.wire| ensures ReplySound(next.docs, next.wire[k], encodeError) {
      if k < |w.wire| {
        assert next.wire[k] == w.wire[k];
      }
    }
  }

  /** The answer to a request acknowledges only stored keys and kills only hopeless events. */
  lemma AnswerIsSound(docs: seq<Measurement>, fl: Flight, encodeError: Measurement -> Option<string>)
    requires FlightSound(docs, fl, encodeError) && Complete(fl)
    ensures ReplySound(docs, Reply(fl.batch, fl.now, Answer(fl, encodeError)), encodeError)
  {
    var r := Reply(fl.batch, fl.now, Answer(fl, encodeError));
    if r.answer.Ok? {
      forall e | e in Chosen(r, Ack) ensures Kept(docs, e) {
        var k :| 0 <= k < |fl.batch| && ReactionTo(r.answer.value.errors, k) == Ack && fl.batch[k] == e;
        ReactionIsFate(fl, encodeError, docs, k);
        AdmittedDocument(e.event, fl.dev, fl.now);
      }
      forall e | e in Chosen(r, Kill) ensures Hopeless(e, r.now, encodeError) {
        var k :| 0 <= k < |fl.batch| && ReactionTo(r.answer.value.errors, k) == Kill && fl.batch[k] == e;
        ReactionIsFate(fl, encodeError, docs, k);
      }
    }
  }

  function FateReaction(fate: Fate): Reaction {
    match fate
    case Stored => Ack
    case AlreadyThere => Ack
    case NotSent => Kill
    case Faulted(_) => Retry
  }

  /** What the Edge does with an event is decided by that event's own fate. */
  lemma ReactionIsFate(fl: Flight, encodeError: Measurement -> Option<string>, docs: seq<Measurement>, k: nat)
    requires FlightSound(docs, fl, encodeError) && Complete(fl) && k < |fl.batch|
    ensures ReactionTo(ResultDue(Events(fl.batch), fl.dev, fl.now, fl.fates).errors, k) == FateReaction(fl.fates[k])
    ensures Items(fl, encodeError)[k] == ItemOf(fl.batch[k].event, fl.dev, fl.now, encodeError)
    ensures FateFits(docs, Items(fl, encodeError)[k], fl.fates[k])
  {
    var events := Events(fl.batch);
    ErrorsAtOriginalIndices(events, fl.dev, fl.now, fl.fates, |events|);
    DueReaction(events[k], fl.dev, fl.now, encodeError, fl.fates[k], k);
    LookupFinds(ErrorsDue(events, fl.dev, fl.now, fl.fates, |events|), k,
                ErrorOf(k, events[k], fl.dev, fl.now, fl.fates[k]));
  }

  lemma DueReaction(e: RawEvent, dev: DeviceContext, now: int, encodeError: Measurement -> Option<string>,
                    fate: Fate, k: nat)
    requires ItemOf(e, dev, now, encodeError).None? ==> fate == NotSent
    ensures ReactionTo(ErrorOf(k, e, dev, now, fate), k) == FateReaction(fate)
  {
    RejectionIsTerminal(e, dev, now);
  }

  lemma LookupFinds(errors: seq<EventError>, k: nat, due: seq<EventError>)
    requires forall i, l :: 0 <= i < l < |errors| ==> errors[i].index < errors[l].index
    requires forall j :: 0 <= j < |errors| && errors[j].index == k ==> due == [errors[j]]
    requires due != [] ==> due[0] in errors && due[0].index == k
    ensures ReactionTo(errors, k) == ReactionTo(due, k)
  {
    if due == [] {
      NoEntry(errors, k);
    } else {
      var j :| 0 <= j < |errors| && errors[j] == due[0];
      OneEntry(errors, k, j);
    }
  }

  lemma {:induction false} NoEntry(errors: seq<EventError>, k: nat)
    requires forall j :: 0 <= j < |errors| ==> errors[j].index != k
    ensures ReactionTo(errors, k) == Ack
  {
    if errors != [] {
      NoEntry(errors[1..], k);
    }
  }

  lemma {:induction false} OneEntry(errors: seq<EventError>, k: nat, j: nat)
    requires j < |errors| && errors[j].index == k
    requires forall i, l :: 0 <= i < l < |errors| ==> errors[i].index < errors[l].index
    ensures ReactionTo(errors, k) == ReactionTo([errors[j]], k)
  {
    if j != 0 {
      assert errors[0].index < errors[j].index;
      OneEntry(errors[1..], k, j - 1);
    }
  }

  // ------------------------------------------------------------- nothing lost, nothing invented

  function Known(w: World): set<Entry> { w.outbox + w.acked + w.dead.Keys }

  /** Requests are of entries that some Edge enqueued, for its own device. */
  ghost predicate FlightsKnown(w: World) {
    forall f, i :: 0 <= f < |w.flights| && 0 <= i < |w.flights[f].batch| ==>
      w.flights[f].batch[i] in Known(w) && w.flights[f].batch[i].dev == w.flights[f].dev
  }

  /** Nothing an Edge enqueued disappears, and nothing is stored that no Edge of that tenant enqueued. */
  ghost predicate Accounted(start: World, w: World, steps: seq<Step>) {
    && Known(w) == Known(start) + (set s | s in steps && s.Enqueue? :: s.entry)
    && start.docs <= w.docs
    && (forall m :: m in w.docs && m !in start.docs ==> exists e :: e in Known(w) && FromEntry(m, e))
  }

  /** Nothing is lost and nothing is invented, over every run. */
  lemma {:induction false} EveryRunIsAccounted(w: World, steps: seq<Step>, encodeError: Measurement -> Option<string>)
    requires FlightsKnown(w) && EnabledRun(w, steps, encodeError)
    ensures Accounted(w, Run(w, steps, encodeError), steps) && FlightsKnown(Run(w, steps, encodeError))
    decreases steps
  {
    if steps != [] {
      var next := Next(w, steps[0], encodeError);
      StepIsAccounted(w, steps[0], encodeError);
      EveryRunIsAccounted(next, steps[1..], encodeError);
      var end := Run(next, steps[1..], encodeError);
      assert steps == [steps[0]] + steps[1..];
      forall m | m in end.docs && m !in w.docs ensures exists e :: e in Known(end) && FromEntry(m, e) {
        if m in next.docs {
          var e :| e in Known(next) && FromEntry(m, e);
          assert e in Known(end);
        }
      }
    }
  }

  lemma StepIsAccounted(w: World, step: Step, encodeError: Measurement -> Option<string>)
    requires FlightsKnown(w) && Enabled(w, step)
    ensures Accounted(w, Next(w, step, encodeError), [step]) && FlightsKnown(Next(w, step, encodeError))
  {
    var next := Next(w, step, encodeError);
    if step.Write? {
      var fl := w.flights[step.f];
      var i := |fl.fates|;
      forall m | m in next.docs && m !in w.docs ensures exists e :: e in Known(next) && FromEntry(m, e) {
        assert Items(fl, encodeError)[i] == Some(m);
        assert FromEntry(m, fl.batch[i]);
      }
    }
  }

  /** A request that meets no fault leaves nothing to retry, whatever other requests do meanwhile: once its answer is
      delivered, its whole batch has left the outbox. */
  lemma CleanSendDrains(w: World, f: nat, encodeError: Measurement -> Option<string>)
    requires Safe(w, encodeError) && f < |w.flights| && Complete(w.flights[f])
    requires w.flights[f].faults == map[] && w.flights[f].reply == Answers
    ensures var answered := Next(w, Respond(f), encodeError);
            forall e :: e in w.flights[f].batch ==> e !in Next(answered, Deliver(|w.wire|), encodeError).outbox
  {
    var fl := w.flights[f];
    var r := Reply(fl.batch, fl.now, Answer(fl, encodeError));
    forall e | e in fl.batch ensures e in Chosen(r, Ack) + Chosen(r, Kill) {
      var k :| 0 <= k < |fl.batch| && fl.batch[k] == e;
      ReactionIsFate(fl, encodeError, w.docs, k);
      assert ReactionTo(r.answer.value.errors, k) != Retry;
    }
  }
}
