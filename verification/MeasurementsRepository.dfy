/** The measurements repository: encode, insert unordered, translate the reply into an InsertReport. */
module MeasurementsRepository {
  import opened Collections
  import opened IngestDomain
  import opened MeasurementStore

  datatype WriteError = WriteError(index: int, code: int, message: string)

  /** What the driver returns: nothing wrong, a bulk write exception, or an error that is not one. */
  datatype BulkReply =
    | Acknowledged
    | BulkWriteException(writeErrors: seq<WriteError>, writeConcernError: bool)
    | ConnectionFailed

  datatype StoreError = StoreError

  /** Positions refer to the documents handed to InsertMany. */
  datatype InsertReport = InsertReport(duplicated: set<nat>, failed: map<nat, string>, invalid: map<nat, string>)
  {
    function Inserted(total: int): int {
      total - |duplicated| - |failed| - |invalid|
    }
  }

  function AllSent(docs: seq<Measurement>): seq<Option<Measurement>> {
    seq(|docs|, i requires 0 <= i < |docs| => Some(docs[i]))
  }

  /** What of `docs` reaches the server. */
  function Encodable(docs: seq<Measurement>, encodeError: Measurement -> Option<string>): seq<Option<Measurement>> {
    seq(|docs|, i requires 0 <= i < |docs| => if encodeError(docs[i]).None? then Some(docs[i]) else None)
  }

  ghost predicate Describes(e: WriteError, fate: Fate) {
    if e.code == DUPLICATE_KEY_CODE then fate == AlreadyThere else fate == Faulted(e.message)
  }

  /** The first t errors are exactly one for each of the first n documents that was not stored, in order. */
  ghost predicate ErrorsDescribe(errs: seq<WriteError>, fates: seq<Fate>, n: nat, t: nat)
    requires n <= |fates| && t <= |errs|
  {
    if n == 0 then t == 0
    else if fates[n - 1] == Stored then ErrorsDescribe(errs, fates, n - 1, t)
    else
      && t > 0 && errs[t - 1].index == n - 1 && Describes(errs[t - 1], fates[n - 1])
      && ErrorsDescribe(errs, fates, n - 1, t - 1)
  }

  lemma {:induction false} ErrorsExtend(errs: seq<WriteError>, e: WriteError, fates: seq<Fate>, n: nat, t: nat)
    requires n <= |fates| && t <= |errs| && ErrorsDescribe(errs, fates, n, t)
    ensures ErrorsDescribe(errs + [e], fates, n, t)
  {
    if n != 0 {
      ErrorsExtend(errs, e, fates, n - 1, if fates[n - 1] == Stored then t else t - 1);
    }
  }

  ghost predicate IsErrorOf(e: seq<WriteError>, fate: Fate, k: nat) {
    if fate == Stored then e == [] else |e| == 1 && e[0].index == k && Describes(e[0], fate)
  }

  lemma ErrorsNext(errs: seq<WriteError>, e: seq<WriteError>, fates: seq<Fate>, k: nat)
    requires k < |fates| && ErrorsDescribe(errs, fates, k, |errs|) && IsErrorOf(e, fates[k], k)
    ensures ErrorsDescribe(errs + e, fates, k + 1, |errs + e|)
  {
    if e == [] {
      assert errs + e == errs;
    } else {
      ErrorsExtend(errs, e[0], fates, k, |errs|);
      assert errs + e == errs + [e[0]];
    }
  }

  /** Document by document. */
  lemma {:induction false} ErrorsAt(errs: seq<WriteError>, fates: seq<Fate>, n: nat, t: nat)
    requires n <= |fates| && t <= |errs| && ErrorsDescribe(errs, fates, n, t)
    ensures forall u :: 0 <= u < t ==> 0 <= errs[u].index < n && Describes(errs[u], fates[errs[u].index])
    ensures forall k :: 0 <= k < n && fates[k] != Stored ==> exists u :: 0 <= u < t && errs[u].index == k
  {
    if n != 0 {
      if fates[n - 1] == Stored {
        ErrorsAt(errs, fates, n - 1, t);
      } else {
        ErrorsAt(errs, fates, n - 1, t - 1);
        forall k | 0 <= k < n && fates[k] != Stored ensures exists u :: 0 <= u < t && errs[u].index == k {
          if k == n - 1 {
            assert errs[t - 1].index == k;
          } else {
            var u :| 0 <= u < t - 1 && errs[u].index == k;
          }
        }
      }
    }
  }

  lemma {:induction false} AllSentRank(raw: seq<Measurement>, n: nat)
    requires n <= |raw|
    ensures Rank(AllSent(raw), n) == n
  {
    if n != 0 {
      AllSentRank(raw, n - 1);
    }
  }

  lemma NextFate(before: seq<Measurement>, raw: seq<Measurement>, plan: ServerPlan, k: nat)
    requires k < |raw|
    ensures var seen := DocsAfter(before, AllSent(raw), plan, k) + Arrivals(plan, k);
            var fate := FateIn(seen, raw[k], k, plan.faults);
      && Fates(before, AllSent(raw), plan)[k] == fate
      && DocsAfter(before, AllSent(raw), plan, k + 1) == seen + (if fate == Stored then [raw[k]] else [])
  {
    AllSentRank(raw, k);
  }

  /** The server side of one insertMany with ordered:false. */
  class Collection {
    var docs: seq<Measurement>

    constructor ()
      ensures docs == []
    {
      docs := [];
    }

    method InsertMany(raw: seq<Measurement>, plan: ServerPlan) returns (reply: BulkReply)
      modifies this
      ensures docs == DocsAfter(old(docs), AllSent(raw), plan, |raw|)
      ensures reply.ConnectionFailed? <==> plan.reply == NeverAnswers
      ensures reply.Acknowledged? ==>
                forall k :: 0 <= k < |raw| ==> Fates(old(docs), AllSent(raw), plan)[k] == Stored
      ensures reply.BulkWriteException? ==>
                && reply.writeConcernError == (plan.reply == WriteConcernFails)
                && ErrorsDescribe(reply.writeErrors, Fates(old(docs), AllSent(raw), plan), |raw|, |reply.writeErrors|)
      ensures plan.reply == WriteConcernFails ==> reply.BulkWriteException?
    {
      var errs := WriteAll(raw, plan);
      ErrorsAt(errs, Fates(old(docs), AllSent(raw), plan), |raw|, |errs|);
      reply := match plan.reply
        case NeverAnswers => ConnectionFailed
        case Answers => if errs == [] then Acknowledged else BulkWriteException(errs, false)
        case WriteConcernFails => BulkWriteException(errs, true);
    }

    /** Document by document; other requests write in between. */
    method WriteAll(raw: seq<Measurement>, plan: ServerPlan) returns (errs: seq<WriteError>)
      modifies this
      ensures docs == DocsAfter(old(docs), AllSent(raw), plan, |raw|)
      ensures ErrorsDescribe(errs, Fates(old(docs), AllSent(raw), plan), |raw|, |errs|)
    {
      errs := [];
      ghost var fates := Fates(docs, AllSent(raw), plan);
      for k := 0 to |raw|
        invariant docs == DocsAfter(old(docs), AllSent(raw), plan, k)
        invariant ErrorsDescribe(errs, fates, k, |errs|)
      {
        NextFate(old(docs), raw, plan, k);
        var e := WriteOne(raw[k], k, plan);
        ErrorsNext(errs, e, fates, k);
        errs := errs + e;
      }
    }

    method WriteOne(m: Measurement, k: nat, plan: ServerPlan) returns (e: seq<WriteError>)
      modifies this
      ensures var seen := old(docs) + Arrivals(plan, k);
              var fate := FateIn(seen, m, k, plan.faults);
        && docs == seen + (if fate == Stored then [m] else [])
        && IsErrorOf(e, fate, k)
    {
      docs := docs + Arrivals(plan, k);
      if k in plan.faults {
        e := [WriteError(k, plan.faults[k].code, plan.faults[k].message)];
      } else if HasKey(docs, Key(m)) {
        e := [WriteError(k, DUPLICATE_KEY_CODE, "E11000 duplicate key error")];
      } else {
        docs, e := docs + [m], [];
      }
    }
  }

  /** `invalid` holds the encoding error of each of the first n documents that has one. */
  ghost predicate InvalidsMatch(invalid: map<nat, string>, docs: seq<Measurement>,
                                encodeError: Measurement -> Option<string>, n: nat)
    requires n <= |docs|
  {
    && (forall j :: j in invalid <==> 0 <= j < n && encodeError(docs[j]).Some?)
    && (forall j :: j in invalid ==> encodeError(docs[j]) == Some(invalid[j]))
  }

  /** The report says of every document what became of it. */
  ghost predicate ReportMatches(report: InsertReport, fates: seq<Fate>) {
    && (forall j :: j in report.duplicated <==> 0 <= j < |fates| && fates[j] == AlreadyThere)
    && (forall j :: j in report.failed <==> 0 <= j < |fates| && fates[j].Faulted?)
    && (forall j :: j in report.failed ==> fates[j] == Faulted(report.failed[j]))
    && (forall j :: j in report.invalid <==> 0 <= j < |fates| && fates[j] == NotSent)
  }

  class Repository {
    const coll: Collection
    const encodeError: Measurement -> Option<string>

    constructor (coll: Collection, encodeError: Measurement -> Option<string>)
      ensures this.coll == coll && this.encodeError == encodeError
    {
      this.coll := coll;
      this.encodeError := encodeError;
    }

    method InsertMany(docs: seq<Measurement>, plan: ServerPlan) returns (r: Result<InsertReport, StoreError>)
      modifies coll
      ensures coll.docs == DocsAfter(old(coll.docs), Encodable(docs, encodeError), plan, |docs|)
      ensures r.Err? <==> plan.reply != Answers && exists i :: 0 <= i < |docs| && encodeError(docs[i]).None?
      ensures r.Ok? ==>
                && ReportMatches(r.value, Fates(old(coll.docs), Encodable(docs, encodeError), plan))
                && InvalidsMatch(r.value.invalid, docs, encodeError, |docs|)
    {
      ghost var before, items := coll.docs, Encodable(docs, encodeError);
      var raw, sent, invalid := EncodeAll(docs);
      ghost var rawFates := Fates(before, AllSent(raw), plan);
      EncodedBatch(before, docs, encodeError, raw, sent, plan);
      if |raw| == 0 {
        var empty := InsertReport({}, map[], invalid);
        AllStoredReport(empty, Fates(before, items, plan), rawFates, sent);
        return Ok(empty);
      }
      var reply := coll.InsertMany(raw, plan);
      r := Translate(reply, sent, invalid, Fates(before, items, plan), rawFates);
    }

    /** Turns the reply into a report, or into a total failure. */
    method Translate(reply: BulkReply, sent: seq<nat>, invalid: map<nat, string>,
                     ghost fates: seq<Fate>, ghost rawFates: seq<Fate>) returns (r: Result<InsertReport, StoreError>)
      requires |rawFates| == |sent| && Compacts(fates, rawFates, sent, NotSent, |fates|, |sent|)
      requires forall j :: j in invalid <==> 0 <= j < |fates| && fates[j] == NotSent
      requires reply.Acknowledged? ==> forall k :: 0 <= k < |rawFates| ==> rawFates[k] == Stored
      requires reply.BulkWriteException? ==>
                 ErrorsDescribe(reply.writeErrors, rawFates, |rawFates|, |reply.writeErrors|)
      ensures r.Err? <==> reply.ConnectionFailed? || (reply.BulkWriteException? && reply.writeConcernError)
      ensures r.Ok? ==> ReportMatches(r.value, fates) && r.value.invalid == invalid
    {
      match reply
      case ConnectionFailed =>
        r := Err(StoreError);
      case Acknowledged =>
        var report := InsertReport({}, map[], invalid);
        AllStoredReport(report, fates, rawFates, sent);
        r := Ok(report);
      case BulkWriteException(writeErrors, writeConcernError) =>
        var dup, failed := SplitErrors(writeErrors, sent);
        if writeConcernError {
          return Err(StoreError);
        }
        var report := InsertReport(dup, failed, invalid);
        TranslatedReport(report, writeErrors, fates, rawFates, sent);
        r := Ok(report);
    }

    /** Encodes document by document: `sent[k]` is the position in `docs` of what became raw[k]. */
    method EncodeAll(docs: seq<Measurement>)
      returns (raw: seq<Measurement>, sent: seq<nat>, invalid: map<nat, string>)
      ensures |raw| == |sent| && Compacts(Encodable(docs, encodeError), AllSent(raw), sent, None, |docs|, |raw|)
      ensures InvalidsMatch(invalid, docs, encodeError, |docs|)
    {
      raw, sent, invalid := [], [], map[];
      ghost var items := Encodable(docs, encodeError);
      for i := 0 to |docs|
        invariant |raw| == |sent| && Compacts(items, AllSent(raw), sent, None, i, |raw|)
        invariant InvalidsMatch(invalid, docs, encodeError, i)
      {
        match encodeError(docs[i])
        case Some(message) =>
          CompactsSkip(items, AllSent(raw), sent, None, i);
          invalid := invalid[i := message];
        case None =>
          CompactsKeep(items, AllSent(raw), sent, None, i);
          assert AllSent(raw + [docs[i]]) == AllSent(raw) + [items[i]];
          raw, sent := raw + [docs[i]], sent + [i];
      }
    }

    /** Maps every in-range write error back through `sent`. */
    method SplitErrors(errs: seq<WriteError>, sent: seq<nat>) returns (dup: set<nat>, failed: map<nat, string>)
      ensures Splits(errs, sent, dup, failed)
    {
      dup, failed := {}, map[];
      for t := 0 to |errs|
        invariant Splits(errs[..t], sent, dup, failed)
      {
        var we := errs[t];
        assert errs[..t + 1] == errs[..t] + [we];
        assert forall u :: 0 <= u < t ==> errs[..t][u] == errs[..t + 1][u];
        if we.index < 0 || we.index >= |sent| {
          continue;
        }
        var i := sent[we.index];
        if we.code == DUPLICATE_KEY_CODE {
          dup := dup + {i};
          assert errs[..t + 1][t] == we;
          continue;
        }
        failed := failed[i := we.message];
        assert errs[..t + 1][t] == we;
      }
      assert errs[..|errs|] == errs;
    }
  }

  /** What was encoded has the same fates, and leaves the same collection, as the whole list of documents. */
  lemma EncodedBatch(before: seq<Measurement>, docs: seq<Measurement>, encodeError: Measurement -> Option<string>,
                     raw: seq<Measurement>, sent: seq<nat>, plan: ServerPlan)
    requires |raw| == |sent| && Compacts(Encodable(docs, encodeError), AllSent(raw), sent, None, |docs|, |raw|)
    ensures Compacts(Fates(before, Encodable(docs, encodeError), plan), Fates(before, AllSent(raw), plan), sent,
                     NotSent, |docs|, |raw|)
    ensures DocsAfter(before, Encodable(docs, encodeError), plan, |docs|)
         == DocsAfter(before, AllSent(raw), plan, |raw|)
    ensures forall j :: 0 <= j < |docs| ==>
              (encodeError(docs[j]).Some? <==> Fates(before, Encodable(docs, encodeError), plan)[j] == NotSent)
    ensures |raw| == 0 <==> forall i :: 0 <= i < |docs| ==> encodeError(docs[i]).Some?
  {
    CompactWalk(before, Encodable(docs, encodeError), AllSent(raw), sent, plan, |docs|, |raw|);
    CompactFates(before, Encodable(docs, encodeError), AllSent(raw), sent, plan, |docs|, |raw|);
    NothingEncoded(docs, encodeError, raw, sent);
    forall j | 0 <= j < |docs|
      ensures encodeError(docs[j]).Some? <==> Fates(before, Encodable(docs, encodeError), plan)[j] == NotSent
    {
      SentOrNot(before, Encodable(docs, encodeError), plan, j);
    }
  }

  lemma SentOrNot(before: seq<Measurement>, items: seq<Option<Measurement>>, plan: ServerPlan, j: nat)
    requires j < |items|
    ensures items[j].None? <==> Fates(before, items, plan)[j] == NotSent
  {
  }

  lemma NothingEncoded(docs: seq<Measurement>, encodeError: Measurement -> Option<string>,
                       raw: seq<Measurement>, sent: seq<nat>)
    requires |raw| == |sent| && Compacts(Encodable(docs, encodeError), AllSent(raw), sent, None, |docs|, |raw|)
    ensures |raw| == 0 <==> forall i :: 0 <= i < |docs| ==> encodeError(docs[i]).Some?
  {
    var items := Encodable(docs, encodeError);
    CompactsAt(items, AllSent(raw), sent, None, |docs|, |raw|);
    if |raw| == 0 {
      forall i | 0 <= i < |docs| ensures encodeError(docs[i]).Some? {
        assert items[i] == None;
      }
    } else {
      assert items[sent[0]] == AllSent(raw)[0];
    }
  }

  ghost predicate Hits(e: WriteError, sent: seq<nat>, j: nat) {
    0 <= e.index < |sent| && sent[e.index] == j
  }

  ghost predicate Carries(e: WriteError, message: string) {
    e.code != DUPLICATE_KEY_CODE && e.message == message
  }

  ghost predicate Splits(errs: seq<WriteError>, sent: seq<nat>, dup: set<nat>, failed: map<nat, string>) {
    && (forall j :: j in dup <==>
          exists t :: 0 <= t < |errs| && Hits(errs[t], sent, j) && errs[t].code == DUPLICATE_KEY_CODE)
    && (forall j :: j in failed <==>
          exists t :: 0 <= t < |errs| && Hits(errs[t], sent, j) && errs[t].code != DUPLICATE_KEY_CODE)
    && (forall j :: j in failed ==>
          exists t :: 0 <= t < |errs| && Hits(errs[t], sent, j) && Carries(errs[t], failed[j]))
  }

  /** Nothing to report when everything sent was stored. */
  lemma AllStoredReport(report: InsertReport, fates: seq<Fate>, rawFates: seq<Fate>, sent: seq<nat>)
    requires report.duplicated == {} && report.failed == map[]
    requires forall j :: j in report.invalid <==> 0 <= j < |fates| && fates[j] == NotSent
    requires |rawFates| == |sent| && Compacts(fates, rawFates, sent, NotSent, |fates|, |sent|)
    requires forall k :: 0 <= k < |rawFates| ==> rawFates[k] == Stored
    ensures ReportMatches(report, fates)
  {
    CompactsAt(fates, rawFates, sent, NotSent, |fates|, |sent|);
    forall j | 0 <= j < |fates| ensures fates[j] == Stored || fates[j] == NotSent {
      if fates[j] != NotSent {
        var k :| 0 <= k < |sent| && sent[k] == j;
        assert rawFates[k] == fates[j];
      }
    }
  }

  /** The write errors, mapped back through `sent`, are the fates of the documents handed in. */
  lemma TranslatedReport(report: InsertReport, errs: seq<WriteError>, fates: seq<Fate>, rawFates: seq<Fate>,
                         sent: seq<nat>)
    requires |rawFates| == |sent| && Compacts(fates, rawFates, sent, NotSent, |fates|, |sent|)
    requires ErrorsDescribe(errs, rawFates, |rawFates|, |errs|)
    requires Splits(errs, sent, report.duplicated, report.failed)
    requires forall j :: j in report.invalid <==> 0 <= j < |fates| && fates[j] == NotSent
    ensures ReportMatches(report, fates)
  {
    forall j: nat
      ensures j in report.duplicated <==> j < |fates| && fates[j] == AlreadyThere
      ensures j in report.failed <==> j < |fates| && fates[j].Faulted?
      ensures j in report.failed ==> fates[j] == Faulted(report.failed[j])
    {
      TranslatedPosition(report, errs, fates, rawFates, sent, j);
    }
  }

  lemma TranslatedPosition(report: InsertReport, errs: seq<WriteError>, fates: seq<Fate>, rawFates: seq<Fate>,
                           sent: seq<nat>, j: nat)
    requires |rawFates| == |sent| && Compacts(fates, rawFates, sent, NotSent, |fates|, |sent|)
    requires ErrorsDescribe(errs, rawFates, |rawFates|, |errs|)
    requires Splits(errs, sent, report.duplicated, report.failed)
    ensures j in report.duplicated <==> j < |fates| && fates[j] == AlreadyThere
    ensures j in report.failed <==> j < |fates| && fates[j].Faulted?
    ensures j in report.failed ==> fates[j] == Faulted(report.failed[j])
  {
    CompactsAt(fates, rawFates, sent, NotSent, |fates|, |sent|);
    ErrorsAt(errs, rawFates, |rawFates|, |errs|);
    if k :| 0 <= k < |sent| && sent[k] == j {
      forall t | 0 <= t < |errs| && errs[t].index == k ensures Describes(errs[t], fates[j]) {
        assert fates[j] == rawFates[k];
      }
      SentPosition(report, errs, sent, j, k, fates[j]);
    } else {
      assert forall t :: 0 <= t < |errs| ==> !Hits(errs[t], sent, j);
    }
  }

  lemma SentPosition(report: InsertReport, errs: seq<WriteError>, sent: seq<nat>, j: nat, k: nat, fate: Fate)
    requires forall l, m :: 0 <= l < m < |sent| ==> sent[l] < sent[m]
    requires k < |sent| && sent[k] == j
    requires Splits(errs, sent, report.duplicated, report.failed)
    requires forall t :: 0 <= t < |errs| && errs[t].index == k ==> Describes(errs[t], fate)
    requires fate != Stored ==> exists t :: 0 <= t < |errs| && errs[t].index == k
    requires fate != NotSent
    ensures j in report.duplicated <==> fate == AlreadyThere
    ensures j in report.failed <==> fate.Faulted?
    ensures j in report.failed ==> fate == Faulted(report.failed[j])
  {
    assert forall t :: 0 <= t < |errs| ==> (Hits(errs[t], sent, j) <==> errs[t].index == k);
  }

  /** The three parts of a report are disjoint and in range, so Inserted counts the documents the collection
      gained, also when a key is repeated inside the batch. */
  lemma InsertedIsGrowth(report: InsertReport, before: seq<Measurement>, items: seq<Option<Measurement>>,
                         plan: ServerPlan)
    requires ReportMatches(report, Fates(before, items, plan))
    ensures report.duplicated !! report.failed.Keys !! report.invalid.Keys
    ensures forall j :: j in report.duplicated || j in report.failed || j in report.invalid ==> 0 <= j < |items|
    ensures report.Inserted(|items|)
         == |DocsAfter(before, items, plan, |items|)| - |before| - Arrived(items, plan, |items|)
    ensures plan.others == map[] ==> report.Inserted(|items|) == |DocsAfter(before, items, plan, |items|)| - |before|
  {
    var fates := Fates(before, items, plan);
    FatePartition(report, fates);
    GrowthIsStored(before, items, plan, |items|);
    if plan.others == map[] {
      NobodyElse(items, plan, |items|);
    }
  }

  lemma FatePartition(report: InsertReport, fates: seq<Fate>)
    requires ReportMatches(report, fates)
    ensures report.duplicated !! report.failed.Keys !! report.invalid.Keys
    ensures report.Inserted(|fates|) == |StoredPositions(fates, |fates|)|
  {
    var a := StoredPositions(fates, |fates|);
    forall i: nat ensures OneOf(a, report.duplicated, report.failed.Keys, report.invalid.Keys, i, |fates|) {
      if i < |fates| {
        match fates[i]
        case Stored =>
        case AlreadyThere =>
        case Faulted(_) => assert i in report.failed;
        case NotSent =>
      }
    }
    PartitionSize(a, report.duplicated, report.failed.Keys, report.invalid.Keys, |fates|);
  }

  /** i is in exactly one of the sets if it is below n, in none otherwise. */
  ghost predicate OneOf(a: set<nat>, b: set<nat>, c: set<nat>, d: set<nat>, i: nat, n: nat) {
    && (i < n <==> i in a || i in b || i in c || i in d)
    && (i in a ==> i !in b && i !in c && i !in d)
    && (i in b ==> i !in c && i !in d)
    && (i in c ==> i !in d)
  }

  lemma PartitionSize(a: set<nat>, b: set<nat>, c: set<nat>, d: set<nat>, n: nat)
    requires forall i: nat :: OneOf(a, b, c, d, i, n)
    ensures b !! c !! d
    ensures n == |a| + |b| + |c| + |d|
  {
    assert b !! c by {
      forall i | i in b ensures i !in c { assert OneOf(a, b, c, d, i, n); }
    }
    assert (b + c) !! d by {
      forall i | i in b + c ensures i !in d { assert OneOf(a, b, c, d, i, n); }
    }
    assert a !! (b + c + d) by {
      forall i | i in a ensures i !in b + c + d { assert OneOf(a, b, c, d, i, n); }
    }
    forall i: nat ensures i in Below(n) <==> i in a + (b + c + d) {
      assert OneOf(a, b, c, d, i, n);
    }
    assert Below(n) == a + (b + c + d);
  }

  ghost function Below(n: nat): (s: set<nat>)
    ensures |s| == n
    ensures forall i :: i in s <==> 0 <= i < n
  {
    if n == 0 then {} else Below(n - 1) + {n - 1}
  }
}
