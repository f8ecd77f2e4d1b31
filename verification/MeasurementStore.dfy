/** The collection of measurements, and what one unordered insert does to it, document by document. */
module MeasurementStore {
  import opened Collections
  import opened IngestDomain

  const DUPLICATE_KEY_CODE := 11000

  type FaultCode = c: int | c != DUPLICATE_KEY_CODE witness 0

  /** A write that the server refuses for a reason of its own. */
  datatype Fault = Fault(code: FaultCode, message: string)

  /** What the client hears back. */
  datatype ReplyMode = Answers | WriteConcernFails | NeverAnswers

  /** Everything that is not up to the code in one call: `faults[k]` refuses the k-th document sent, and `others[k]` is
      what other requests store just before it is tried. A call cut short is a plan whose faults cover the rest and
      whose reply never comes. */
  datatype ServerPlan = ServerPlan(faults: map<nat, Fault>, others: map<nat, seq<Measurement>>, reply: ReplyMode)

  function Arrivals(plan: ServerPlan, rank: nat): seq<Measurement> {
    if rank in plan.others then plan.others[rank] else []
  }

  datatype Fate = Stored | AlreadyThere | Faulted(message: string) | NotSent

  // The reference semantics walks a list of optional documents from left to right. A position that holds None is
  // never sent. No index array is involved: this is what the code that filters and maps indices must agree with.

  function Rank(items: seq<Option<Measurement>>, n: nat): (r: nat)
    requires n <= |items|
    ensures r <= n
  {
    if n == 0 then 0 else Rank(items, n - 1) + if items[n - 1].Some? then 1 else 0
  }

  function FateIn(docs: seq<Measurement>, m: Measurement, rank: nat, faults: map<nat, Fault>): Fate {
    if rank in faults then Faulted(faults[rank].message)
    else if HasKey(docs, Key(m)) then AlreadyThere
    else Stored
  }

  /** The collection after the first n positions. */
  function DocsAfter(docs: seq<Measurement>, items: seq<Option<Measurement>>, plan: ServerPlan, n: nat)
    : seq<Measurement>
    requires n <= |items|
  {
    if n == 0 then docs else
      var before := DocsAfter(docs, items, plan, n - 1);
      match items[n - 1]
      case None => before
      case Some(m) =>
        var rank := Rank(items, n - 1);
        var seen := before + Arrivals(plan, rank);
        if FateIn(seen, m, rank, plan.faults) == Stored then seen + [m] else seen
  }

  /** The collection that the document at position i finds. */
  function DocsSeen(docs: seq<Measurement>, items: seq<Option<Measurement>>, plan: ServerPlan, i: nat): seq<Measurement>
    requires i < |items|
  {
    DocsAfter(docs, items, plan, i) + Arrivals(plan, Rank(items, i))
  }

  function FateAt(docs: seq<Measurement>, items: seq<Option<Measurement>>, plan: ServerPlan, i: nat): Fate
    requires i < |items|
  {
    match items[i]
    case None => NotSent
    case Some(m) => FateIn(DocsSeen(docs, items, plan, i), m, Rank(items, i), plan.faults)
  }

  function Fates(docs: seq<Measurement>, items: seq<Option<Measurement>>, plan: ServerPlan): (r: seq<Fate>)
    ensures |r| == |items|
  {
    seq(|items|, i requires 0 <= i < |items| => FateAt(docs, items, plan, i))
  }

  /** The fate of a document by its cause: whether it was sent, whether the server refused it, and whether the
      collection that it found had a document of its tenant with its event id. */
  lemma FateByCause(docs: seq<Measurement>, items: seq<Option<Measurement>>, plan: ServerPlan, i: nat)
    requires i < |items|
    ensures var seen, fate, rank := DocsSeen(docs, items, plan, i), FateAt(docs, items, plan, i), Rank(items, i);
            match items[i]
            case None => fate == NotSent
            case Some(m) =>
              var there := exists j :: 0 <= j < |seen|
                                       && seen[j].tenantId == m.tenantId && seen[j].eventId == m.eventId;
              && (fate.Faulted? <==> rank in plan.faults)
              && (rank in plan.faults ==> fate == Faulted(plan.faults[rank].message))
              && (fate == AlreadyThere <==> rank !in plan.faults && there)
              && (fate == Stored <==> rank !in plan.faults && !there)
  {
    if items[i].Some? {
      HasKeyMeans(DocsSeen(docs, items, plan, i), items[i].value);
    }
  }

  lemma HasKeyMeans(docs: seq<Measurement>, m: Measurement)
    ensures HasKey(docs, Key(m))
       <==> exists j :: 0 <= j < |docs| && docs[j].tenantId == m.tenantId && docs[j].eventId == m.eventId
  {
  }

  /** What other requests store keeps the key unique too. */
  ghost predicate OthersKeepIndex(docs: seq<Measurement>, items: seq<Option<Measurement>>, plan: ServerPlan, n: nat)
    requires n <= |items|
  {
    n == 0
    || (&& OthersKeepIndex(docs, items, plan, n - 1)
        && (items[n - 1].Some? ==> UniqueKeys(DocsSeen(docs, items, plan, n - 1))))
  }

  /** An insert only appends, keeps the key unique, and leaves the key of every stored or duplicate position in
      the collection. */
  lemma {:induction false} InsertKeepsIndex(
    docs: seq<Measurement>, items: seq<Option<Measurement>>, plan: ServerPlan, n: nat)
    requires n <= |items| && UniqueKeys(docs) && OthersKeepIndex(docs, items, plan, n)
    ensures var after := DocsAfter(docs, items, plan, n);
      && UniqueKeys(after)
      && docs <= after
      && (forall i | 0 <= i < n && FateAt(docs, items, plan, i) in {Stored, AlreadyThere} ::
            HasKey(after, Key(items[i].value)))
  {
    InsertOnlyAppends(docs, items, plan, 0, n);
    forall i | 0 <= i < n && FateAt(docs, items, plan, i) in {Stored, AlreadyThere}
      ensures HasKey(DocsAfter(docs, items, plan, n), Key(items[i].value))
    {
      TriedIsThere(docs, items, plan, i);
      InsertOnlyAppends(docs, items, plan, i + 1, n);
      KeyStays(DocsAfter(docs, items, plan, i + 1), DocsAfter(docs, items, plan, n), Key(items[i].value));
    }
    if n != 0 {
      InsertKeepsIndex(docs, items, plan, n - 1);
      if items[n - 1].Some? && FateAt(docs, items, plan, n - 1) == Stored {
        AppendKeepsUnique(DocsSeen(docs, items, plan, n - 1), items[n - 1].value);
      }
    }
  }

  lemma AppendKeepsUnique(docs: seq<Measurement>, m: Measurement)
    requires UniqueKeys(docs) && !HasKey(docs, Key(m))
    ensures UniqueKeys(docs + [m])
  {
  }

  lemma TriedIsThere(docs: seq<Measurement>, items: seq<Option<Measurement>>, plan: ServerPlan, i: nat)
    requires i < |items| && FateAt(docs, items, plan, i) in {Stored, AlreadyThere}
    ensures HasKey(DocsAfter(docs, items, plan, i + 1), Key(items[i].value))
  {
    var after := DocsAfter(docs, items, plan, i + 1);
    if FateAt(docs, items, plan, i) == Stored {
      assert after[|after| - 1] == items[i].value;
    } else {
      assert after == DocsSeen(docs, items, plan, i);
    }
  }

  lemma KeyStays(docs: seq<Measurement>, after: seq<Measurement>, key: (string, string))
    requires docs <= after && HasKey(docs, key)
    ensures HasKey(after, key)
  {
    var k :| 0 <= k < |docs| && Key(docs[k]) == key;
    assert after[k] == docs[k];
  }

  lemma {:induction false} InsertOnlyAppends(
    docs: seq<Measurement>, items: seq<Option<Measurement>>, plan: ServerPlan, i: nat, n: nat)
    requires i <= n <= |items|
    ensures DocsAfter(docs, items, plan, i) <= DocsAfter(docs, items, plan, n)
    decreases n
  {
    if i < n {
      InsertOnlyAppends(docs, items, plan, i, n - 1);
    }
  }

  /** Every document of the collection was there before, is one of those sent, or came from other requests. */
  lemma {:induction false} InsertAddsOnlySent(
    docs: seq<Measurement>, items: seq<Option<Measurement>>, plan: ServerPlan, n: nat)
    requires n <= |items|
    ensures forall m :: m in DocsAfter(docs, items, plan, n) ==>
              m in docs || Some(m) in items || exists k :: k in plan.others && m in plan.others[k]
  {
    if n != 0 {
      InsertAddsOnlySent(docs, items, plan, n - 1);
    }
  }

  ghost function StoredPositions(fates: seq<Fate>, n: nat): set<nat>
    requires n <= |fates|
  {
    set i | 0 <= i < n && fates[i] == Stored
  }

  /** How many documents other requests store meanwhile. */
  function Arrived(items: seq<Option<Measurement>>, plan: ServerPlan, n: nat): nat
    requires n <= |items|
  {
    if n == 0 then 0 else
      Arrived(items, plan, n - 1) + if items[n - 1].Some? then |Arrivals(plan, Rank(items, n - 1))| else 0
  }

  lemma {:induction false} NobodyElse(items: seq<Option<Measurement>>, plan: ServerPlan, n: nat)
    requires n <= |items| && plan.others == map[]
    ensures Arrived(items, plan, n) == 0
  {
    if n != 0 {
      NobodyElse(items, plan, n - 1);
    }
  }

  /** The collection grows by one document for each position with fate Stored, and by what others store. */
  lemma {:induction false} GrowthIsStored(
    docs: seq<Measurement>, items: seq<Option<Measurement>>, plan: ServerPlan, n: nat)
    requires n <= |items|
    ensures |DocsAfter(docs, items, plan, n)|
         == |docs| + |StoredPositions(Fates(docs, items, plan), n)| + Arrived(items, plan, n)
  {
    var fates := Fates(docs, items, plan);
    if n == 0 {
      assert StoredPositions(fates, 0) == {};
    } else {
      GrowthIsStored(docs, items, plan, n - 1);
      OneMoreStored(fates, n - 1);
    }
  }

  lemma OneMoreStored(fates: seq<Fate>, n: nat)
    requires n < |fates|
    ensures |StoredPositions(fates, n + 1)| == |StoredPositions(fates, n)| + if fates[n] == Stored then 1 else 0
  {
    var was := StoredPositions(fates, n);
    assert StoredPositions(fates, n + 1) == if fates[n] == Stored then was + {n} else was;
  }

  // ------------------------------------------------------------- dropping positions that are not sent

  /** Walking the compacted list to k leaves what walking the whole list to n leaves. */
  lemma {:induction false} CompactWalk(
    docs: seq<Measurement>, items: seq<Option<Measurement>>, sub: seq<Option<Measurement>>, pos: seq<nat>,
    plan: ServerPlan, n: nat, k: nat)
    requires n <= |items| && k <= |sub| == |pos|
    requires Compacts(items, sub, pos, None, n, k)
    ensures Rank(items, n) == Rank(sub, k)
    ensures DocsAfter(docs, items, plan, n) == DocsAfter(docs, sub, plan, k)
    decreases n
  {
    if n != 0 {
      if k > 0 && pos[k - 1] == n - 1 {
        CompactWalk(docs, items, sub, pos, plan, n - 1, k - 1);
      } else {
        CompactWalk(docs, items, sub, pos, plan, n - 1, k);
      }
    }
  }

  /** So a document has the same fate in both lists, at its own position in each. */
  lemma {:induction false} CompactFates(
    docs: seq<Measurement>, items: seq<Option<Measurement>>, sub: seq<Option<Measurement>>, pos: seq<nat>,
    plan: ServerPlan, n: nat, k: nat)
    requires n <= |items| && k <= |sub| == |pos|
    requires Compacts(items, sub, pos, None, n, k)
    ensures Compacts(Fates(docs, items, plan), Fates(docs, sub, plan), pos, NotSent, n, k)
    decreases n
  {
    if n != 0 {
      if k > 0 && pos[k - 1] == n - 1 {
        CompactFates(docs, items, sub, pos, plan, n - 1, k - 1);
        CompactWalk(docs, items, sub, pos, plan, n - 1, k - 1);
      } else {
        CompactFates(docs, items, sub, pos, plan, n - 1, k);
      }
    }
  }
}
