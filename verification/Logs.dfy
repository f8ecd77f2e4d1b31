/** Log listing by keyset pagination, and the window of entries around one entry. */
module Logs {
  import opened Arithmetic
  import opened Collections

  datatype LogEntry = LogEntry(
    id: int, tenantId: string, createdAt: int, severity: string, eventType: string, machineId: Option<string>,
    message: string)

  /** The position of an entry in the order of the log. */
  datatype Cursor = Cursor(createdAt: int, id: int)

  datatype CursorParam = NoCursor | At(c: Cursor) | Malformed

  /** What to list; `text` is the test that the text query makes of a message. */
  datatype Filters = Filters(
    tenantId: string, eventType: string, severity: string, machineId: Option<string>, from: Option<int>,
    to: Option<int>, text: Option<string -> bool>)

  datatype LogError = InvalidCursor | LogNotFound

  datatype ListResult = ListResult(entries: seq<LogEntry>, total: nat, nextCursor: Option<Cursor>)

  // ------------------------------------------------------------- order

  function KeyOf(e: LogEntry): Cursor { Cursor(e.createdAt, e.id) }

  /** (created_at, id) < (created_at, id), compared in that order. */
  predicate Below(a: Cursor, b: Cursor) {
    a.createdAt < b.createdAt || (a.createdAt == b.createdAt && a.id < b.id)
  }

  function Descending(): (LogEntry, LogEntry) -> bool {
    (a: LogEntry, b: LogEntry) => !Below(KeyOf(a), KeyOf(b))
  }

  function Ascending(): (LogEntry, LogEntry) -> bool {
    (a: LogEntry, b: LogEntry) => !Below(KeyOf(b), KeyOf(a))
  }

  predicate UniqueIds(table: seq<LogEntry>) {
    forall i, j :: 0 <= i < j < |table| ==> table[i].id != table[j].id
  }

  /** Newest first; of entries of one time, the greater id first. */
  ghost predicate Descends(s: seq<LogEntry>) {
    forall i, j :: 0 <= i < j < |s| ==>
      s[i].createdAt > s[j].createdAt || (s[i].createdAt == s[j].createdAt && s[i].id > s[j].id)
  }

  // ------------------------------------------------------------- listing

  predicate Matches(e: LogEntry, f: Filters) {
    && e.tenantId == f.tenantId
    && (f.eventType != "" ==> e.eventType == f.eventType)
    && (f.severity != "" ==> e.severity == f.severity)
    && (f.machineId.Some? ==> e.machineId == f.machineId)
    && (f.from.Some? ==> e.createdAt >= f.from.value)
    && (f.to.Some? ==> e.createdAt <= f.to.value)
    && (f.text.Some? ==> f.text.value(e.message))
  }

  predicate Selected(e: LogEntry, f: Filters, after: Option<Cursor>) {
    Matches(e, f) && (after.Some? ==> Below(KeyOf(e), after.value))
  }

  function Test(f: Filters, after: Option<Cursor>): LogEntry -> bool { (e: LogEntry) => Selected(e, f, after) }

  /** The rows of a query, in its order, before the limit. */
  function Rows(table: seq<LogEntry>, f: Filters, after: Option<Cursor>): seq<LogEntry> {
    Sort(Filter(table, Test(f, after)), Descending())
  }

  function Limited(rows: seq<LogEntry>, limit: nat): seq<LogEntry> {
    if |rows| <= limit then rows else rows[..limit]
  }

  function EffectiveLimit(limit: int): (r: nat)
    ensures 1 <= r <= 100
  {
    if limit <= 0 || limit > 100 then 50 else limit
  }

  /** The repository's answer: a page and the count of everything from there on. */
  function RepoList(table: seq<LogEntry>, f: Filters, cursor: CursorParam, limit: int)
    : Result<(seq<LogEntry>, nat), LogError>
  {
    match cursor
    case Malformed => Err(InvalidCursor)
    case NoCursor => var rows := Rows(table, f, None); Ok((Limited(rows, EffectiveLimit(limit)), |rows|))
    case At(c) => var rows := Rows(table, f, Some(c)); Ok((Limited(rows, EffectiveLimit(limit)), |rows|))
  }

  /** A full page is followed by another, that starts below its last entry. */
  function NextCursor(entries: seq<LogEntry>, limit: nat): Option<Cursor> {
    if |entries| == limit && limit > 0 then Some(KeyOf(entries[limit - 1])) else None
  }

  function List(table: seq<LogEntry>, f: Filters, cursor: CursorParam, limit: int): Result<ListResult, LogError> {
    var effective := EffectiveLimit(limit);
    match RepoList(table, f, cursor, effective)
    case Err(e) => Err(e)
    case Ok((entries, total)) => Ok(ListResult(entries, total, NextCursor(entries, effective)))
  }

  function ParamOf(after: Option<Cursor>): CursorParam {
    match after case None => NoCursor case Some(c) => At(c)
  }

  /** One answer: the newest rows below the cursor, as many as asked for if that is between 1 and 100 and else 50, with
      the count of all of them, and the position of the last one given if the page is full. */
  lemma PageIsExact(table: seq<LogEntry>, f: Filters, after: Option<Cursor>, limit: int)
    requires UniqueIds(table)
    ensures var rows, size := Rows(table, f, after), if 1 <= limit <= 100 then limit else 50;
            && Descends(rows)
            && List(table, f, if after.Some? then At(after.value) else NoCursor, limit)
               == Ok(if |rows| < size then ListResult(rows, |rows|, None)
                     else ListResult(rows[..size], |rows|, Some(Cursor(rows[size - 1].createdAt, rows[size - 1].id))))
    ensures List(table, f, Malformed, limit) == Err(InvalidCursor)
  {
    RowsDescend(table, f, after);
    PageIs(table, f, after, limit);
    var rows := Rows(table, f, after);
    assert rows[..|rows|] == rows;
  }

  /** The rows are the entries of the table that meet every filter and lie below the cursor. */
  lemma RowsAre(table: seq<LogEntry>, f: Filters, after: Option<Cursor>, e: LogEntry)
    ensures e in Rows(table, f, after)
       <==> && e in table && e.tenantId == f.tenantId
            && (f.eventType == "" || f.eventType == e.eventType) && (f.severity == "" || f.severity == e.severity)
            && (f.machineId.None? || f.machineId == e.machineId)
            && (f.from.None? || f.from.value <= e.createdAt) && (f.to.None? || e.createdAt <= f.to.value)
            && (f.text.None? || f.text.value(e.message))
            && (match after
                case None => true
                case Some(c) => c.createdAt > e.createdAt || (c.createdAt == e.createdAt && c.id > e.id))
  {
    assert e in Rows(table, f, after) <==> e in Filter(table, Test(f, after));
  }

  // ------------------------------------------------------------- following the cursor

  /** The answer to a cursor the service itself gave out, or to none. */
  function Fetch(table: seq<LogEntry>, f: Filters, after: Option<Cursor>, limit: int): ListResult {
    List(table, f, ParamOf(after), limit).value
  }

  /** The calls of a client that follows the next cursor, at most one for each batch; batch i enters the table after
      call i. */
  function Walk(table: seq<LogEntry>, f: Filters, after: Option<Cursor>, limit: int, batches: seq<seq<LogEntry>>)
    : seq<ListResult>
    decreases |batches|
  {
    if batches == [] then [] else
      var page := Fetch(table, f, after, limit);
      if page.nextCursor.None? then [page]
      else [page] + Walk(table + batches[0], f, page.nextCursor, limit, batches[1..])
  }

  /** No entry of a batch lies below the cursor that the client holds when the batch comes. */
  ghost predicate ArriveOnTop(table: seq<LogEntry>, f: Filters, after: Option<Cursor>, limit: int,
                              batches: seq<seq<LogEntry>>)
    decreases |batches|
  {
    batches != [] ==>
      var page := Fetch(table, f, after, limit);
      page.nextCursor.Some? ==>
        && (forall e :: e in batches[0] ==> !Below(KeyOf(e), page.nextCursor.value))
        && ArriveOnTop(table + batches[0], f, page.nextCursor, limit, batches[1..])
  }

  function EntriesOf(pages: seq<ListResult>): seq<LogEntry> {
    if pages == [] then [] else pages[0].entries + EntriesOf(pages[1..])
  }

  function PageOf(rest: seq<LogEntry>, size: nat): ListResult {
    ListResult(Limited(rest, size), |rest|, NextCursor(Limited(rest, size), size))
  }

  /** One list cut into pages, each with the count of what is left; the last is not full. */
  function Cut(rest: seq<LogEntry>, size: nat, calls: nat): seq<ListResult>
    requires size > 0
    decreases calls
  {
    if calls == 0 then []
    else if |rest| < size then [PageOf(rest, size)]
    else [PageOf(rest, size)] + Cut(rest[size..], size, calls - 1)
  }

  /** From an empty cursor, whatever enters above the cursor meanwhile: the pages are the one sorted list of what was
      there at the start, every entry once and in order, and the walk takes exactly n / limit + 1 calls. */
  lemma WalkReturnsEverything(table: seq<LogEntry>, f: Filters, limit: int, batches: seq<seq<LogEntry>>)
    requires UniqueIds(table) && ArriveOnTop(table, f, None, limit, batches)
    requires |batches| > |Rows(table, f, None)| / EffectiveLimit(limit)
    ensures var all, size := Rows(table, f, None), if 1 <= limit <= 100 then limit else 50;
            var pages := Walk(table, f, None, limit, batches);
            && Descends(all)
            && |pages| == |all| / size + 1
            && EntriesOf(pages) == all
            && pages[|pages| - 1].nextCursor.None?
  {
    var all, size := Rows(table, f, None), EffectiveLimit(limit);
    RowsDescend(table, f, None);
    WalkFrom(table, f, None, limit, batches, all);
    CallsAre(|all|, size);
    CutEnds(all, size, |batches|);
    CutJoins(all, size, |batches|);
  }

  /** The total of a page is what is left from there on, not the size of the whole list. */
  lemma TotalIsWhatIsLeft(table: seq<LogEntry>, f: Filters, limit: int, batches: seq<seq<LogEntry>>, k: nat)
    requires UniqueIds(table) && ArriveOnTop(table, f, None, limit, batches)
    requires k < |Walk(table, f, None, limit, batches)|
    ensures Walk(table, f, None, limit, batches)[k].total
         == |Rows(table, f, None)| - k * (if 1 <= limit <= 100 then limit else 50)
  {
    var all := Rows(table, f, None);
    RowsDescend(table, f, None);
    WalkFrom(table, f, None, limit, batches, all);
    CutTotal(all, EffectiveLimit(limit), |batches|, k);
  }

  /** Calls to read n rows: a page that is not full ends the walk. */
  function CallsFor(n: nat, size: nat): nat
    requires size > 0
  {
    if n < size then 1 else 1 + CallsFor(n - size, size)
  }

  lemma {:induction false} CallsAre(n: nat, size: nat)
    requires size > 0
    ensures CallsFor(n, size) == n / size + 1
  {
    if n >= size {
      CallsAre(n - size, size);
      OnePageLess(n, size);
    } else {
      DivisionIs(n, 0, n, size);
    }
  }

  lemma {:induction false} CutEnds(rest: seq<LogEntry>, size: nat, calls: nat)
    requires size > 0 && calls >= CallsFor(|rest|, size)
    ensures |Cut(rest, size, calls)| == CallsFor(|rest|, size)
    ensures Cut(rest, size, calls)[CallsFor(|rest|, size) - 1].nextCursor.None?
    decreases calls
  {
    if |rest| >= size {
      CutEnds(rest[size..], size, calls - 1);
    }
  }

  lemma {:induction false} CutJoins(rest: seq<LogEntry>, size: nat, calls: nat)
    requires size > 0 && calls >= CallsFor(|rest|, size)
    ensures EntriesOf(Cut(rest, size, calls)) == rest
    decreases calls
  {
    var page, more := PageOf(rest, size), if |rest| < size then [] else Cut(rest[size..], size, calls - 1);
    assert Cut(rest, size, calls) == [page] + more;
    assert ([page] + more)[1..] == more;
    assert EntriesOf([page] + more) == page.entries + EntriesOf(more);
    if |rest| >= size {
      CutJoins(rest[size..], size, calls - 1);
      assert rest[..size] + rest[size..] == rest;
    }
  }

  lemma {:induction false} CutTotal(rest: seq<LogEntry>, size: nat, calls: nat, k: nat)
    requires size > 0 && k < |Cut(rest, size, calls)|
    ensures Cut(rest, size, calls)[k].total == |rest| - k * size
    decreases k
  {
    if k > 0 {
      CutTotal(rest[size..], size, calls - 1, k - 1);
      assert (k - 1) * size == k * size - size;
    }
  }

  lemma OnePageLess(n: nat, size: nat)
    requires n >= size > 0
    ensures (n - size) / size == n / size - 1
  {
    assert n - size == (n / size - 1) * size + n % size;
    DivisionIs(n - size, n / size - 1, n % size, size);
  }

  lemma RowsDescend(table: seq<LogEntry>, f: Filters, after: Option<Cursor>)
    requires UniqueIds(table)
    ensures Descends(Rows(table, f, after))
  {
    var s := Filter(table, Test(f, after));
    var rows := Rows(table, f, after);
    OrdersAreTotal();
    SortSorts(s, Descending());
    FilterKeepsIds(table, Test(f, after));
    SortKeepsIds(s, Descending());
    forall i, j | 0 <= i < j < |rows| ensures Below(KeyOf(rows[j]), KeyOf(rows[i])) {
      assert Descending()(rows[i], rows[j]);
      assert rows[i].id != rows[j].id;
    }
  }

  lemma OrdersAreTotal()
    ensures TotalPreorder(Descending()) && TotalPreorder(Ascending())
  {
  }

  lemma {:induction false} FilterKeepsIds(s: seq<LogEntry>, p: LogEntry -> bool)
    requires UniqueIds(s)
    ensures UniqueIds(Filter(s, p))
  {
    if s != [] {
      FilterKeepsIds(s[1..], p);
      var rest := Filter(s[1..], p);
      forall j | 0 <= j < |rest| ensures rest[j].id != s[0].id {
        assert rest[j] in s[1..];
      }
    }
  }

  lemma SortKeepsIds(s: seq<LogEntry>, le: (LogEntry, LogEntry) -> bool)
    requires UniqueIds(s)
    ensures UniqueIds(Sort(s, le))
  {
    var r := Sort(s, le);
    SortKeepsDistinct(s, le);
    forall i, j | 0 <= i < j < |r| ensures r[i].id != r[j].id {
      assert r[i] in s && r[j] in s && r[i] != r[j];
    }
  }

  function BelowTest(c: Cursor): LogEntry -> bool { (e: LogEntry) => Below(KeyOf(e), c) }

  /** After a page, the rows below its last entry are the rest of the rows. */
  lemma RowsAfter(table: seq<LogEntry>, f: Filters, after: Option<Cursor>, k: nat)
    requires 0 < k <= |Rows(table, f, after)| && Descends(Rows(table, f, after))
    ensures Rows(table, f, Some(KeyOf(Rows(table, f, after)[k - 1]))) == Rows(table, f, after)[k..]
  {
    var last := Rows(table, f, after)[k - 1];
    var c := KeyOf(last);
    assert last in Filter(table, Test(f, after));
    FilterTwice(table, Test(f, after), BelowTest(c), Test(f, Some(c)));
    TailOfSorted(Filter(table, Test(f, after)), k);
  }

  lemma SortDescends(s: seq<LogEntry>, target: seq<LogEntry>)
    requires Descends(target) && (forall x :: x in s <==> x in target)
    requires forall i, j :: 0 <= i < j < |s| ==> s[i] != s[j]
    ensures Sort(s, Descending()) == target
  {
    OrdersAreTotal();
    SortIs(s, target, Descending());
  }

  lemma BelowIsLater(rows: seq<LogEntry>, i: nat, j: nat)
    requires Descends(rows) && i < |rows| && j < |rows|
    ensures Below(KeyOf(rows[j]), KeyOf(rows[i])) <==> i < j
  {
  }

  lemma TailOfSorted(s: seq<LogEntry>, k: nat)
    requires 0 < k <= |s| && Descends(Sort(s, Descending()))
    ensures Sort(Filter(s, BelowTest(KeyOf(Sort(s, Descending())[k - 1]))), Descending()) == Sort(s, Descending())[k..]
  {
    var rows := Sort(s, Descending());
    var c := KeyOf(rows[k - 1]);
    var t := Filter(s, BelowTest(c));
    RowsDistinct(rows);
    SortDistinctBack(s, Descending());
    FilterKeepsDistinct(s, BelowTest(c));
    forall x | x in t ensures x in rows[k..] {
      var i :| 0 <= i < |rows| && rows[i] == x;
      BelowIsLater(rows, k - 1, i);
      assert rows[k..][i - k] == x;
    }
    forall x | x in rows[k..] ensures x in t {
      var i :| k <= i < |rows| && rows[i] == x;
      BelowIsLater(rows, k - 1, i);
      assert x in rows;
    }
    SortDescends(t, rows[k..]);
  }

  /** The answer to any cursor, given out or made up, is the part of the one list below it. */
  lemma AnyCursor(table: seq<LogEntry>, f: Filters, c: Cursor)
    requires UniqueIds(table)
    ensures Rows(table, f, Some(c)) == Filter(Rows(table, f, None), BelowTest(c))
  {
    var all := Rows(table, f, None);
    var s, target := Filter(table, Test(f, Some(c))), Filter(all, BelowTest(c));
    RowsDescend(table, f, None);
    FilterKeepsOrder(all, BelowTest(c));
    FilterKeepsDistinct(table, Test(f, Some(c)));
    forall x ensures x in s <==> x in target {
      assert x in all <==> x in Filter(table, Test(f, None));
    }
    SortDescends(s, target);
  }

  lemma {:induction false} FilterKeepsOrder(s: seq<LogEntry>, p: LogEntry -> bool)
    requires Descends(s)
    ensures Descends(Filter(s, p))
  {
    if s != [] {
      FilterKeepsOrder(s[1..], p);
      var rest := Filter(s[1..], p);
      forall j | 0 <= j < |rest| ensures Below(KeyOf(rest[j]), KeyOf(s[0])) {
        assert rest[j] in s[1..];
      }
    }
  }

  lemma RowsDistinct(rows: seq<LogEntry>)
    requires Descends(rows)
    ensures forall i, j :: 0 <= i < j < |rows| ==> rows[i] != rows[j]
  {
  }

  /** If sorting gave distinct elements, they were distinct. */
  lemma SortDistinctBack(s: seq<LogEntry>, le: (LogEntry, LogEntry) -> bool)
    requires forall i, j :: 0 <= i < j < |Sort(s, le)| ==> Sort(s, le)[i] != Sort(s, le)[j]
    ensures forall i, j :: 0 <= i < j < |s| ==> s[i] != s[j]
  {
    forall i, j | 0 <= i < j < |s| ensures s[i] != s[j] {
      if s[i] == s[j] {
        TwiceMultiplicity(s, i, j);
        OnceMultiplicity(Sort(s, le), s[i]);
      }
    }
  }

  /** Entries above the cursor do not change the rows below it. */
  lemma ArrivalsInvisible(table: seq<LogEntry>, batch: seq<LogEntry>, f: Filters, c: Cursor)
    requires forall e :: e in batch ==> !Below(KeyOf(e), c)
    ensures Rows(table + batch, f, Some(c)) == Rows(table, f, Some(c))
  {
    var p := Test(f, Some(c));
    FilterConcat(table, batch, p);
    FilterNone(batch, p);
    assert Filter(table, p) + [] == Filter(table, p);
  }

  /** Each call gives the next piece of the one list. */
  lemma {:induction false} WalkFrom(table: seq<LogEntry>, f: Filters, after: Option<Cursor>, limit: int,
                                    batches: seq<seq<LogEntry>>, rest: seq<LogEntry>)
    requires rest == Rows(table, f, after) && Descends(rest) && ArriveOnTop(table, f, after, limit, batches)
    ensures Walk(table, f, after, limit, batches) == Cut(rest, EffectiveLimit(limit), |batches|)
    decreases |batches|
  {
    if batches != [] {
      var size := EffectiveLimit(limit);
      OneCall(table, f, after, limit, batches);
      CutOnce(rest, size, |batches|);
      if |rest| >= size {
        NextRows(table, f, after, size, batches[0]);
        WalkFrom(table + batches[0], f, Some(KeyOf(rest[size - 1])), limit, batches[1..], rest[size..]);
        assert |batches[1..]| == |batches| - 1;
      }
    }
  }

  lemma CutOnce(rest: seq<LogEntry>, size: nat, calls: nat)
    requires size > 0 && calls > 0
    ensures Cut(rest, size, calls)
         == [PageOf(rest, size)] + if |rest| < size then [] else Cut(rest[size..], size, calls - 1)
  {
  }

  /** The first call, and what is known when the next one is made. */
  lemma OneCall(table: seq<LogEntry>, f: Filters, after: Option<Cursor>, limit: int, batches: seq<seq<LogEntry>>)
    requires batches != [] && ArriveOnTop(table, f, after, limit, batches)
    ensures var rest, size := Rows(table, f, after), EffectiveLimit(limit);
            if |rest| < size then Walk(table, f, after, limit, batches) == [PageOf(rest, size)] else
              var c := KeyOf(rest[size - 1]);
              && Walk(table, f, after, limit, batches)
                 == [PageOf(rest, size)] + Walk(table + batches[0], f, Some(c), limit, batches[1..])
              && ArriveOnTop(table + batches[0], f, Some(c), limit, batches[1..])
              && forall e :: e in batches[0] ==> !Below(KeyOf(e), c)
  {
    PageIs(table, f, after, limit);
  }

  lemma PageIs(table: seq<LogEntry>, f: Filters, after: Option<Cursor>, limit: int)
    ensures Fetch(table, f, after, limit) == PageOf(Rows(table, f, after), EffectiveLimit(limit))
    ensures var rest, size := Rows(table, f, after), EffectiveLimit(limit);
            PageOf(rest, size).nextCursor == if |rest| < size then None else Some(KeyOf(rest[size - 1]))
  {
  }

  lemma NextRows(table: seq<LogEntry>, f: Filters, after: Option<Cursor>, size: nat, batch: seq<LogEntry>)
    requires 0 < size <= |Rows(table, f, after)| && Descends(Rows(table, f, after))
    requires forall e :: e in batch ==> !Below(KeyOf(e), KeyOf(Rows(table, f, after)[size - 1]))
    ensures Rows(table + batch, f, Some(KeyOf(Rows(table, f, after)[size - 1]))) == Rows(table, f, after)[size..]
    ensures Descends(Rows(table, f, after)[size..])
  {
    RowsAfter(table, f, after, size);
    ArrivalsInvisible(table, batch, f, KeyOf(Rows(table, f, after)[size - 1]));
  }
}
