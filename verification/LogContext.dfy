/** The window of log entries around one entry. */
module LogContext {
  import opened Collections
  import opened Logs

  /** An entry with the entries just before and just after it, all in order of time. */
  datatype Context = Context(before: seq<LogEntry>, anchor: LogEntry, after: seq<LogEntry>)

  function Get(table: seq<LogEntry>, tenantId: string, id: int): (r: Option<LogEntry>)
    ensures r.Some? ==> r.value in table && r.value.tenantId == tenantId && r.value.id == id
    ensures r.None? ==> forall e :: e in table ==> !(e.tenantId == tenantId && e.id == id)
  {
    if table == [] then None
    else if table[0].tenantId == tenantId && table[0].id == id then Some(table[0])
    else Get(table[1..], tenantId, id)
  }

  predicate Above(a: Cursor, b: Cursor) { Below(b, a) }

  function Older(tenantId: string, c: Cursor): LogEntry -> bool {
    (e: LogEntry) => e.tenantId == tenantId && Below(KeyOf(e), c)
  }

  function Newer(tenantId: string, c: Cursor): LogEntry -> bool {
    (e: LogEntry) => e.tenantId == tenantId && Above(KeyOf(e), c)
  }

  function OfTenant(tenantId: string): LogEntry -> bool { (e: LogEntry) => e.tenantId == tenantId }

  /** The log of a tenant in order of time. */
  function Chronicle(table: seq<LogEntry>, tenantId: string): seq<LogEntry> {
    Sort(Filter(table, OfTenant(tenantId)), Ascending())
  }

  function WindowSize(windowSize: int): (r: nat)
    ensures 1 <= r <= 50
  {
    if windowSize <= 0 || windowSize > 50 then 10 else windowSize
  }

  function Reversed<T>(s: seq<T>): (r: seq<T>)
    ensures |r| == |s|
  {
    seq(|s|, i requires 0 <= i < |s| => s[|s| - 1 - i])
  }

  /** Swapping from both ends. */
  method Reverse<T>(a: array<T>)
    modifies a
    ensures a[..] == Reversed(old(a[..]))
  {
    var i, j := 0, a.Length - 1;
    while i < j
      invariant 0 <= i <= j + 2 && i + j == a.Length - 1
      invariant forall k :: 0 <= k < i || j < k < a.Length ==> a[k] == old(a[a.Length - 1 - k])
      invariant forall k :: i <= k <= j ==> a[k] == old(a[k])
      decreases j - i
    {
      a[i], a[j] := a[j], a[i];
      i, j := i + 1, j - 1;
    }
    forall k | 0 <= k < a.Length ensures a[k] == old(a[a.Length - 1 - k]) {
      if i <= k <= j {
        assert k == a.Length - 1 - k;
      }
    }
  }

  method GetContext(table: seq<LogEntry>, tenantId: string, id: int, windowSize: int)
    returns (r: Result<Context, LogError>)
    requires UniqueIds(table)
    ensures r.Err? <==> forall e :: e in table ==> !(e.tenantId == tenantId && e.id == id)
    ensures r.Err? ==> r.error == LogNotFound
    ensures r.Ok? ==>
              && r.value.anchor in table && r.value.anchor.tenantId == tenantId && r.value.anchor.id == id
              && IsWindow(Chronicle(table, tenantId), r.value, if 1 <= windowSize <= 50 then windowSize else 10)
  {
    var found := Get(table, tenantId, id);
    if found.None? {
      return Err(LogNotFound);
    }
    var anchor := found.value;
    var c := KeyOf(anchor);
    var size := WindowSize(windowSize);
    var rows := Limited(Sort(Filter(table, Older(tenantId, c)), Descending()), size);
    var before := new LogEntry[|rows|](i requires 0 <= i < |rows| => rows[i]);
    assert before[..] == rows;
    Reverse(before);
    var after := Limited(Sort(Filter(table, Newer(tenantId, c)), Ascending()), size);
    WindowAround(table, tenantId, anchor, size);
    return Ok(Context(before[..], anchor, after));
  }

  /** The context is the stretch of the log from `size` entries before the anchor to `size` after it, or to the ends
      of the log. */
  ghost predicate IsWindow(log: seq<LogEntry>, context: Context, size: nat) {
    exists k :: IsWindowAt(log, context, size, k)
  }

  ghost predicate IsWindowAt(log: seq<LogEntry>, context: Context, size: nat, k: nat) {
    && k < |log| && log[k] == context.anchor
    && context.before == log[if k < size then 0 else k - size..k]
    && context.after == log[k + 1..if |log| - k - 1 <= size then |log| else k + 1 + size]
  }

  lemma WindowAround(table: seq<LogEntry>, tenantId: string, anchor: LogEntry, size: nat)
    requires UniqueIds(table) && anchor in table && anchor.tenantId == tenantId
    ensures var before := Limited(Sort(Filter(table, Older(tenantId, KeyOf(anchor))), Descending()), size);
            var after := Limited(Sort(Filter(table, Newer(tenantId, KeyOf(anchor))), Ascending()), size);
            IsWindow(Chronicle(table, tenantId), Context(Reversed(before), anchor, after), size)
  {
    var log := Chronicle(table, tenantId);
    var k := Place(table, tenantId, anchor);
    OlderRows(table, tenantId, k);
    NewerRows(table, tenantId, k);
    SliceAround(log, k, size);
    var context := Context(Reversed(Limited(Reversed(log[..k]), size)), anchor, Limited(log[k + 1..], size));
    assert IsWindowAt(log, context, size, k);
  }

  lemma SliceAround(log: seq<LogEntry>, k: nat, size: nat)
    requires k < |log|
    ensures Reversed(Limited(Reversed(log[..k]), size)) == log[if k < size then 0 else k - size..k]
    ensures Limited(log[k + 1..], size) == log[k + 1..if |log| - k - 1 <= size then |log| else k + 1 + size]
  {
    var from := if k < size then 0 else k - size;
    var nearest := Limited(Reversed(log[..k]), size);
    assert |nearest| == k - from;
    forall i | 0 <= i < k - from ensures Reversed(nearest)[i] == log[from..k][i] {
      assert nearest[k - from - 1 - i] == log[..k][from + i];
    }
    assert Reversed(nearest) == log[from..k];
  }

  /** Oldest first; of entries of one time, the smaller id first. */
  ghost predicate Ascends(s: seq<LogEntry>) {
    forall i, j :: 0 <= i < j < |s| ==>
      s[i].createdAt < s[j].createdAt || (s[i].createdAt == s[j].createdAt && s[i].id < s[j].id)
  }

  /** The log of a tenant is its entries and no other's, in order of time. */
  lemma ChronicleIsTheLog(table: seq<LogEntry>, tenantId: string)
    requires UniqueIds(table)
    ensures Ascends(Chronicle(table, tenantId))
    ensures forall e :: e in Chronicle(table, tenantId) <==> e in table && e.tenantId == tenantId
  {
    assert forall e :: e in Chronicle(table, tenantId) <==> e in Filter(table, OfTenant(tenantId));
    var s, log := Filter(table, OfTenant(tenantId)), Chronicle(table, tenantId);
    OrdersAreTotal();
    SortSorts(s, Ascending());
    FilterKeepsIds(table, OfTenant(tenantId));
    SortKeepsIds(s, Ascending());
    forall i, j | 0 <= i < j < |log| ensures Below(KeyOf(log[i]), KeyOf(log[j])) {
      assert Ascending()(log[i], log[j]);
      assert log[i].id != log[j].id;
    }
  }

  lemma BelowIsEarlier(log: seq<LogEntry>, i: nat, j: nat)
    requires Ascends(log) && i < |log| && j < |log|
    ensures Below(KeyOf(log[i]), KeyOf(log[j])) <==> i < j
  {
  }

  lemma BackwardsDescends(log: seq<LogEntry>, k: nat)
    requires Ascends(log) && k <= |log|
    ensures Descends(Reversed(log[..k]))
  {
    var target := Reversed(log[..k]);
    forall i, j | 0 <= i < j < |target|
      ensures target[i].createdAt > target[j].createdAt
              || (target[i].createdAt == target[j].createdAt && target[i].id > target[j].id)
    {
      assert target[i] == log[k - 1 - i] && target[j] == log[k - 1 - j];
    }
  }

  lemma Place(table: seq<LogEntry>, tenantId: string, anchor: LogEntry) returns (k: nat)
    requires anchor in table && anchor.tenantId == tenantId
    ensures k < |Chronicle(table, tenantId)| && Chronicle(table, tenantId)[k] == anchor
  {
    var log := Chronicle(table, tenantId);
    assert anchor in Filter(table, OfTenant(tenantId));
    assert anchor in log;
    k :| 0 <= k < |log| && log[k] == anchor;
  }

  lemma OlderAre(table: seq<LogEntry>, tenantId: string, k: nat, x: LogEntry)
    requires UniqueIds(table) && k < |Chronicle(table, tenantId)|
    ensures var log := Chronicle(table, tenantId);
            x in Filter(table, Older(tenantId, KeyOf(log[k]))) <==> x in log[..k]
  {
    var log := Chronicle(table, tenantId);
    ChronicleIsTheLog(table, tenantId);
    if x in Filter(table, Older(tenantId, KeyOf(log[k]))) {
      var i := Place(table, tenantId, x);
      BelowIsEarlier(log, i, k);
      assert log[..k][i] == x;
    }
    if x in log[..k] {
      var i :| 0 <= i < k && log[i] == x;
      BelowIsEarlier(log, i, k);
      assert x in log;
    }
  }

  lemma SameBackwards<T>(s: seq<T>, x: T)
    ensures x in Reversed(s) <==> x in s
  {
    if i :| 0 <= i < |s| && s[i] == x {
      assert Reversed(s)[|s| - 1 - i] == x;
    }
  }

  /** The older entries, newest first, are the log up to the anchor backwards. */
  lemma OlderRows(table: seq<LogEntry>, tenantId: string, k: nat)
    requires UniqueIds(table) && k < |Chronicle(table, tenantId)|
    ensures var log := Chronicle(table, tenantId);
            Sort(Filter(table, Older(tenantId, KeyOf(log[k]))), Descending()) == Reversed(log[..k])
  {
    var log := Chronicle(table, tenantId);
    var s, target := Filter(table, Older(tenantId, KeyOf(log[k]))), Reversed(log[..k]);
    ChronicleIsTheLog(table, tenantId);
    FilterKeepsDistinct(table, Older(tenantId, KeyOf(log[k])));
    BackwardsDescends(log, k);
    forall x ensures x in s <==> x in target {
      OlderAre(table, tenantId, k, x);
      SameBackwards(log[..k], x);
    }
    SortDescends(s, target);
  }

  /** The newer entries, oldest first, are the log from after the anchor. */
  lemma NewerRows(table: seq<LogEntry>, tenantId: string, k: nat)
    requires UniqueIds(table) && k < |Chronicle(table, tenantId)|
    ensures var log := Chronicle(table, tenantId);
            Sort(Filter(table, Newer(tenantId, KeyOf(log[k]))), Ascending()) == log[k + 1..]
  {
    var log := Chronicle(table, tenantId);
    var s := Filter(table, Newer(tenantId, KeyOf(log[k])));
    ChronicleIsTheLog(table, tenantId);
    FilterKeepsDistinct(table, Newer(tenantId, KeyOf(log[k])));
    var target := log[k + 1..];
    forall x | x in s ensures x in target {
      var i := Place(table, tenantId, x);
      BelowIsEarlier(log, k, i);
      assert target[i - k - 1] == x;
    }
    forall x | x in target ensures x in s {
      var i :| 0 <= i < |target| && target[i] == x;
      BelowIsEarlier(log, k, k + 1 + i);
      assert x == log[k + 1 + i] && x in log;
    }
    OrdersAreTotal();
    SortIs(s, target, Ascending());
  }
}
