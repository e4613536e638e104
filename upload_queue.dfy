/**
 * The durable retry queue (`UploadQueue`): an ordered list of pending uploads, a fixed
 * backoff table that gates when a failed item may be tried again, and a write-through
 * copy of the whole list in a store that outlives the process.
 *
 * Time is whole seconds passed in by the caller (`now`); the store is modelled by what
 * it holds, and how each write of it ends is a parameter (`write`) of each mutation.
 */
module Queue {
  import opened Wrappers

  /** One pending upload, with the six fields of a queue record. */
  datatype Item = Item(
    filePath: string,
    caption: string,
    addedAt: int,
    retryCount: nat,
    lastAttempt: Option<int>,
    error: Option<string>)

  /** What the queue file holds: nothing, something that does not parse, or a list of records. */
  datatype Store = Missing | Unparsable | Document(records: seq<Item>)

  /**
   * How one write of the queue file ends. `open(..., 'w')` empties the file before
   * `json.dump` writes it, so a failure after the open leaves a file that no longer parses.
   */
  datatype WriteOutcome =
    | Written      // the whole list reached the file
    | NotOpened    // creating the directory or opening the file failed: the file is untouched
    | Interrupted  // writing or closing failed after the file was emptied

  /** The counters `get_stats` reports. */
  datatype Stats = Stats(total: nat, neverAttempted: nat, retrying: nat, maxRetryCount: nat)

  /** Never attempted exactly when no failure has been counted (true of every record `add` makes). */
  predicate Consistent(it: Item) {
    it.retryCount == 0 <==> it.lastAttempt.None?
  }

  /** The record `add` creates: never attempted, no error, and so never backing off. */
  function NewItem(filePath: string, caption: string, now: int): (it: Item)
    ensures it.filePath == filePath && it.caption == caption && it.addedAt == now
    ensures Consistent(it) && it.error.None?
    ensures forall t :: Eligible(it, t)
  {
    Item(filePath, caption, now, 0, None, None)
  }

  /**
   * The record after one more failed attempt at time `now` with message `msg`: it keeps
   * what identifies the upload, stays consistent, and is backing off at `now`.
   */
  function Failed(it: Item, now: int, msg: string): (r: Item)
    ensures r.filePath == it.filePath && r.caption == it.caption && r.addedAt == it.addedAt
    ensures r.retryCount == it.retryCount + 1 && r.lastAttempt == Some(now) && r.error == Some(msg)
    ensures Consistent(r)
    ensures !Eligible(r, now)
  {
    it.(retryCount := it.retryCount + 1, lastAttempt := Some(now), error := Some(msg))
  }

  predicate AllConsistent(q: seq<Item>) {
    forall i :: 0 <= i < |q| ==> Consistent(q[i])
  }

  // ---------------------------------------------------------------------------
  // Loading

  /** `_load_queue`: a missing or unparsable file gives an empty queue. */
  function Load(store: Store): (q: seq<Item>)
    ensures store.Document? ==> q == store.records
    ensures !store.Document? ==> q == []
  {
    match store
    case Document(records) => records
    case _ => []
  }

  /** What the file holds after a write of `q` that ends with `w`, as the next load reads it. */
  function AfterWrite(before: Store, q: seq<Item>, w: WriteOutcome): (after: Store)
    ensures w == Written ==> Load(after) == q
    ensures w == NotOpened ==> after == before && Load(after) == Load(before)
    ensures w == Interrupted ==> Load(after) == []
  {
    match w
    case Written => Document(q)
    case NotOpened => before
    case Interrupted => Unparsable
  }

  // ---------------------------------------------------------------------------
  // Backoff and eligibility

  /** Seconds an item that has failed `retryCount` times must wait before its next attempt. */
  function Backoff(retryCount: nat): (delay: nat)
    ensures delay <= 300
    ensures delay == 0 <==> retryCount == 0
    ensures retryCount >= 1 ==> delay >= 10
    ensures retryCount >= 5 ==> delay == 300
  {
    if retryCount == 0 then 0
    else if retryCount == 1 then 10
    else if retryCount == 2 then 30
    else if retryCount == 3 then 60
    else if retryCount == 4 then 120
    else 300
  }

  /** The table never decreases. */
  lemma BackoffMonotone(j: nat, k: nat)
    requires j <= k
    ensures Backoff(j) <= Backoff(k)
  {
  }

  /**
   * May the item be attempted at time `now`? A never-attempted item always may; an item
   * that has failed must wait out its backoff, and never more than 300 seconds.
   */
  predicate Eligible(it: Item, now: int): (b: bool)
    ensures it.lastAttempt.None? ==> b
    ensures it.lastAttempt.Some? && now >= it.lastAttempt.value + 300 ==> b
    ensures it.lastAttempt.Some? && it.retryCount >= 1 && now < it.lastAttempt.value + 10 ==> !b
    ensures b && it.lastAttempt.Some? ==> now >= it.lastAttempt.value
  {
    it.lastAttempt.None? || now - it.lastAttempt.value >= Backoff(it.retryCount)
  }

  /** The position of the first eligible item, scanning in insertion order. */
  function FirstEligible(q: seq<Item>, now: int): (r: Option<nat>)
    ensures r.Some? ==> r.value < |q| && Eligible(q[r.value], now)
    ensures r.Some? ==> forall j :: 0 <= j < r.value ==> !Eligible(q[j], now)
    ensures r.None? <==> forall j :: 0 <= j < |q| ==> !Eligible(q[j], now)
  {
    if |q| == 0 then None
    else if Eligible(q[0], now) then Some(0)
    else match FirstEligible(q[1..], now)
      case None => None
      case Some(k) => Some(k + 1)
  }

  /** The item `get_next` hands out. */
  function Selected(q: seq<Item>, now: int): (r: Option<Item>)
    ensures r.None? <==> forall j :: 0 <= j < |q| ==> !Eligible(q[j], now)
    ensures r.Some? ==> exists k :: 0 <= k < |q| && q[k] == r.value && Eligible(r.value, now)
                                 && forall j :: 0 <= j < k ==> !Eligible(q[j], now)
  {
    match FirstEligible(q, now)
    case None => None
    case Some(k) => Some(q[k])
  }

  /** Right after a failure at `now`, the item is in its backoff window. */
  lemma FailedIsBackedOff(it: Item, now: int, msg: string)
    ensures !Eligible(Failed(it, now, msg), now)
  {
  }

  /** A failed item becomes eligible again exactly when the backoff for its new count has elapsed. */
  lemma FailedEligibleAgain(it: Item, failedAt: int, msg: string, now: int)
    ensures Eligible(Failed(it, failedAt, msg), now) <==> now - failedAt >= Backoff(it.retryCount + 1)
  {
  }

  /**
   * However often an item has failed, it waits at most 300 seconds: once five minutes
   * have passed since its last attempt it is eligible.
   */
  lemma BackoffCeiling(it: Item, now: int)
    requires it.lastAttempt.Some? && now - it.lastAttempt.value >= 300
    ensures Eligible(it, now)
  {
  }

  /** Appending a new item never changes which earlier item wins; with none eligible, the new one wins. */
  lemma {:induction false} FirstEligibleAppend(q: seq<Item>, it: Item, now: int)
    requires it.lastAttempt.None?
    ensures FirstEligible(q + [it], now) ==
      if FirstEligible(q, now).Some? then FirstEligible(q, now) else Some(|q|)
  {
    var r, s := FirstEligible(q, now), FirstEligible(q + [it], now);
    assert (q + [it])[|q|] == it;
    assert forall j :: 0 <= j < |q| ==> (q + [it])[j] == q[j];
    if r.Some? {
      assert s.Some?;
      assert !(s.value > r.value) && !(s.value < r.value);
    } else {
      assert s.Some? && s.value == |q|;
    }
  }

  /**
   * Two new items a and b: a goes first; after a fails at time t, b is chosen at t;
   * eleven seconds later (past the 10-second backoff) a is chosen again.
   */
  lemma RetryScenario(a: string, b: string, t: int)
    ensures var q := [NewItem(a, "", t), NewItem(b, "", t)];
      FirstEligible(q, t) == Some(0)
    ensures var q := [NewItem(a, "", t), NewItem(b, "", t)];
      var q2 := FailFirst(q, q[0], t, "timeout");
      FirstEligible(q2, t) == Some(1) && FirstEligible(q2, t + 10) == Some(0)
  {
    var q := [NewItem(a, "", t), NewItem(b, "", t)];
    assert q[0] in q;
    var q2 := FailFirst(q, q[0], t, "timeout");
    assert q2 == [Failed(q[0], t, "timeout"), q[1]];
    assert !Eligible(q2[0], t) && Eligible(q2[1], t) && Eligible(q2[0], t + 10);
  }

  // ---------------------------------------------------------------------------
  // Value-equality lookup, as Python's `list.index` and `list.remove` do it

  /** The position of the first element equal to `x`. */
  function FirstIndex(q: seq<Item>, x: Item): (r: Option<nat>)
    ensures r.None? <==> x !in q
    ensures r.Some? ==> r.value < |q| && q[r.value] == x && x !in q[..r.value]
  {
    if |q| == 0 then None
    else if q[0] == x then Some(0)
    else match FirstIndex(q[1..], x)
      case None => None
      case Some(k) =>
        assert q[..k + 1] == [q[0]] + q[1..][..k];
        Some(k + 1)
  }

  /** An item `get_next` selects is the first element equal to itself: equal items are equally eligible. */
  lemma SelectedIsFirstEqual(q: seq<Item>, now: int)
    requires FirstEligible(q, now).Some?
    ensures FirstIndex(q, q[FirstEligible(q, now).value]) == FirstEligible(q, now)
  {
    assert q[FirstEligible(q, now).value] in q;
  }

  /** `list.remove(x)`: drop the first element equal to `x`; no change when there is none. */
  function RemoveFirst(q: seq<Item>, x: Item): (r: seq<Item>)
    ensures x !in q ==> r == q
    ensures x in q ==> |r| == |q| - 1
    ensures x in q ==> exists k :: 0 <= k < |q| && q[k] == x && x !in q[..k] && r == q[..k] + q[k + 1..]
    ensures x in q ==> multiset(r) + multiset{x} == multiset(q)
  {
    match FirstIndex(q, x)
    case None => q
    case Some(k) =>
      assert q == q[..k] + [q[k]] + q[k + 1..];
      q[..k] + q[k + 1..]
  }

  /** Record a failure on the first element equal to `x`; no change when there is none. */
  function FailFirst(q: seq<Item>, x: Item, now: int, msg: string): (r: seq<Item>)
    ensures |r| == |q|
    ensures x !in q ==> r == q
    ensures x in q ==> exists k :: 0 <= k < |q| && q[k] == x && x !in q[..k] && r == q[k := Failed(x, now, msg)]
  {
    match FirstIndex(q, x)
    case None => q
    case Some(k) => q[k := Failed(q[k], now, msg)]
  }

  /** Acting on a record found at a known position: removal and failure recording at that position. */
  lemma ActAtFirstIndex(q: seq<Item>, x: Item, k: nat, now: int, msg: string)
    requires FirstIndex(q, x) == Some(k)
    ensures RemoveFirst(q, x) == q[..k] + q[k + 1..]
    ensures FailFirst(q, x, now, msg) == q[k := Failed(q[k], now, msg)]
  {
  }

  /** Recording a failure keeps the record's path, caption and enqueue time, and every other record. */
  lemma FailFirstKeepsOthers(q: seq<Item>, x: Item, now: int, msg: string, i: nat)
    requires i < |q|
    ensures var r := FailFirst(q, x, now, msg);
      r[i].filePath == q[i].filePath && r[i].caption == q[i].caption && r[i].addedAt == q[i].addedAt
    ensures var r := FailFirst(q, x, now, msg);
      x !in q || i != FirstIndex(q, x).value ==> r[i] == q[i]
  {
  }

  /** Recording a failure keeps every record consistent. */
  lemma FailFirstConsistent(q: seq<Item>, x: Item, now: int, msg: string)
    requires AllConsistent(q)
    ensures AllConsistent(FailFirst(q, x, now, msg))
  {
  }

  // ---------------------------------------------------------------------------
  // Statistics

  /** The number of records never attempted. */
  function CountNeverAttempted(q: seq<Item>): (n: nat)
    ensures n <= |q|
  {
    if |q| == 0 then 0
    else (if q[0].lastAttempt.None? then 1 else 0) + CountNeverAttempted(q[1..])
  }

  /** The number of records attempted at least once. */
  function CountRetrying(q: seq<Item>): (n: nat)
    ensures n <= |q|
  {
    if |q| == 0 then 0
    else (if q[0].lastAttempt.Some? then 1 else 0) + CountRetrying(q[1..])
  }

  /** Every record is either never attempted or retrying. */
  lemma {:induction false} CountsPartition(q: seq<Item>)
    ensures CountNeverAttempted(q) + CountRetrying(q) == |q|
  {
    if |q| > 0 {
      CountsPartition(q[1..]);
    }
  }

  lemma {:induction false} CountsAppend(a: seq<Item>, b: seq<Item>)
    ensures CountNeverAttempted(a + b) == CountNeverAttempted(a) + CountNeverAttempted(b)
    ensures CountRetrying(a + b) == CountRetrying(a) + CountRetrying(b)
  {
    if |a| > 0 {
      assert (a + b)[1..] == a[1..] + b;
      CountsAppend(a[1..], b);
    } else {
      assert a + b == b;
    }
  }

  /** The largest retry count, or 0 for an empty queue. */
  function MaxRetryCount(q: seq<Item>): (m: nat)
    ensures forall i :: 0 <= i < |q| ==> q[i].retryCount <= m
    ensures |q| > 0 ==> exists i :: 0 <= i < |q| && q[i].retryCount == m
    ensures |q| == 0 ==> m == 0
  {
    if |q| == 0 then 0
    else
      var rest := MaxRetryCount(q[1..]);
      if q[0].retryCount >= rest then q[0].retryCount else rest
  }

  /** `get_stats` on a list of records. */
  function StatsOf(q: seq<Item>): (s: Stats)
    ensures s.total == |q|
    ensures s.neverAttempted + s.retrying == s.total
    ensures s.neverAttempted == CountNeverAttempted(q)
    ensures forall i :: 0 <= i < |q| ==> q[i].retryCount <= s.maxRetryCount
    ensures |q| > 0 ==> exists i :: 0 <= i < |q| && q[i].retryCount == s.maxRetryCount
    ensures q == [] ==> s == Stats(0, 0, 0, 0)
  {
    if |q| == 0 then Stats(0, 0, 0, 0)
    else
      CountsPartition(q);
      Stats(|q|, CountNeverAttempted(q), CountRetrying(q), MaxRetryCount(q))
  }

  /** After `add`: one more record, one more never attempted, the same maximum. */
  lemma StatsAfterAdd(q: seq<Item>, filePath: string, caption: string, now: int)
    ensures var s, t := StatsOf(q), StatsOf(q + [NewItem(filePath, caption, now)]);
      t == Stats(s.total + 1, s.neverAttempted + 1, s.retrying, s.maxRetryCount)
  {
    var it := NewItem(filePath, caption, now);
    CountsAppend(q, [it]);
    assert CountNeverAttempted([it]) == 1 && CountRetrying([it]) == 0;
    var s, t := StatsOf(q), StatsOf(q + [it]);
    var m := MaxRetryCount(q + [it]);
    var w :| 0 <= w < |q + [it]| && (q + [it])[w].retryCount == m;
    if w < |q| {
      assert (q + [it])[w] == q[w];
    }
    if |q| > 0 {
      var v :| 0 <= v < |q| && q[v].retryCount == s.maxRetryCount;
      assert (q + [it])[v] == q[v];
    }
  }

  /** After a successful upload is removed, the total drops by exactly one. */
  lemma StatsAfterRemove(q: seq<Item>, x: Item)
    requires x in q
    ensures StatsOf(RemoveFirst(q, x)).total == StatsOf(q).total - 1
    ensures StatsOf(RemoveFirst(q, x)).maxRetryCount <= StatsOf(q).maxRetryCount
  {
    var r := RemoveFirst(q, x);
    var k :| 0 <= k < |q| && q[k] == x && x !in q[..k] && r == q[..k] + q[k + 1..];
    if |r| > 0 {
      var w :| 0 <= w < |r| && r[w].retryCount == StatsOf(r).maxRetryCount;
      assert r[w] == if w < k then q[w] else q[w + 1];
    }
  }

  /** After a failure is recorded: same total, and the maximum is at least the new count. */
  lemma StatsAfterFailure(q: seq<Item>, x: Item, now: int, msg: string)
    requires x in q
    ensures StatsOf(FailFirst(q, x, now, msg)).total == StatsOf(q).total
    ensures StatsOf(FailFirst(q, x, now, msg)).maxRetryCount >= x.retryCount + 1
    ensures x.lastAttempt.Some? ==> StatsOf(FailFirst(q, x, now, msg)) .neverAttempted == StatsOf(q).neverAttempted
    ensures x.lastAttempt.None? ==> StatsOf(FailFirst(q, x, now, msg)).neverAttempted == StatsOf(q).neverAttempted - 1
  {
    var r := FailFirst(q, x, now, msg);
    var k :| 0 <= k < |q| && q[k] == x && x !in q[..k] && r == q[k := Failed(x, now, msg)];
    assert r[k].retryCount == x.retryCount + 1;
    assert q == q[..k] + [x] + q[k + 1..];
    assert r == q[..k] + [Failed(x, now, msg)] + q[k + 1..];
    CountsAppend(q[..k] + [x], q[k + 1..]);
    CountsAppend(q[..k], [x]);
    CountsAppend(q[..k] + [Failed(x, now, msg)], q[k + 1..]);
    CountsAppend(q[..k], [Failed(x, now, msg)]);
  }

  // ---------------------------------------------------------------------------
  // The queue object

  class UploadQueue {
    /** The records, in insertion order. */
    var items: seq<Item>
    /** What the queue file currently holds. */
    var disk: Store

    /** Opening the queue loads it from its file. */
    constructor (store: Store)
      ensures items == Load(store) && disk == store
    {
      items := Load(store);
      disk := store;
    }

    /**
     * `_save_queue`: the whole list is written; a failure is only logged, and leaves the
     * file as it was when the file could not be opened, or unreadable once it was emptied.
     */
    method Save(write: WriteOutcome)
      modifies this`disk
      ensures write == Written ==> disk == Document(items)
      ensures write == NotOpened ==> disk == old(disk)
      ensures write == Interrupted ==> disk == Unparsable
      ensures disk == AfterWrite(old(disk), items, write)
    {
      match write
      case Written => disk := Document(items);
      case NotOpened =>
      case Interrupted => disk := Unparsable;
    }

    /** Append a never-attempted record and write the queue through. */
    method Add(filePath: string, caption: string, now: int, write: WriteOutcome)
      modifies this
      ensures items == old(items) + [NewItem(filePath, caption, now)]
      ensures |items| == |old(items)| + 1
      ensures items[|items| - 1].filePath == filePath && items[|items| - 1].caption == caption
      ensures items[|items| - 1].retryCount == 0 && items[|items| - 1].lastAttempt.None? && items[|items| - 1].error.None?
      ensures items[..|old(items)|] == old(items)
      ensures AllConsistent(old(items)) ==> AllConsistent(items)
      ensures disk == AfterWrite(old(disk), items, write)
      ensures write == Written ==> Load(disk) == items
    {
      items := items + [NewItem(filePath, caption, now)];
      Save(write);
    }

    /**
     * The first item, in insertion order, that may be attempted at time `now`; None when
     * the queue is empty or every item is still backing off. Reads only.
     */
    method GetNext(now: int) returns (next: Option<Item>)
      ensures next.None? <==> forall j :: 0 <= j < |items| ==> !Eligible(items[j], now)
      ensures next.Some? ==> exists k :: 0 <= k < |items| && items[k] == next.value && Eligible(next.value, now)
                                       && forall j :: 0 <= j < k ==> !Eligible(items[j], now)
      ensures next == Selected(items, now)
    {
      if |items| == 0 {
        return None;
      }
      var i := 0;
      while i < |items|
        invariant 0 <= i <= |items|
        invariant forall j :: 0 <= j < i ==> !Eligible(items[j], now)
      {
        var it := items[i];
        if it.lastAttempt.None? {
          assert FirstEligible(items, now) == Some(i);
          return Some(it);
        }
        var delay := Backoff(it.retryCount);
        if now - it.lastAttempt.value >= delay {
          assert FirstEligible(items, now) == Some(i);
          return Some(it);
        }
        i := i + 1;
      }
      return None;
    }

    /** Remove the first record equal to `item` and write through; unchanged (and not written) if absent. */
    method MarkSuccess(item: Item, write: WriteOutcome)
      modifies this
      ensures items == RemoveFirst(old(items), item)
      ensures item in old(items) ==> |items| == |old(items)| - 1
      ensures item !in old(items) ==> items == old(items) && disk == old(disk)
      ensures item in old(items) ==> disk == AfterWrite(old(disk), items, write)
      ensures item in old(items) && write == Written ==> Load(disk) == items
      ensures AllConsistent(old(items)) ==> AllConsistent(items)
    {
      var idx := FirstIndex(items, item);
      if idx.None? {
        return;
      }
      var k := idx.value;
      items := items[..k] + items[k + 1..];
      Save(write);
    }

    /**
     * On the first record equal to `item`: one more failure, attempted at `now`, with
     * message `error`; write through. Unchanged (and not written) if absent.
     */
    method MarkFailure(item: Item, error: string, now: int, write: WriteOutcome)
      modifies this
      ensures items == FailFirst(old(items), item, now, error)
      ensures item !in old(items) ==> items == old(items) && disk == old(disk)
      ensures item in old(items) ==> disk == AfterWrite(old(disk), items, write)
      ensures item in old(items) && write == Written ==> Load(disk) == items
      ensures AllConsistent(old(items)) ==> AllConsistent(items)
    {
      var idx := FirstIndex(items, item);
      if idx.None? {
        return;
      }
      var k := idx.value;
      items := items[k := Failed(items[k], now, error)];
      Save(write);
    }

    /** The number of records; the same as the `total` that `get_stats` reports. */
    function Size(): (n: nat)
      reads this
      ensures n == GetStats().total
    {
      |items|
    }

    /** `get_stats` on the current records. */
    function GetStats(): (s: Stats)
      reads this
      ensures s.total == |items|
      ensures s.neverAttempted + s.retrying == s.total
      ensures s.neverAttempted == CountNeverAttempted(items)
      ensures forall i :: 0 <= i < |items| ==> items[i].retryCount <= s.maxRetryCount
      ensures |items| > 0 ==> exists i :: 0 <= i < |items| && items[i].retryCount == s.maxRetryCount
      ensures items == [] ==> s == Stats(0, 0, 0, 0)
    {
      StatsOf(items)
    }
  }

  /**
   * Restarting: a queue opened on the file holds what the file holds; after a successful
   * write that is exactly the records, in order, that the writing queue held.
   */
  method Reopen(q: UploadQueue) returns (q2: UploadQueue)
    ensures fresh(q2) && q2.items == Load(q.disk) && q2.disk == q.disk
    ensures q.disk == Document(q.items) ==> q2.items == q.items
  {
    q2 := new UploadQueue(q.disk);
  }

  /**
   * The write is not atomic: when `add` is interrupted after the file was emptied, a restart
   * finds no records at all, however many were pending before.
   */
  method InterruptedAddLosesQueue(q: UploadQueue, filePath: string, caption: string, now: int)
    returns (q2: UploadQueue)
    modifies q
    ensures |old(q.items)| + 1 == |q.items|
    ensures fresh(q2) && q2.items == []
  {
    q.Add(filePath, caption, now, Interrupted);
    q2 := Reopen(q);
  }
}
