/**
 The table of change-of-value notifications to repeat (main/gateway_bacnet.c). It has a fixed
 number of slots; here it is shown to behave as a map from object to retry time.
 */
module CovRecovery {
  import opened Base

  const MAX_POINTS: nat := 256
  const CAPACITY: nat := MAX_POINTS + 8
  const DIAGNOSTIC_BASE: nat := 9001
  const RETRY_MS: nat := 1000

  /** A BACnet object identifier. */
  datatype Id = Id(objectType: nat, instance: nat)

  datatype Entry = Entry(used: bool, id: Id, due: nat)

  // ----- the table as a map -----

  /** The used entries among the first `n`, as a map. */
  function Pending(table: seq<Entry>, n: nat): (m: map<Id, nat>)
    requires n <= |table|
  {
    if n == 0 then map[]
    else if table[n - 1].used then Pending(table, n - 1)[table[n - 1].id := table[n - 1].due]
    else Pending(table, n - 1)
  }

  function UsedSlots(table: seq<Entry>, n: nat): (count: nat)
    requires n <= |table|
    ensures count <= n
  {
    if n == 0 then 0 else UsedSlots(table, n - 1) + if table[n - 1].used then 1 else 0
  }

  /** At most one entry per object. */
  predicate OneEach(table: seq<Entry>) {
    forall i, j :: 0 <= i < j < |table| && table[i].used && table[j].used ==> table[i].id != table[j].id
  }

  lemma {:induction false} PendingEntries(table: seq<Entry>, n: nat)
    requires n <= |table| && OneEach(table)
    ensures forall id :: id in Pending(table, n) <==> exists i :: 0 <= i < n && table[i].used && table[i].id == id
    ensures forall i :: 0 <= i < n && table[i].used ==>
      table[i].id in Pending(table, n) && Pending(table, n)[table[i].id] == table[i].due
    ensures |Pending(table, n)| == UsedSlots(table, n)
  {
    if n != 0 {
      PendingEntries(table, n - 1);
      if table[n - 1].used {
        assert table[n - 1].id !in Pending(table, n - 1);
      }
    }
  }

  lemma {:induction false} UsedAfterUpdate(table: seq<Entry>, k: nat, e: Entry, n: nat)
    requires k < |table| && n <= |table|
    ensures UsedSlots(table[k := e], n) == UsedSlots(table, n)
      + (if k < n && e.used then 1 else 0) - (if k < n && table[k].used then 1 else 0)
  {
    if n != 0 {
      UsedAfterUpdate(table, k, e, n - 1);
    }
  }

  lemma {:induction false} AllUsed(table: seq<Entry>, n: nat)
    requires n <= |table| && forall i :: 0 <= i < n ==> table[i].used
    ensures UsedSlots(table, n) == n
  {
    if n != 0 {
      AllUsed(table, n - 1);
    }
  }

  // ----- the failed notification -----

  /** The stack's record of a request that was never acknowledged: whether it still has one, the request as it
      was sent, where its header ends, whether it is a message of the network layer, and the service data that
      follows four bytes later as the stack decodes it: how many bytes it takes and whose change it reports. */
  datatype Transaction = Transaction(held: bool, pdu: seq<byte>, offset: int, networkMessage: bool,
                                     decoded: int, id: Id)

  const CONFIRMED_REQUEST: byte := 0
  const COV_NOTIFICATION: byte := 1

  /** The object of the failed notification, if the request is one: a confirmed COV notification with this
      invoke identifier, decoded to its last byte. */
  function FailedNotification(t: Transaction, invoke: byte): Option<Id> {
    if !t.held then None
    else if t.offset <= 0 || t.offset + 4 > |t.pdu| || t.networkMessage then None
    else if t.pdu[t.offset] != CONFIRMED_REQUEST || t.pdu[t.offset + 2] != invoke
            || t.pdu[t.offset + 3] != COV_NOTIFICATION then None
    else if t.decoded != |t.pdu| - t.offset - 4 then None
    else Some(t.id)
  }

  /** What counts as a failed notification: a request that the stack still has, which after its header reads
      "confirmed request, this invoke identifier, COV notification" (clause 20.1.2 of ANSI/ASHRAE 135) and is
      decoded to its last byte. */
  lemma FailedNotificationExactly(t: Transaction, invoke: byte, header: seq<byte>, segments: byte, data: seq<byte>)
    requires t.held && !t.networkMessage && header != [] && t.offset == |header| && t.decoded == |data|
    requires t.pdu == header + [0, segments, invoke, 1] + data
    ensures FailedNotification(t, invoke) == Some(t.id)
    ensures forall other: byte :: other != invoke ==> FailedNotification(t, other) == None
  {
  }

  /** And nothing else does. */
  lemma OnlyFailedNotifications(t: Transaction, invoke: byte)
    requires FailedNotification(t, invoke).Some?
    ensures t.held && !t.networkMessage && 0 < t.offset && t.offset + 4 <= |t.pdu|
    ensures var header, data := t.pdu[..t.offset], t.pdu[t.offset + 4..];
      && t.decoded == |data| && FailedNotification(t, invoke) == Some(t.id)
      && t.pdu == header + [0, t.pdu[t.offset + 1], invoke, 1] + data
  {
    var at := t.offset;
    assert t.pdu[at..at + 4] == [t.pdu[at], t.pdu[at + 1], t.pdu[at + 2], t.pdu[at + 3]];
    assert t.pdu == t.pdu[..at] + t.pdu[at..at + 4] + t.pdu[at + 4..];
  }

  // ----- the code -----

  /** What happens to the table; each object named by a timeout was notified before, so it exists. */
  datatype Event = TimedOut(id: Id, now: nat) | Notified(id: Id)

  /** What one of them does to the map of pending objects. */
  function Effect(m: map<Id, nat>, e: Event): map<Id, nat> {
    match e
    case TimedOut(id, now) => if id in m || |m| == CAPACITY then m else m[id := now + RETRY_MS]
    case Notified(id) => m - {id}
  }

  function Cleared(e: Entry, id: Id): Entry { if e.used && e.id == id then e.(used := false) else e }

  predicate Refreshed(e: Entry, id: Id, now: nat) { e.used && e.id == id && now >= e.due }

  lemma PendingAfterStore(table: seq<Entry>, k: nat, id: Id, due: nat)
    requires k < |table| && OneEach(table) && !table[k].used
    requires forall i :: 0 <= i < |table| ==> !(table[i].used && table[i].id == id)
    ensures var after := table[k := Entry(true, id, due)];
      OneEach(after) && Pending(after, |after|) == Pending(table, |table|)[id := due]
  {
    hide Pending, UsedSlots;
    var after := table[k := Entry(true, id, due)];
    PendingEntries(table, |table|);
    PendingEntries(after, |after|);
    var m, m' := Pending(table, |table|), Pending(after, |after|);
    assert after[k].used;
    forall x | x in m ensures x in m' && m'[x] == m[x] {
      var i :| 0 <= i < |table| && table[i].used && table[i].id == x;
      assert after[i] == table[i];
    }
    forall x | x in m' && x != id ensures x in m {
      var i :| 0 <= i < |after| && after[i].used && after[i].id == x;
      assert after[i] == table[i];
    }
  }

  /** An entry of a pending object. */
  lemma EntryOf(table: seq<Entry>, id: Id) returns (i: nat)
    requires OneEach(table) && id in Pending(table, |table|)
    ensures i < |table| && table[i].used && table[i].id == id && Pending(table, |table|)[id] == table[i].due
  {
    PendingEntries(table, |table|);
    i :| 0 <= i < |table| && table[i].used && table[i].id == id;
  }

  lemma EntryIsPending(table: seq<Entry>, i: nat)
    requires OneEach(table) && i < |table| && table[i].used
    ensures table[i].id in Pending(table, |table|) && Pending(table, |table|)[table[i].id] == table[i].due
  {
    PendingEntries(table, |table|);
  }

  lemma PendingAfterClear(table: seq<Entry>, after: seq<Entry>, id: Id)
    requires OneEach(table) && |after| == |table|
    requires forall k :: 0 <= k < |table| ==> after[k] == Cleared(table[k], id)
    ensures OneEach(after) && Pending(after, |after|) == Pending(table, |table|) - {id}
  {
    hide Pending, UsedSlots;
    var m, m' := Pending(table, |table|), Pending(after, |after|);
    assert OneEach(after);
    forall x | x in m && x != id ensures x in m' && m'[x] == m[x] {
      var i := EntryOf(table, x);
      EntryIsPending(after, i);
    }
    forall x | x in m' ensures x in m && x != id {
      var i := EntryOf(after, x);
      EntryIsPending(table, i);
    }
    assert m'.Keys == (m - {id}).Keys;
  }

  class Recovery {
    const table: array<Entry>
    var pending: nat
    var timeouts: nat
    var refreshes: nat

    /** At most one entry per object, and `cov_pending` counts the used ones. */
    ghost predicate Valid()
      reads this, table
    {
      table.Length == CAPACITY && OneEach(table[..]) && pending == UsedSlots(table[..], CAPACITY)
    }

    /** The objects still to be notified again, with the time from which each is. */
    ghost function Contents(): map<Id, nat>
      reads this, table
      requires table.Length == CAPACITY
    {
      Pending(table[..], CAPACITY)
    }

    constructor ()
      ensures Valid() && fresh(table) && Contents() == map[]
    {
      table := new Entry[CAPACITY](i => Entry(false, Id(0, 0), 0));
      pending, timeouts, refreshes := 0, 0, 0;
      new;
      PendingEntries(table[..], CAPACITY);
      assert Pending(table[..], CAPACITY) == map[];
    }

    /** `cov_timeout`. Anything but a failed notification changes nothing. */
    method Timeout(t: Transaction, invoke: byte, now: nat)
      requires Valid()
      modifies this, table
      ensures Valid() && refreshes == old(refreshes)
      ensures match FailedNotification(t, invoke)
        case None => timeouts == old(timeouts) && Contents() == old(Contents())
        case Some(id) =>
          timeouts == Bump32(old(timeouts)) && Contents() == Effect(old(Contents()), TimedOut(id, now))
    {
      hide Pending, UsedSlots;
      if !t.held {
        return;
      }
      if t.offset <= 0 || t.offset + 4 > |t.pdu| || t.networkMessage || t.pdu[t.offset] != CONFIRMED_REQUEST
         || t.pdu[t.offset + 2] != invoke || t.pdu[t.offset + 3] != COV_NOTIFICATION {
        return;
      }
      if t.decoded != |t.pdu| - t.offset - 4 {
        return;
      }
      timeouts := Bump32(timeouts);
      Remember(t.id, now);
    }

    /** The end of `cov_timeout`. Unless every slot is taken by another object, the object is remembered; one
        already remembered keeps its time. */
    method Remember(id: Id, now: nat)
      requires Valid()
      modifies this`pending, table
      ensures Valid()
      ensures Contents() == Effect(old(Contents()), TimedOut(id, now))
    {
      hide Pending, UsedSlots;
      ghost var before := table[..];
      PendingEntries(before, CAPACITY);
      for i := 0 to CAPACITY
        invariant forall k :: 0 <= k < i ==> !(table[k].used && table[k].id == id)
      {
        if table[i].used && table[i].id == id {
          return;
        }
      }
      for i := 0 to CAPACITY
        invariant forall k :: 0 <= k < i ==> table[k].used
      {
        if !table[i].used {
          table[i] := Entry(true, id, now + RETRY_MS);
          pending := pending + 1;
          assert table[..] == before[i := Entry(true, id, now + RETRY_MS)];
          UsedAfterUpdate(before, i, Entry(true, id, now + RETRY_MS), CAPACITY);
          PendingAfterStore(before, i, id, now + RETRY_MS);
          return;
        }
      }
      AllUsed(before, CAPACITY);
    }

    /** `retry_clear`: the object is forgotten, and counted as refreshed if its retry was due. */
    method Clear(id: Id, now: nat)
      requires Valid()
      modifies this, table
      ensures Valid()
      ensures timeouts == old(timeouts)
      ensures refreshes ==
        if id in old(Contents()) && now >= old(Contents())[id] then Bump32(old(refreshes)) else old(refreshes)
      ensures Contents() == Effect(old(Contents()), Notified(id))
    {
      hide Pending, UsedSlots;
      ghost var before := table[..];
      ghost var count := refreshes;
      PendingEntries(before, CAPACITY);
      for i := 0 to CAPACITY
        invariant forall k :: 0 <= k < i ==> table[k] == Cleared(before[k], id)
        invariant forall k :: i <= k < CAPACITY ==> table[k] == before[k]
        invariant pending == UsedSlots(table[..], CAPACITY)
        invariant timeouts == old(timeouts)
        invariant refreshes == if exists k :: 0 <= k < i && Refreshed(before[k], id, now) then Bump32(count) else count
      {
        ghost var prior := table[..];
        if table[i].used && table[i].id == id {
          assert forall k :: 0 <= k < i ==> !Refreshed(before[k], id, now);
          if now >= table[i].due {
            refreshes := Bump32(refreshes);
            assert Refreshed(before[i], id, now);
          }
          UsedAfterUpdate(prior, i, table[i].(used := false), CAPACITY);
          table[i] := table[i].(used := false);
          assert table[..] == prior[i := table[i]];
          pending := pending - 1;
        }
      }
      PendingAfterClear(before, table[..], id);
    }

    /** `retry_pending`: is the object to be notified again by now? */
    method RetryPending(id: Id, now: nat) returns (yes: bool)
      requires Valid()
      ensures yes <==> id in Contents() && now >= Contents()[id]
    {
      PendingEntries(table[..], CAPACITY);
      for i := 0 to CAPACITY
        invariant forall k :: 0 <= k < i ==> !(table[k].used && table[k].id == id && now >= table[k].due)
      {
        if table[i].used && table[i].id == id && now >= table[i].due {
          return true;
        }
      }
      return false;
    }
  }

  // ----- every run: nothing is dropped -----

  function After(events: seq<Event>): map<Id, nat> {
    if events == [] then map[] else Effect(After(events[..|events| - 1]), events[|events| - 1])
  }

  /** The object timed out in `events` and has not been notified since. */
  predicate Owed(events: seq<Event>, id: Id) {
    events != [] &&
    var last := events[|events| - 1];
    (last.TimedOut? && last.id == id) || (last != Notified(id) && Owed(events[..|events| - 1], id))
  }

  /** The time of the first timeout the object is still owed for. */
  function OwedSince(events: seq<Event>, id: Id): nat
    requires Owed(events, id)
  {
    var earlier := events[..|events| - 1];
    if Owed(earlier, id) then OwedSince(earlier, id) else events[|events| - 1].now
  }

  /** The objects that can be notified: the catalog, four analog and two binary diagnostics. */
  function Notifiable(points: seq<Id>): set<Id> {
    (set p | p in points) + {Id(0, DIAGNOSTIC_BASE), Id(0, DIAGNOSTIC_BASE + 1), Id(0, DIAGNOSTIC_BASE + 2),
                             Id(0, DIAGNOSTIC_BASE + 3), Id(3, DIAGNOSTIC_BASE), Id(3, DIAGNOSTIC_BASE + 1)}
  }

  lemma {:induction false} CatalogSize(points: seq<Id>)
    ensures |(set p | p in points)| <= |points|
  {
    if points == [] {
      assert (set p | p in points) == {};
    } else {
      CatalogSize(points[1..]);
      assert (set p | p in points) == (set p | p in points[1..]) + {points[0]};
    }
  }

  lemma NotifiableFit(points: seq<Id>)
    requires |points| <= 256
    ensures |Notifiable(points)| < 264 == CAPACITY
    ensures Notifiable(points) ==
      (set p | p in points) + {Id(0, 9001), Id(0, 9002), Id(0, 9003), Id(0, 9004), Id(3, 9001), Id(3, 9002)}
  {
    CatalogSize(points);
    var catalog := set p | p in points;
    var diagnostics := Notifiable(points) - catalog;
    assert diagnostics <= {Id(0, DIAGNOSTIC_BASE), Id(0, DIAGNOSTIC_BASE + 1), Id(0, DIAGNOSTIC_BASE + 2),
                           Id(0, DIAGNOSTIC_BASE + 3), Id(3, DIAGNOSTIC_BASE), Id(3, DIAGNOSTIC_BASE + 1)};
    SubsetSize(diagnostics, {Id(0, DIAGNOSTIC_BASE), Id(0, DIAGNOSTIC_BASE + 1), Id(0, DIAGNOSTIC_BASE + 2),
                              Id(0, DIAGNOSTIC_BASE + 3), Id(3, DIAGNOSTIC_BASE), Id(3, DIAGNOSTIC_BASE + 1)});
    assert Notifiable(points) == catalog + diagnostics;
  }

  /** Recovery never drops an object: with at most 256 catalog points, after any history the table holds
      exactly the objects still owed a notification, each from one second after its first timeout, and a
      further timeout of any existing object always finds a slot. */
  lemma {:induction false} NeverDropped(points: seq<Id>, events: seq<Event>)
    requires |points| <= 256
    requires forall k :: 0 <= k < |events| && events[k].TimedOut? ==> events[k].id in Notifiable(points)
    ensures After(events).Keys <= Notifiable(points) && |After(events)| < 264 == CAPACITY
    ensures forall id :: id in After(events) <==> Owed(events, id)
    ensures forall id :: id in After(events) ==> After(events)[id] == OwedSince(events, id) + 1000
  {
    NotifiableFit(points);
    if events != [] {
      NeverDropped(points, events[..|events| - 1]);
    }
    SubsetSize(After(events).Keys, Notifiable(points));
    assert |After(events)| == |After(events).Keys|;
  }
}
