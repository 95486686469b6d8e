/**
 The earliest-due-first scan that both pollers run before a data request, and the
 argument that bounds how often a due slot can be passed over.
 */
module Scheduler {
  import opened Base

  /** Slot `j` is served before slot `i`: smaller due time, ties broken by index. */
  predicate Precedes(due: seq<nat>, j: nat, i: nat)
    requires j < |due| && i < |due|
  {
    due[j] < due[i] || (due[j] == due[i] && j < i)
  }

  /** The slot kept after scanning the first `n` entries; `|due|` when none of them is due. */
  function PickUpTo(due: seq<nat>, now: nat, n: nat): (slot: nat)
    requires n <= |due|
    ensures slot < n || slot == |due|
    ensures slot < n ==> due[slot] <= now
  {
    if n == 0 then |due|
    else
      var best := PickUpTo(due, now, n - 1);
      if due[n - 1] <= now && (best == |due| || due[n - 1] < due[best]) then n - 1 else best
  }

  function Pick(due: seq<nat>, now: nat): (slot: nat)
    ensures slot <= |due|
  {
    PickUpTo(due, now, |due|)
  }

  lemma {:induction false} PickUpToIsEarliest(due: seq<nat>, now: nat, n: nat)
    requires n <= |due|
    ensures var slot := PickUpTo(due, now, n);
      forall j :: 0 <= j < n && due[j] <= now && j != slot ==> slot < n && Precedes(due, slot, j)
  {
    if n != 0 {
      PickUpToIsEarliest(due, now, n - 1);
    }
  }

  /** The scan picks a slot exactly when some slot is due, and it is the least (due, index) key. */
  lemma PickIsEarliest(due: seq<nat>, now: nat)
    ensures var slot := Pick(due, now);
      && (slot < |due| <==> exists j :: 0 <= j < |due| && due[j] <= now)
      && (slot < |due| ==> due[slot] <= now)
      && (slot < |due| ==> forall j :: 0 <= j < |due| && j != slot ==>
            Precedes(due, slot, j) && due[slot] <= due[j] && (due[slot] == due[j] ==> slot < j))
  {
    PickUpToIsEarliest(due, now, |due|);
  }

  /** The scan loop of `custom_poll_step` and `gateway_poll_step`, over the first `count` entries. */
  method SelectDue(due: array<nat>, count: nat, now: nat) returns (slot: nat)
    requires count <= due.Length
    requires now < U64_MAX // the 64-bit millisecond clock has not run out
    ensures slot == Pick(due[..count], now)
  {
    slot := count;
    var earliest := U64_MAX;
    for i := 0 to count
      invariant slot == PickUpTo(due[..count], now, i)
      invariant slot < i ==> earliest == due[slot]
      invariant slot == count ==> earliest == U64_MAX
    {
      if due[i] <= now && due[i] < earliest {
        earliest := due[i];
        slot := i;
      }
    }
  }

  /** The slots that are served before slot `i`. */
  function Ahead(due: seq<nat>, i: nat): set<nat>
    requires i < |due|
  {
    set j: nat | j < |due| && j != i && Precedes(due, j, i)
  }

  function Rank(due: seq<nat>, i: nat): nat
    requires i < |due|
  {
    |Ahead(due, i)|
  }

  function Indices(n: nat): (s: set<nat>)
    ensures forall j: nat :: j in s <==> j < n
    ensures |s| == n
  {
    if n == 0 then {} else Indices(n - 1) + {n - 1}
  }

  /** A slot can be behind every other slot, never behind more. */
  lemma RankBound(due: seq<nat>, i: nat)
    requires i < |due|
    ensures Rank(due, i) <= |due| - 1
  {
    SubsetSize(Ahead(due, i), Indices(|due|) - {i});
  }

  /** Serving another slot while `i` is due, and rescheduling it into the future,
      moves `i` up by exactly one place. */
  lemma ServingOthersAdvances(due: seq<nat>, now: nat, i: nat, next: nat)
    requires i < |due| && due[i] <= now < next
    requires Pick(due, now) != i
    ensures var j := Pick(due, now);
      j < |due| && Rank(due[j := next], i) + 1 == Rank(due, i)
  {
    PickIsEarliest(due, now);
    var j := Pick(due, now);
    var after := due[j := next];
    assert j in Ahead(due, i);
    assert Ahead(after, i) == Ahead(due, i) - {j};
  }

  /** Rescheduling a served slot into the future never pushes another slot back,
      and leaves the served slot behind every slot that is due. */
  lemma ServingNeverDelays(due: seq<nat>, now: nat, i: nat, next: nat)
    requires i < |due| && now < next
    requires Pick(due, now) < |due| && Pick(due, now) != i
    ensures var j := Pick(due, now); Rank(due[j := next], i) <= Rank(due, i)
    ensures var j := Pick(due, now);
      due[i] <= now ==> Rank(due[j := next], i) + 1 == Rank(due, i)
    ensures var j := Pick(due, now);
      due[i] < next ==> Rank(due[j := next], i) <= |due| - 2
  {
    hide Pick;
    PickIsEarliest(due, now);
    var j := Pick(due, now);
    var after := due[j := next];
    assert Ahead(after, i) <= Ahead(due, i);
    SubsetSize(Ahead(after, i), Ahead(due, i));
    if due[i] <= now {
      ServingOthersAdvances(due, now, i, next);
    }
    if due[i] < next {
      assert |Indices(|due|) - {i} - {j}| == |due| - 2;
      assert Indices(|due|) - {i} - {j} == Indices(|due|) - {i, j};
      SubsetSize(Ahead(after, i), Indices(|due|) - {i, j});
    }
  }
}
