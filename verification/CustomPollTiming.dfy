/**
 What holds over every run of the custom poller: the stale limit covers a healthy sweep, and a
 due point is passed over at most once by every other point.
 */
module CustomPollTiming {
  import opened Base
  import opened Scheduler
  import opened CustomPoint
  import opened CustomPoll

  /** One call of `custom_poll_step`. */
  datatype Call = Call(now: nat, reply: Reply)

  function Run(s: State, map_: seq<Point>, fp: Floats, calls: seq<Call>): (t: State)
    requires s.Valid(map_)
    ensures t.Valid(map_)
    decreases |calls|
  {
    if calls == [] then s
    else Run(Step(s, map_, fp, calls[0].now, calls[0].reply), map_, fp, calls[1..])
  }

  // ----- a healthy sweep -----

  /** The longest a healthy read and the delay of the following call may take together. */
  const BUDGET: nat := 250

  /** From `open` on, the poller may send its next request. */
  ghost predicate Open(s: State, open: nat) {
    open >= s.nextRequest && exists i :: 0 <= i < |s.due| && s.due[i] <= open
  }

  /** A read of point `i` that succeeds within the budget and decodes. */
  ghost predicate GoodRead(s: State, map_: seq<Point>, fp: Floats, call: Call, i: nat)
    requires s.Valid(map_) && i < |map_|
  {
    && Slot(s, call.now) == i
    && call.reply.result.error.Ok? && call.reply.result.elapsedMs <= BUDGET
    && Decoded(map_[i], call.reply.words[..map_[i].wordCount], fp).Some?
  }

  /** Healthy operation from `s` on, for point `i`. Every read succeeds within the budget; what it
      leaves of the budget (`slack`) bounds the delay of the call that sends the next request; and
      replies for point `i` decode. Calls that send nothing may come at any time. */
  ghost predicate Healthy(s: State, map_: seq<Point>, fp: Floats, calls: seq<Call>, slack: nat, i: nat)
    requires s.Valid(map_) && i < |map_|
    decreases |calls|
  {
    calls == [] ||
    var call := calls[0];
    var slot := Slot(s, call.now);
    var elapsed := call.reply.result.elapsedMs;
    && (forall open: nat :: Open(s, open) ==> call.now <= open + slack)
    && (slot < |map_| ==>
          && call.reply.result.error.Ok? && elapsed <= BUDGET
          && (slot == i ==> Decoded(map_[i], call.reply.words[..map_[i].wordCount], fp).Some?))
    && Healthy(Step(s, map_, fp, call.now, call.reply), map_, fp, calls[1..],
               if slot < |map_| then BUDGET - elapsed else slack, i)
  }

  /** The invariant behind the bound: the latest time the next request can go out is less than 500 ms
      per slot that is not ahead of `i` after `i` became due, and the sample of `i` is good and was taken
      one poll period before `i` is due. */
  ghost predicate OnSchedule(s: State, map_: seq<Point>, slack: nat, i: nat)
    requires s.Valid(map_) && i < |map_|
  {
    && slack <= BUDGET
    && s.nextRequest + slack < s.due[i] + 500 * (|map_| - Rank(s.due, i))
    && s.acquired[i] && s.values[i].quality.Good? && s.due[i] == s.values[i].lastGood + map_[i].pollMs
  }

  lemma OnScheduleStep(s: State, map_: seq<Point>, fp: Floats, now: nat, reply: Reply, slack: nat, i: nat)
    requires s.Valid(map_) && i < |map_| && OnSchedule(s, map_, slack, i)
    requires forall open: nat :: Open(s, open) ==> now <= open + slack
    requires Slot(s, now) < |map_|
    requires reply.result.error.Ok? && reply.result.elapsedMs <= BUDGET
    requires Slot(s, now) == i ==> Decoded(map_[i], reply.words[..map_[i].wordCount], fp).Some?
    ensures OnSchedule(Step(s, map_, fp, now, reply), map_, BUDGET - reply.result.elapsedMs, i)
  {
    var slot := Slot(s, now);
    var t := Step(s, map_, fp, now, reply);
    var next := now + reply.result.elapsedMs + map_[slot].pollMs;
    assert t.due == s.due[slot := next];
    assert t.nextRequest + (BUDGET - reply.result.elapsedMs) == now + 500;
    RankBound(t.due, i);
    RankBound(s.due, i);
    if slot != i {
      ServingNeverDelays(s.due, now, i, next);
      if s.due[i] < now {
        assert Open(s, Max(s.nextRequest, s.due[i]));
      }
    }
  }

  /** While the sample of `i` that a state holds is still the newest, it is not stale. */
  lemma FreshUntilNextCall(s: State, map_: seq<Point>, slack: nat, i: nat, now: nat, seen: nat)
    requires s.Valid(map_) && i < |map_| && OnSchedule(s, map_, slack, i)
    requires forall open: nat :: Open(s, open) ==> now <= open + slack
    requires seen <= now + BUDGET
    ensures seen < s.values[i].lastGood + map_[i].pollMs + 500 * |map_| + 250
    ensures Shown(s, map_, i, seen).quality.Good?
  {
    assert Open(s, Max(s.nextRequest, s.due[i]));
    RankBound(s.due, i);
  }

  lemma {:induction false} HealthyRun(s: State, map_: seq<Point>, fp: Floats, calls: seq<Call>, slack: nat,
                                      i: nat, k: nat, seen: nat)
    requires s.Valid(map_) && i < |map_| && k < |calls|
    requires OnSchedule(s, map_, slack, i) && Healthy(s, map_, fp, calls, slack, i)
    requires seen <= calls[k].now + BUDGET
    ensures var t := Run(s, map_, fp, calls[..k]);
      && seen < t.values[i].lastGood + map_[i].pollMs + 500 * |map_| + 250
      && Shown(t, map_, i, seen).quality.Good?
    decreases k
  {
    var call := calls[0];
    if k == 0 {
      FreshUntilNextCall(s, map_, slack, i, call.now, seen);
    } else {
      var slot := Slot(s, call.now);
      var t := Step(s, map_, fp, call.now, call.reply);
      if slot < |map_| {
        OnScheduleStep(s, map_, fp, call.now, call.reply, slack, i);
      }
      HealthyRun(t, map_, fp, calls[1..], if slot < |map_| then BUDGET - call.reply.result.elapsedMs else slack,
                 i, k - 1, seen);
      assert calls[..k][0] == call && calls[..k][1..] == calls[1..][..k - 1];
    }
  }

  /** A good read of point `i` puts it on schedule, whatever happened before. */
  lemma OnScheduleAfterRead(s: State, map_: seq<Point>, fp: Floats, first: Call, i: nat)
    requires s.Valid(map_) && i < |map_| && GoodRead(s, map_, fp, first, i)
    ensures OnSchedule(Step(s, map_, fp, first.now, first.reply), map_, BUDGET - first.reply.result.elapsedMs, i)
  {
    RankBound(Step(s, map_, fp, first.now, first.reply).due, i);
  }

  /** The stale limit covers the worst healthy sweep: for any map and poll periods, whatever happened
      before, from a good read of point `i` on every snapshot taken during healthy operation shows `i`
      good. The snapshot may show the state before call `k` until 250 ms after that call began;
      HealthyLink derives this from the times of publication. */
  lemma StaleLimitCoversSweep(s: State, map_: seq<Point>, fp: Floats, first: Call, calls: seq<Call>,
                              i: nat, k: nat, seen: nat)
    requires s.Valid(map_) && i < |map_| && k < |calls|
    requires GoodRead(s, map_, fp, first, i)
    requires Healthy(Step(s, map_, fp, first.now, first.reply), map_, fp, calls,
                     BUDGET - first.reply.result.elapsedMs, i)
    requires seen <= calls[k].now + BUDGET
    ensures var t := Run(s, map_, fp, [first] + calls[..k]);
      && seen < t.values[i].lastGood + map_[i].pollMs + 500 * |map_| + 250
      && Shown(t, map_, i, seen).quality.Good?
  {
    hide Healthy, Step, OnSchedule, Shown;
    var t := Step(s, map_, fp, first.now, first.reply);
    var slack := BUDGET - first.reply.result.elapsedMs;
    OnScheduleAfterRead(s, map_, fp, first, i);
    HealthyRun(t, map_, fp, calls, slack, i, k, seen);
    assert ([first] + calls[..k])[1..] == calls[..k];
  }

  // ----- how long a due point waits -----

  /** The poll task steps the poller, or takes it offline and lets it send at once. */
  datatype Input = Polled(now: nat, reply: Reply) | LinkLost(now: nat)

  function OthersBefore(s: State, map_: seq<Point>, fp: Floats, inputs: seq<Input>, i: nat): nat
    requires s.Valid(map_)
    decreases |inputs|
  {
    if inputs == [] then 0
    else match inputs[0]
      case LinkLost(now) => OthersBefore(Offline(s).(nextRequest := now), map_, fp, inputs[1..], i)
      case Polled(now, reply) =>
        var slot := Slot(s, now);
        if slot == i then 0
        else (if slot < |map_| then 1 else 0) + OthersBefore(Step(s, map_, fp, now, reply), map_, fp, inputs[1..], i)
  }

  /** Bounded bypass: once point `i` is due, at most its rank — at most count - 1 — other points are
      requested before it, across successes, exceptions, transport failures and link changes. */
  lemma {:induction false} BoundedBypass(s: State, map_: seq<Point>, fp: Floats, inputs: seq<Input>, i: nat)
    requires s.Valid(map_) && i < |map_|
    requires forall k :: 0 <= k < |inputs| ==> inputs[k].now >= s.due[i]
    ensures OthersBefore(s, map_, fp, inputs, i) <= Rank(s.due, i) <= |map_| - 1
    decreases |inputs|
  {
    RankBound(s.due, i);
    if inputs != [] {
      match inputs[0] {
        case LinkLost(now) =>
          BoundedBypass(Offline(s).(nextRequest := now), map_, fp, inputs[1..], i);
        case Polled(now, reply) =>
          var slot := Slot(s, now);
          var next := Step(s, map_, fp, now, reply);
          if slot != i {
            if slot < |map_| {
              var later := next.due[slot];
              assert next.due == s.due[slot := later] && later > now;
              ServingOthersAdvances(s.due, now, i, later);
            }
            BoundedBypass(next, map_, fp, inputs[1..], i);
          }
      }
    }
  }
}
