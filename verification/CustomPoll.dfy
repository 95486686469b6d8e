/**
 The custom-map poller of main/custom_map.c: one request at a time to the earliest-due point,
 backoff after failures, and a stale limit meant to cover one healthy sweep.
 */
module CustomPoll {
  import opened Base
  import opened Scheduler
  import opened CustomPoint

  const MAX_POINTS: nat := 128

  predicate ValidMap(map_: seq<Point>) {
    |map_| <= MAX_POINTS && forall i :: 0 <= i < |map_| ==> ValidPoint(map_[i])
  }

  /** `custom_poll_t` as a value. */
  datatype State = State(
    values: seq<Value>, due: seq<nat>, acquired: seq<bool>, nextRequest: nat, lastSuccess: nat,
    requests: nat, successes: nat, failures: nat, consecutiveFailures: nat, tid: word,
    lastOffset: word, lastQuantity: nat, lastFunction: nat, lastResult: MbResult)
  {
    predicate Valid(map_: seq<Point>) {
      && ValidMap(map_)
      && |values| == |due| == |acquired| == |map_|
    }
  }

  const UNREAD: Value := Value(None, "", CommFailure, 0, [])

  function Initial(map_: seq<Point>): (s: State)
    requires ValidMap(map_)
    ensures s.Valid(map_)
  {
    var n := |map_|;
    State(seq(n, i => UNREAD), seq(n, i => 0), seq(n, i => false), 0, 0, 0, 0, 0, 0, 0, 0, 0, 0, MbResult(Ok, 0, 0, 0))
  }

  function Faulted(values: seq<Value>): (after: seq<Value>)
    ensures |after| == |values|
    ensures forall i :: 0 <= i < |values| ==> after[i] == values[i].(quality := CommFailure)
  {
    seq(|values|, i requires 0 <= i < |values| => values[i].(quality := CommFailure))
  }

  function Offline(s: State): State { s.(values := Faulted(s.values)) }

  /** A request goes out at `now`, to this slot; `|map|` when none does. */
  function Slot(s: State, now: nat): (slot: nat)
    ensures slot <= |s.due|
  {
    if now < s.nextRequest then |s.due| else Pick(s.due, now)
  }

  function Sent(s: State, p: Point, now: nat, reply: Reply): State {
    s.(lastOffset := p.offset, lastQuantity := p.wordCount, lastFunction := p.function_,
       requests := Bump32(s.requests), tid := Bump16(s.tid), lastResult := reply.result,
       nextRequest := now + reply.result.elapsedMs + 250)
  }

  function Succeeded(s: State, p: Point, slot: nat, completed: nat, words: Buffer, fp: Floats): State
    requires slot < |s.values| == |s.due| == |s.acquired| && ValidPoint(p)
  {
    var read := words[..p.wordCount];
    s.(consecutiveFailures := 0, successes := Bump32(s.successes), lastSuccess := completed,
       values := s.values[slot := Applied(p, read, fp, completed, s.values[slot])],
       acquired := if Decoded(p, read, fp).Some? then s.acquired[slot := true] else s.acquired,
       due := s.due[slot := completed + p.pollMs])
  }

  /** The saturating failure counter. */
  function BumpSaturating(n: nat): nat { if n < U32_MAX then n + 1 else n }

  function FailedRead(s: State, p: Point, slot: nat, completed: nat, exceptionCode: byte): State
    requires slot < |s.values| == |s.due|
  {
    var consecutive := BumpSaturating(s.consecutiveFailures);
    var values := s.values[slot := s.values[slot].(quality := CommFailure)];
    s.(failures := Bump32(s.failures), consecutiveFailures := consecutive,
       values := if exceptionCode == 0 then Faulted(values) else values,
       due := s.due[slot := completed + Max(p.pollMs, 5000)],
       nextRequest := completed + Backoff(consecutive))
  }

  /** `custom_poll_step`. */
  function Step(s: State, map_: seq<Point>, fp: Floats, now: nat, reply: Reply): (t: State)
    requires s.Valid(map_)
    ensures t.Valid(map_)
  {
    var slot := Slot(s, now);
    if slot == |map_| then s
    else
      var p := map_[slot];
      var completed := now + reply.result.elapsedMs;
      var sent := Sent(s, p, now, reply);
      if reply.result.error.Ok? then Succeeded(sent, p, slot, completed, reply.words, fp)
      else FailedRead(sent, p, slot, completed, reply.result.exceptionCode)
  }

  /** `custom_map_stale_ms` for a point of the map. */
  function StaleMs(map_: seq<Point>, i: nat): nat
    requires i < |map_|
  {
    Max(Max(3 * map_[i].pollMs, 750 * |map_| + 1200), 5000)
  }

  /** A point of `custom_poll_snapshot`. */
  function Shown(s: State, map_: seq<Point>, i: nat, now: nat): Value
    requires i < |map_| == |s.values| == |s.acquired|
  {
    var value := s.values[i];
    if s.acquired[i] && now >= value.lastGood && now - value.lastGood > StaleMs(map_, i)
    then value.(quality := CommFailure) else value
  }

  // ----- what each call comes to -----

  /** Power-up: nothing was ever read, and everything is due at once. */
  lemma PowerUp(map_: seq<Point>)
    requires ValidMap(map_)
    ensures var s := Initial(map_);
      && (forall i :: 0 <= i < |map_| ==>
            && s.values[i].quality.CommFailure? && s.values[i].numeric.None? && s.values[i].text == ""
            && s.values[i].lastGood == 0 && s.values[i].raw == [] && s.due[i] == 0 && !s.acquired[i])
      && s.nextRequest == s.lastSuccess == s.requests == s.successes == s.failures == s.consecutiveFailures == 0
      && s.tid == s.lastOffset == 0 && s.lastQuantity == s.lastFunction == 0 && s.lastResult == MbResult(Ok, 0, 0, 0)
  {
  }

  /** Nothing is sent, and nothing changes, exactly while the pause lasts or no point is due. */
  lemma NothingSent(s: State, map_: seq<Point>, fp: Floats, now: nat, reply: Reply)
    requires s.Valid(map_)
    ensures Slot(s, now) == |map_| <==> now < s.nextRequest || forall i :: 0 <= i < |map_| ==> now < s.due[i]
    ensures Slot(s, now) == |map_| ==> Step(s, map_, fp, now, reply) == s
  {
    PickIsEarliest(s.due, now);
  }

  /** What is left of a request, whatever came of it. */
  lemma RequestNoted(s: State, map_: seq<Point>, fp: Floats, now: nat, reply: Reply)
    requires s.Valid(map_) && Slot(s, now) < |map_|
    ensures var t, p := Step(s, map_, fp, now, reply), map_[Slot(s, now)];
      && t.lastOffset == p.offset && t.lastQuantity == p.wordCount && t.lastFunction == p.function_
      && t.requests == (s.requests + 1) % 0x1_0000_0000 && t.tid == (s.tid + 1) % 0x1_0000
      && t.lastResult == reply.result
  {
  }

  /** An answer, `completed` after the request was sent. Of the samples only that of point `i` changes: it is
      replaced if the words decode, and else marked unverified. The point is due again a poll period later. */
  lemma Answered(s: State, map_: seq<Point>, fp: Floats, now: nat, reply: Reply, i: nat)
    requires s.Valid(map_) && i < |map_| && Slot(s, now) == i && reply.result.error.Ok?
    ensures var t := Step(s, map_, fp, now, reply);
      var completed, words := now + reply.result.elapsedMs, reply.words[..map_[i].wordCount];
      && t.nextRequest == completed + 250 && t.lastSuccess == completed && t.consecutiveFailures == 0
      && t.successes == (s.successes + 1) % 0x1_0000_0000 && t.failures == s.failures
      && t.due == s.due[i := completed + map_[i].pollMs]
      && (match Decoded(map_[i], words, fp)
          case None => t.acquired == s.acquired && t.values == s.values[i := s.values[i].(quality := Unverified)]
          case Some(reading) =>
            && t.acquired == s.acquired[i := true]
            && t.values == s.values[i := Value(if reading.Number? then Some(reading.n) else s.values[i].numeric,
                                               if reading.Text? then reading.t else s.values[i].text,
                                               Good, completed, words)])
  {
  }

  /** A failure. The point is due again after its poll period, but not before five seconds; nothing is sent for
      five seconds for each failure in a row, at most thirty. A device that answered with an exception costs
      this point its quality, any other failure all of them; no number, text or time is lost. */
  lemma Refused(s: State, map_: seq<Point>, fp: Floats, now: nat, reply: Reply, i: nat)
    requires s.Valid(map_) && i < |map_| && Slot(s, now) == i && !reply.result.error.Ok?
    ensures var t := Step(s, map_, fp, now, reply);
      var completed := now + reply.result.elapsedMs;
      && t.consecutiveFailures == (if s.consecutiveFailures < 0xffff_ffff then s.consecutiveFailures + 1
                                   else s.consecutiveFailures)
      && t.nextRequest == completed + (if t.consecutiveFailures >= 6 then 30000 else 5000 * t.consecutiveFailures)
      && t.failures == (s.failures + 1) % 0x1_0000_0000 && t.successes == s.successes && t.lastSuccess == s.lastSuccess
      && t.due == s.due[i := completed + if map_[i].pollMs > 5000 then map_[i].pollMs else 5000]
      && t.acquired == s.acquired
      && forall j :: 0 <= j < |map_| ==>
           t.values[j] == if j == i || reply.result.exceptionCode == 0 then s.values[j].(quality := CommFailure)
                          else s.values[j]
  {
  }

  /** Taking the poller offline costs every point its quality and nothing else. */
  lemma OfflineExactly(s: State)
    ensures var t := Offline(s);
      && |t.values| == |s.values| && t == s.(values := t.values)
      && forall i :: 0 <= i < |s.values| ==> t.values[i] == s.values[i].(quality := CommFailure)
  {
  }

  /** When a snapshot gives up on a sample: exactly when it is older than five seconds, than three poll
      periods and than 750 ms for each point of the map and 1200 ms more. Nothing else of it changes. */
  lemma ShownExactly(s: State, map_: seq<Point>, i: nat, now: nat)
    requires i < |map_| == |s.values| == |s.acquired|
    ensures var value, age := s.values[i], now - s.values[i].lastGood;
      Shown(s, map_, i, now) ==
        if s.acquired[i] && age > 5000 && age > 3 * map_[i].pollMs && age > 750 * |map_| + 1200
        then value.(quality := CommFailure) else value
  {
  }

  // ----- the code -----

  class Poller {
    const map_: seq<Point>
    const fp: Floats
    const values: array<Value>
    const due: array<nat>
    const acquired: array<bool>
    var nextRequest: nat
    var lastSuccess: nat
    var requests: nat
    var successes: nat
    var failures: nat
    var consecutiveFailures: nat
    var tid: word
    var lastOffset: word
    var lastQuantity: nat
    var lastFunction: nat
    var lastResult: MbResult

    ghost predicate Valid()
      reads this, values, due, acquired
    {
      View().Valid(map_)
    }

    ghost function View(): State
      reads this, values, due, acquired
    {
      State(values[..], due[..], acquired[..], nextRequest, lastSuccess, requests, successes, failures,
            consecutiveFailures, tid, lastOffset, lastQuantity, lastFunction, lastResult)
    }

    constructor (map_: seq<Point>, fp: Floats)
      requires ValidMap(map_)
      ensures this.map_ == map_ && this.fp == fp
      ensures fresh(values) && fresh(due) && fresh(acquired)
      ensures Valid() && View() == Initial(map_)
    {
      this.map_, this.fp := map_, fp;
      values := new Value[|map_|](i => UNREAD);
      due := new nat[|map_|](i => 0);
      acquired := new bool[|map_|](i => false);
      nextRequest, lastSuccess := 0, 0;
      requests, successes, failures, consecutiveFailures := 0, 0, 0, 0;
      tid, lastOffset, lastQuantity, lastFunction := 0, 0, 0, 0;
      lastResult := MbResult(Ok, 0, 0, 0);
      new;
      assert values[..] == Initial(map_).values;
      assert due[..] == Initial(map_).due;
      assert acquired[..] == Initial(map_).acquired;
    }

    method GoOffline()
      requires Valid()
      modifies values
      ensures Valid() && View() == Offline(old(View()))
    {
      ghost var before := values[..];
      for i := 0 to |map_|
        invariant values.Length == |before|
        invariant forall j :: 0 <= j < i ==> values[j] == before[j].(quality := CommFailure)
        invariant forall j :: i <= j < |map_| ==> values[j] == before[j]
      {
        values[i] := values[i].(quality := CommFailure);
      }
      assert values[..] == Faulted(before);
    }

    method NoteRequest(p: Point, now: nat, reply: Reply)
      requires Valid()
      modifies this
      ensures Valid() && View() == Sent(old(View()), p, now, reply)
    {
      lastOffset, lastQuantity, lastFunction := p.offset, p.wordCount, p.function_;
      requests := Bump32(requests);
      tid := Bump16(tid);
      lastResult := reply.result;
      nextRequest := now + reply.result.elapsedMs + 250;
    }

    method NoteSuccess(slot: nat, completed: nat, words: Buffer)
      requires Valid() && slot < |map_|
      modifies this, values, due, acquired
      ensures Valid() && View() == Succeeded(old(View()), map_[slot], slot, completed, words, fp)
    {
      var p := map_[slot];
      consecutiveFailures := 0;
      successes := Bump32(successes);
      lastSuccess := completed;
      var ok, next := ApplyPoint(p, words[..p.wordCount], fp, completed, values[slot]);
      values[slot] := next;
      if ok {
        acquired[slot] := true;
      }
      due[slot] := completed + p.pollMs;
      assert due[..] == old(due[..])[slot := completed + p.pollMs];
    }

    method NoteFailure(slot: nat, completed: nat, exceptionCode: byte)
      requires Valid() && slot < |map_|
      modifies this, values, due
      ensures Valid() && View() == FailedRead(old(View()), map_[slot], slot, completed, exceptionCode)
    {
      var p := map_[slot];
      failures := Bump32(failures);
      if consecutiveFailures < U32_MAX {
        consecutiveFailures := consecutiveFailures + 1;
      }
      values[slot] := values[slot].(quality := CommFailure);
      due[slot] := completed + (if p.pollMs > 5000 then p.pollMs else 5000);
      assert due[..] == old(due[..])[slot := completed + Max(p.pollMs, 5000)];
      assert values[..] == old(values[..])[slot := old(values[slot]).(quality := CommFailure)];
      if exceptionCode == 0 {
        GoOffline();
      }
      var wait := if consecutiveFailures < 6 then consecutiveFailures * 5000 else 30000;
      nextRequest := completed + wait;
    }

    /** `custom_poll_step`; `reply` is what the request would be answered with, if one is sent. */
    method Poll(now: nat, reply: Reply) returns (sent: bool)
      requires Valid() && now < U64_MAX
      modifies this, values, due, acquired
      ensures Valid() && View() == Step(old(View()), map_, fp, now, reply)
      ensures sent <==> Slot(old(View()), now) < |map_|
    {
      if now < nextRequest {
        return false;
      }
      var slot := SelectDue(due, |map_|, now);
      assert due[..|map_|] == due[..];
      if slot == |map_| {
        return false;
      }
      NoteRequest(map_[slot], now, reply);
      var completed := now + reply.result.elapsedMs;
      if reply.result.error.Ok? {
        NoteSuccess(slot, completed, reply.words);
      } else {
        NoteFailure(slot, completed, reply.result.exceptionCode);
      }
      return true;
    }

    method Snapshot(now: nat, shown: array<Value>)
      requires Valid() && shown.Length == |map_| && shown != values
      modifies shown
      ensures forall i :: 0 <= i < |map_| ==> shown[i] == Shown(View(), map_, i, now)
    {
      forall i | 0 <= i < |map_| {
        shown[i] := values[i];
      }
      for i := 0 to |map_|
        invariant forall j :: 0 <= j < i ==> shown[j] == Shown(View(), map_, j, now)
        invariant forall j :: i <= j < |map_| ==> shown[j] == values[j]
      {
        var stale := StaleMs(map_, i);
        if acquired[i] && now >= shown[i].lastGood && now - shown[i].lastGood > stale {
          shown[i] := shown[i].(quality := CommFailure);
        }
      }
    }
  }
}
