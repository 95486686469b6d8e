/**
 The pause between two requests to the device (main/custom_map.h:64): at least 250 ms after a request has
 completed, as long as the network does not change, and what is left of it when it does. For both pollers,
 from any state, for any replies.
 */
module RequestGap {
  import opened Base
  import Scheduler
  import GatewayPoll
  import GatewayPollSafety
  import CustomPoint
  import CustomPoll
  import CustomPollTiming

  const GAP: nat := 250

  // ----- ATS poller -----

  type AtsState = GatewayPoll.State
  type AtsInput = GatewayPollSafety.Input

  /** The input is a call that sends a request. */
  predicate AtsSends(s: AtsState, input: AtsInput)
    requires s.Valid()
  {
    && input.Call? && input.now >= s.nextRequest
    && !GatewayPoll.Plan(GatewayPoll.Recheck(s, input.now), input.now).Nothing?
  }

  function AtsNext(s: AtsState, cfg: GatewayPoll.Config, input: AtsInput): (t: AtsState)
    requires s.Valid()
    ensures t.Valid()
  {
    match input
    case Call(now, reply) => GatewayPoll.Step(s, cfg, now, reply)
    case LinkLost(now) => GatewayPoll.Offline(s, now).(nextRequest := now)
  }

  function AtsAfter(s: AtsState, cfg: GatewayPoll.Config, inputs: seq<AtsInput>): (t: AtsState)
    requires s.Valid()
    ensures t.Valid()
  {
    if inputs == [] then s else AtsNext(AtsAfter(s, cfg, inputs[..|inputs| - 1]), cfg, inputs[|inputs| - 1])
  }

  /** None of the inputs sends a request. */
  predicate AtsQuiet(s: AtsState, cfg: GatewayPoll.Config, inputs: seq<AtsInput>)
    requires s.Valid()
  {
    inputs == [] ||
    (&& AtsQuiet(s, cfg, inputs[..|inputs| - 1])
     && !AtsSends(AtsAfter(s, cfg, inputs[..|inputs| - 1]), inputs[|inputs| - 1]))
  }

  /** When the link was last lost, if it was. */
  function AtsLastLoss(inputs: seq<AtsInput>): Option<nat> {
    if inputs == [] then None
    else
      var last := inputs[|inputs| - 1];
      if last.LinkLost? then Some(last.now) else AtsLastLoss(inputs[..|inputs| - 1])
  }

  /** A request closes the poller for at least the gap, whatever is answered. */
  lemma AtsRequestCloses(s: AtsState, cfg: GatewayPoll.Config, input: AtsInput)
    requires s.Valid() && AtsSends(s, input)
    ensures AtsNext(s, cfg, input).nextRequest >= input.now + input.reply.result.elapsedMs + GAP
  {
  }

  lemma AtsQuietStep(s: AtsState, cfg: GatewayPoll.Config, input: AtsInput)
    requires s.Valid() && !AtsSends(s, input)
    ensures var t := AtsNext(s, cfg, input);
      && t.nextRequest == (if input.LinkLost? then input.now else s.nextRequest)
      && (input.LinkLost? || !s.valid ==> !t.valid)
  {
  }

  /** Until the next request, only the loss of the link moves the time from which one may be sent. */
  lemma {:induction false} AtsQuietRun(s: AtsState, cfg: GatewayPoll.Config, inputs: seq<AtsInput>)
    requires s.Valid() && AtsQuiet(s, cfg, inputs)
    ensures var t, loss := AtsAfter(s, cfg, inputs), AtsLastLoss(inputs);
      if loss.None? then t.nextRequest == s.nextRequest else t.nextRequest == loss.value && !t.valid
  {
    if inputs != [] {
      var before := inputs[..|inputs| - 1];
      AtsQuietRun(s, cfg, before);
      AtsQuietStep(AtsAfter(s, cfg, before), cfg, inputs[|inputs| - 1]);
    }
  }

  /** Where the ATS poller stands when nothing was sent since `first`. */
  function AtsSince(s: AtsState, cfg: GatewayPoll.Config, first: AtsInput, between: seq<AtsInput>): (t: AtsState)
    requires s.Valid()
    ensures t.Valid()
  {
    AtsAfter(AtsNext(s, cfg, first), cfg, between)
  }

  /** The gap: two successive requests with no loss of the link between them are at least 250 ms apart,
      from completion to start. After a loss only the time of the loss is left to wait for. */
  lemma AtsGap(s: AtsState, cfg: GatewayPoll.Config, first: AtsInput, between: seq<AtsInput>, last: AtsInput)
    requires s.Valid() && AtsSends(s, first) && AtsQuiet(AtsNext(s, cfg, first), cfg, between)
    requires AtsSends(AtsSince(s, cfg, first, between), last)
    ensures var loss := AtsLastLoss(between);
      last.now >= if loss.None? then first.now + first.reply.result.elapsedMs + GAP else loss.value
  {
    hide AtsNext;
    AtsRequestCloses(s, cfg, first);
    AtsQuietRun(AtsNext(s, cfg, first), cfg, between);
  }

  /** An unidentified controller is asked for its identity as soon as the poller is open. */
  lemma UnidentifiedSends(s: AtsState, now: nat, reply: Reply)
    requires s.Valid() && !s.valid && now >= s.nextRequest
    ensures AtsSends(s, GatewayPollSafety.Call(now, reply))
  {
  }

  /** The gap is certain if and only if the link was not lost since the request, or lost so late that the
      gap was over. */
  lemma AtsGapExactly(s: AtsState, cfg: GatewayPoll.Config, first: AtsInput, between: seq<AtsInput>)
    requires s.Valid() && AtsSends(s, first) && AtsQuiet(AtsNext(s, cfg, first), cfg, between)
    ensures var over := first.now + first.reply.result.elapsedMs + GAP;
      var loss := AtsLastLoss(between);
      (forall last :: AtsSends(AtsSince(s, cfg, first, between), last) ==> last.now >= over)
        <==> loss.None? || loss.value >= over
  {
    hide AtsNext;
    var t, loss := AtsSince(s, cfg, first, between), AtsLastLoss(between);
    AtsQuietRun(AtsNext(s, cfg, first), cfg, between);
    forall last | AtsSends(t, last)
      ensures last.now >= if loss.None? then first.now + first.reply.result.elapsedMs + GAP else loss.value
    {
      AtsGap(s, cfg, first, between, last);
    }
    if loss.Some? {
      UnidentifiedSends(t, loss.value, first.reply);
    }
  }

  /** The poll loop pauses for this long after each iteration (main/app_main.c:189). */
  const LOOP_DELAY_MS: nat := 25

  /** How short the gap can be: the link changes while a request is answered, which takes the poller offline at
      the end of this iteration and at the start of the next one, and that one sends at once. */
  lemma AtsGapShort(cfg: GatewayPoll.Config, reply: Reply, next: Reply)
    ensures var s := GatewayPoll.Initial();
      var completed := reply.result.elapsedMs;
      var resumed := completed + LOOP_DELAY_MS;
      var first := GatewayPollSafety.Call(0, reply);
      var between := [GatewayPollSafety.LinkLost(completed), GatewayPollSafety.LinkLost(resumed)];
      var last := GatewayPollSafety.Call(resumed, next);
      && AtsSends(s, first) && AtsQuiet(AtsNext(s, cfg, first), cfg, between)
      && AtsSends(AtsSince(s, cfg, first, between), last) && last.now == completed + 25
  {
    var s, completed := GatewayPoll.Initial(), reply.result.elapsedMs;
    var resumed := completed + LOOP_DELAY_MS;
    var first := GatewayPollSafety.Call(0, reply);
    var between := [GatewayPollSafety.LinkLost(completed), GatewayPollSafety.LinkLost(resumed)];
    UnidentifiedSends(s, 0, reply);
    assert between[..1] == [between[0]] && between[..1][..0] == [];
    AtsQuietRun(AtsNext(s, cfg, first), cfg, between);
    UnidentifiedSends(AtsSince(s, cfg, first, between), resumed, next);
  }

  /** A request that fails; the refusal by which the old map is recognized does not count. */
  predicate AtsFails(s: AtsState, input: AtsInput)
    requires s.Valid()
  {
    && AtsSends(s, input) && !input.reply.result.error.Ok?
    && !(var ready := GatewayPoll.Recheck(s, input.now);
         !ready.valid && GatewayPoll.ExpectedException(ready.stage, input.reply))
  }

  /** The counter of failures in a row wraps. Except for a refused identity read, the pause of at least
      five seconds after a failed request is kept if and only if the counter does not come out as 0. */
  lemma AtsFailurePauseExactly(s: AtsState, cfg: GatewayPoll.Config, input: AtsInput)
    requires s.Valid() && AtsFails(s, input)
    ensures var completed := input.now + input.reply.result.elapsedMs;
      AtsNext(s, cfg, input).nextRequest >= completed + 5000 <==>
        || Bump32(s.consecutiveFailures) != 0
        || (!GatewayPoll.Recheck(s, input.now).valid && input.reply.result.exceptionCode != 0)
  {
  }

  const TIMED_OUT: Reply := Reply(MbResult(Timeout, 0, 1200, 0), seq(MB_MAX_REGISTERS, i => 0))

  /** `n` calls a minute apart, none of them answered. */
  function Unanswered(n: nat): (inputs: seq<AtsInput>)
    ensures |inputs| == n
  {
    seq(n, k requires 0 <= k < n => GatewayPollSafety.Call(k * 60000, TIMED_OUT))
  }

  lemma UnansweredStep(s: AtsState, cfg: GatewayPoll.Config, now: nat)
    requires s.Valid() && !s.valid && s.stage == 0 && s.nextRequest <= now && s.consecutiveFailures < U32_RANGE
    ensures var t := AtsNext(s, cfg, GatewayPollSafety.Call(now, TIMED_OUT));
      && AtsFails(s, GatewayPollSafety.Call(now, TIMED_OUT))
      && !t.valid && t.stage == 0 && t.nextRequest <= now + 60000
      && t.consecutiveFailures == Bump32(s.consecutiveFailures)
      && (t.consecutiveFailures == 0 ==> t.nextRequest == now + 1200 + GAP)
  {
  }

  lemma CountWraps(n: nat)
    ensures Bump32(n % U32_RANGE) == (n + 1) % U32_RANGE
  {
  }

  /** Each of them is a failed request, and the counter counts them modulo 2^32. */
  lemma {:induction false} UnansweredRun(cfg: GatewayPoll.Config, n: nat)
    ensures var t := AtsAfter(GatewayPoll.Initial(), cfg, Unanswered(n));
      && !t.valid && t.stage == 0 && t.nextRequest <= n * 60000 && t.consecutiveFailures == n % U32_RANGE
      && AtsFails(t, GatewayPollSafety.Call(n * 60000, TIMED_OUT))
  {
    hide AtsNext, AtsFails, Bump32;
    if n > 0 {
      UnansweredRun(cfg, n - 1);
      assert Unanswered(n)[..n - 1] == Unanswered(n - 1);
      CountWraps(n - 1);
      var before := AtsAfter(GatewayPoll.Initial(), cfg, Unanswered(n - 1));
      UnansweredStep(before, cfg, (n - 1) * 60000);
    }
    UnansweredStep(AtsAfter(GatewayPoll.Initial(), cfg, Unanswered(n)), cfg, n * 60000);
  }

  /** So the counter does wrap: the last of 2^32 failures in a row leaves only the gap. */
  lemma AtsFailurePauseLost(cfg: GatewayPoll.Config)
    ensures var s := AtsAfter(GatewayPoll.Initial(), cfg, Unanswered(U32_MAX));
      var last := GatewayPollSafety.Call(U32_MAX * 60000, TIMED_OUT);
      && AtsFails(s, last) && s.consecutiveFailures == U32_MAX
      && AtsNext(s, cfg, last).nextRequest == last.now + last.reply.result.elapsedMs + GAP
  {
    hide Unanswered;
    UnansweredRun(cfg, U32_MAX);
    UnansweredStep(AtsAfter(GatewayPoll.Initial(), cfg, Unanswered(U32_MAX)), cfg, U32_MAX * 60000);
  }

  // ----- custom poller -----

  type CustomState = CustomPoll.State
  type CustomInput = CustomPollTiming.Input

  /** What stays fixed: the map and the floating-point unit. */
  datatype Custom = Custom(map_: seq<CustomPoint.Point>, fp: CustomPoint.Floats)

  predicate CustomSends(s: CustomState, c: Custom, input: CustomInput) {
    input.Polled? && CustomPoll.Slot(s, input.now) < |c.map_|
  }

  function CustomNext(s: CustomState, c: Custom, input: CustomInput): (t: CustomState)
    requires s.Valid(c.map_)
    ensures t.Valid(c.map_)
  {
    match input
    case Polled(now, reply) => CustomPoll.Step(s, c.map_, c.fp, now, reply)
    case LinkLost(now) => CustomPoll.Offline(s).(nextRequest := now)
  }

  function CustomAfter(s: CustomState, c: Custom, inputs: seq<CustomInput>): (t: CustomState)
    requires s.Valid(c.map_)
    ensures t.Valid(c.map_)
  {
    if inputs == [] then s else CustomNext(CustomAfter(s, c, inputs[..|inputs| - 1]), c, inputs[|inputs| - 1])
  }

  predicate CustomQuiet(s: CustomState, c: Custom, inputs: seq<CustomInput>)
    requires s.Valid(c.map_)
  {
    inputs == [] ||
    (&& CustomQuiet(s, c, inputs[..|inputs| - 1])
     && !CustomSends(CustomAfter(s, c, inputs[..|inputs| - 1]), c, inputs[|inputs| - 1]))
  }

  function CustomLastLoss(inputs: seq<CustomInput>): Option<nat> {
    if inputs == [] then None
    else
      var last := inputs[|inputs| - 1];
      if last.LinkLost? then Some(last.now) else CustomLastLoss(inputs[..|inputs| - 1])
  }

  /** A request closes the poller for at least the gap, and for at least five seconds if it fails: here the
      counter of failures saturates. */
  lemma CustomRequestCloses(s: CustomState, c: Custom, input: CustomInput)
    requires s.Valid(c.map_) && CustomSends(s, c, input)
    ensures var completed := input.now + input.reply.result.elapsedMs;
      var t := CustomNext(s, c, input);
      t.nextRequest >= completed + if input.reply.result.error.Ok? then GAP else 5000
  {
  }

  lemma CustomQuietStep(s: CustomState, c: Custom, input: CustomInput)
    requires s.Valid(c.map_) && !CustomSends(s, c, input)
    ensures var t := CustomNext(s, c, input);
      t.due == s.due && t.nextRequest == (if input.LinkLost? then input.now else s.nextRequest)
  {
  }

  lemma {:induction false} CustomQuietRun(s: CustomState, c: Custom, inputs: seq<CustomInput>)
    requires s.Valid(c.map_) && CustomQuiet(s, c, inputs)
    ensures var t, loss := CustomAfter(s, c, inputs), CustomLastLoss(inputs);
      t.due == s.due && t.nextRequest == (if loss.None? then s.nextRequest else loss.value)
  {
    if inputs != [] {
      var before := inputs[..|inputs| - 1];
      CustomQuietRun(s, c, before);
      CustomQuietStep(CustomAfter(s, c, before), c, inputs[|inputs| - 1]);
    }
  }

  function CustomSince(s: CustomState, c: Custom, first: CustomInput, between: seq<CustomInput>): (t: CustomState)
    requires s.Valid(c.map_)
    ensures t.Valid(c.map_)
  {
    CustomAfter(CustomNext(s, c, first), c, between)
  }

  lemma CustomGap(s: CustomState, c: Custom, first: CustomInput, between: seq<CustomInput>, last: CustomInput)
    requires s.Valid(c.map_) && CustomSends(s, c, first) && CustomQuiet(CustomNext(s, c, first), c, between)
    requires CustomSends(CustomSince(s, c, first, between), c, last)
    ensures var loss := CustomLastLoss(between);
      last.now >= if loss.None? then first.now + first.reply.result.elapsedMs + GAP else loss.value
  {
    hide CustomNext;
    CustomRequestCloses(s, c, first);
    CustomQuietRun(CustomNext(s, c, first), c, between);
  }

  /** Some point is due at `now`. */
  predicate SomeDue(s: CustomState, now: nat) { exists i :: 0 <= i < |s.due| && s.due[i] <= now }

  lemma SendsWhenDue(s: CustomState, c: Custom, input: CustomInput)
    requires s.Valid(c.map_) && input.Polled?
    ensures CustomSends(s, c, input) <==> input.now >= s.nextRequest && SomeDue(s, input.now)
  {
    Scheduler.PickIsEarliest(s.due, input.now);
  }

  /** The gap is certain if and only if the link was not lost since the request, or no point is due between
      the loss and the end of the gap. */
  lemma CustomGapExactly(s: CustomState, c: Custom, first: CustomInput, between: seq<CustomInput>)
    requires s.Valid(c.map_) && CustomSends(s, c, first) && CustomQuiet(CustomNext(s, c, first), c, between)
    ensures var over := first.now + first.reply.result.elapsedMs + GAP;
      var loss := CustomLastLoss(between);
      (forall last :: CustomSends(CustomSince(s, c, first, between), c, last) ==> last.now >= over)
        <==> loss.None? || forall now: nat :: loss.value <= now < over ==> !SomeDue(CustomNext(s, c, first), now)
  {
    hide CustomNext;
    var over := first.now + first.reply.result.elapsedMs + GAP;
    var t, loss := CustomSince(s, c, first, between), CustomLastLoss(between);
    CustomQuietRun(CustomNext(s, c, first), c, between);
    forall last | CustomSends(t, c, last)
      ensures last.now >= if loss.None? then over else loss.value
      ensures SomeDue(CustomNext(s, c, first), last.now)
    {
      CustomGap(s, c, first, between, last);
      SendsWhenDue(t, c, last);
    }
    if loss.Some? {
      forall now: nat | loss.value <= now < over && SomeDue(CustomNext(s, c, first), now)
        ensures CustomSends(t, c, CustomPollTiming.Polled(now, first.reply))
      {
        SendsWhenDue(t, c, CustomPollTiming.Polled(now, first.reply));
      }
    }
  }

  /** The same for any map of at least two points, both due at power-up. */
  lemma CustomGapShort(c: Custom, reply: Reply, next: Reply)
    requires CustomPoll.ValidMap(c.map_) && |c.map_| >= 2
    ensures var s := CustomPoll.Initial(c.map_);
      var completed := reply.result.elapsedMs;
      var resumed := completed + LOOP_DELAY_MS;
      var first := CustomPollTiming.Polled(0, reply);
      var between := [CustomPollTiming.LinkLost(completed), CustomPollTiming.LinkLost(resumed)];
      var last := CustomPollTiming.Polled(resumed, next);
      && CustomSends(s, c, first) && CustomQuiet(CustomNext(s, c, first), c, between)
      && CustomSends(CustomSince(s, c, first, between), c, last) && last.now == completed + 25
  {
    var s, completed := CustomPoll.Initial(c.map_), reply.result.elapsedMs;
    var resumed := completed + LOOP_DELAY_MS;
    var first := CustomPollTiming.Polled(0, reply);
    var between := [CustomPollTiming.LinkLost(completed), CustomPollTiming.LinkLost(resumed)];
    assert s.due[0] == 0 && s.due[1] == 0;
    SendsWhenDue(s, c, first);
    var t := CustomNext(s, c, first);
    assert t.due[0] == 0 || t.due[1] == 0;
    assert between[..1] == [between[0]] && between[..1][..0] == [];
    CustomQuietRun(t, c, between);
    SendsWhenDue(CustomSince(s, c, first, between), c, CustomPollTiming.Polled(resumed, next));
  }
}
