/**
 Which samples of a custom map are shown across link changes. The guarantee of LinkGeneration is for good
 quality; here is the exact condition for every point that is shown, and a run in which an old sample is.
 */
module LinkSamples {
  import opened Base
  import opened CustomPoint
  import opened LinkGeneration
  import CustomPoll
  import GatewayPoll

  // ----- runs with all their states -----

  ghost predicate Stepped(setup: Setup, before: System, action: Action, after: System) {
    && WellFormed(before.current, setup) && (!before.phase.Idle? ==> before.iterations != [])
    && Enabled(before, action) && after == Next(before, setup, action)
  }

  /** `states[k]` is the system before `actions[k]`; the last one is what the run reaches. */
  ghost predicate Trace(setup: Setup, actions: seq<Action>, states: seq<System>)
    requires CustomPoll.ValidMap(setup.map_)
  {
    && |states| == |actions| + 1 && states[0] == Initial(setup)
    && forall k :: 0 <= k < |actions| ==> Stepped(setup, states[k], actions[k], states[k + 1])
  }

  /** Every reached system ends such a run. */
  lemma {:induction false} ReachedByTrace(setup: Setup, actions: seq<Action>, sys: System) returns (states: seq<System>)
    requires CustomPoll.ValidMap(setup.map_) && Reaches(setup, actions, sys)
    ensures Trace(setup, actions, states) && states[|actions|] == sys
    decreases |actions|
  {
    hide Next, Enabled, WellFormed;
    if actions == [] {
      states := [sys];
    } else {
      var earlier := actions[..|actions| - 1];
      var before :| && Reaches(setup, earlier, before)
                    && WellFormed(before.current, setup) && (!before.phase.Idle? ==> before.iterations != [])
                    && Enabled(before, actions[|actions| - 1])
                    && sys == Next(before, setup, actions[|actions| - 1]);
      var prefix := ReachedByTrace(setup, earlier, before);
      states := prefix + [sys];
    }
  }

  // ----- replies that decode -----

  /** The action is a step of the custom poller that asks for point `i` and gets a reply that decodes. */
  ghost predicate Decodes(setup: Setup, sys: System, action: Action, i: nat)
    requires i < |setup.map_|
  {
    && WellFormed(sys.current, setup)
    && action.Work? && sys.phase.Working? && sys.phase.up && setup.isCustom && !setup.configError
    && CustomPoll.Slot(Ready(sys, action.offlineAt, action.resetAt).custom, action.stepAt) == i
    && action.reply.result.error.Ok?
    && Decoded(setup.map_[i], action.reply.words[..setup.map_[i].wordCount], setup.fp).Some?
  }

  /** The number or the text of `value` is what the point's words decode to. */
  predicate ReadsAs(setup: Setup, value: Value, i: nat)
    requires CustomPoll.ValidMap(setup.map_) && i < |setup.map_|
  {
    && |value.raw| == setup.map_[i].wordCount
    && match Decoded(setup.map_[i], value.raw, setup.fp)
       case None => false
       case Some(Number(n)) => value.numeric == Some(n)
       case Some(Text(t)) => value.text == t
  }

  /** The iteration that is running, or ran last, in a state. */
  function IterationOf(sys: System): int { |sys.iterations| - 1 }

  /** How many iterations have been published. */
  function Published(sys: System): int { if sys.phase.Idle? then |sys.iterations| else |sys.iterations| - 1 }

  /** A run of which the first `n` actions have been taken. */
  datatype Past = Past(setup: Setup, actions: seq<Action>, states: seq<System>, n: nat)
  {
    ghost predicate Valid() {
      CustomPoll.ValidMap(setup.map_) && Trace(setup, actions, states) && n <= |actions|
    }

    /** Action `k` got a reply for point `i` that decoded. */
    ghost predicate DecodedAt(i: nat, k: nat)
      requires Valid() && i < |setup.map_|
    {
      k < n && Decodes(setup, states[k], actions[k], i)
    }

    /** Reply `k` is the last one for point `i` that decoded before iteration `bound`. */
    ghost predicate LastBefore(i: nat, k: nat, bound: int)
      requires Valid() && i < |setup.map_|
    {
      && DecodedAt(i, k) && IterationOf(states[k]) < bound
      && forall m: nat :: k < m && DecodedAt(i, m) ==> IterationOf(states[m]) >= bound
    }

    /** The sample that `p` holds of point `i` is that of reply `k`. */
    ghost predicate Carries(p: Pollers, i: nat, k: nat)
      requires Valid() && WellFormed(p, setup) && i < |setup.map_| && k < n
    {
      var action := actions[k];
      && action.Work?
      && p.custom.values[i].lastGood == action.stepAt + action.reply.result.elapsedMs
      && p.custom.values[i].raw == action.reply.words[..setup.map_[i].wordCount]
      && ReadsAs(setup, p.custom.values[i], i)
      && p.pointOrigin[i] == IterationOf(states[k])
    }

    /** `p` holds of point `i` the last reply that decoded before iteration `bound`, or nothing if there is none. */
    ghost predicate HoldsLast(p: Pollers, i: nat, bound: int)
      requires Valid() && WellFormed(p, setup) && i < |setup.map_|
    {
      if p.custom.acquired[i] then exists k: nat :: LastBefore(i, k, bound) && Carries(p, i, k)
      else forall k: nat :: DecodedAt(i, k) ==> IterationOf(states[k]) >= bound
    }
  }

  function Longer(past: Past): Past { past.(n := past.n + 1) }

  // ----- what holds of every run -----

  /** What the history of iterations, `published` of them published, says of the present link. */
  ghost predicate IterationsOk(iterations: seq<Iteration>, published: int, up: bool, generation: nat) {
    && 0 <= published <= |iterations|
    && (forall j :: 0 <= j < |iterations| ==>
          var it := iterations[j];
          && it.startGeneration <= generation && (it.startGeneration == generation ==> it.startUp == up)
          && (it.ended <==> j < published)
          && (it.ended ==> it.startGeneration <= it.endGeneration <= generation)
          && (it.ended && it.endGeneration == generation ==> it.endUp == up))
    && forall j, m :: 0 <= j < m < |iterations| ==> iterations[j].endGeneration <= iterations[m].startGeneration
  }

  lemma LinkChanges(iterations: seq<Iteration>, published: int, up: bool, generation: nat, up': bool)
    requires IterationsOk(iterations, published, up, generation)
    ensures IterationsOk(iterations, published, up', generation + 1)
  {
  }

  lemma IterationBegins(iterations: seq<Iteration>, up: bool, generation: nat)
    requires IterationsOk(iterations, |iterations|, up, generation)
    ensures IterationsOk(iterations + [Iteration(up, generation, false, false, 0)], |iterations|, up, generation)
  {
  }

  lemma IterationEnds(iterations: seq<Iteration>, up: bool, generation: nat)
    requires iterations != [] && IterationsOk(iterations, |iterations| - 1, up, generation)
    ensures IterationsOk(Ended(iterations, up, generation), |iterations|, up, generation)
  {
  }

  ghost predicate HistoryOk(sys: System) {
    IterationsOk(sys.iterations, Published(sys), sys.networkUp, sys.generation)
  }

  lemma EndedLength(iterations: seq<Iteration>, up: bool, generation: nat)
    requires iterations != []
    ensures |Ended(iterations, up, generation)| == |iterations|
  {
  }

  lemma HistoryKept(sys: System, setup: Setup, action: Action)
    requires HistoryOk(sys) && WellFormed(sys.current, setup) && Enabled(sys, action)
    requires !sys.phase.Idle? ==> sys.iterations != []
    ensures HistoryOk(Next(sys, setup, action))
  {
    hide IterationsOk, StepActive, Ready, Settled, WellFormed, Ended;
    match action {
      case NetworkEvent(gotIp) =>
        LinkChanges(sys.iterations, Published(sys), sys.networkUp, sys.generation, gotIp);
      case Begin => IterationBegins(sys.iterations, sys.networkUp, sys.generation);
      case Publish(_, _) =>
        IterationEnds(sys.iterations, sys.networkUp, sys.generation);
        EndedLength(sys.iterations, sys.networkUp, sys.generation);
      case _ =>
    }
  }

  // ----- samples -----

  /** `q` holds the sample of point `i` that `p` holds; its quality may differ. */
  predicate SameSample(setup: Setup, p: Pollers, q: Pollers, i: nat)
    requires WellFormed(p, setup) && WellFormed(q, setup) && i < |setup.map_|
  {
    && p.custom.acquired[i] == q.custom.acquired[i] && p.pointOrigin[i] == q.pointOrigin[i]
    && p.custom.values[i] == q.custom.values[i].(quality := p.custom.values[i].quality)
  }

  lemma OfflineKeepsSample(setup: Setup, p: Pollers, offlineAt: nat, resetAt: nat, i: nat)
    requires WellFormed(p, setup) && i < |setup.map_|
    ensures WellFormed(TakeOffline(p, offlineAt, resetAt), setup)
    ensures SameSample(setup, p, TakeOffline(p, offlineAt, resetAt), i)
  {
  }

  lemma ReadyKeepsSample(setup: Setup, sys: System, offlineAt: nat, resetAt: nat, i: nat)
    requires WellFormed(sys.current, setup) && sys.phase.Working? && i < |setup.map_|
    ensures WellFormed(Ready(sys, offlineAt, resetAt), setup)
    ensures SameSample(setup, sys.current, Ready(sys, offlineAt, resetAt), i)
  {
    hide TakeOffline;
    OfflineKeepsSample(setup, sys.current, offlineAt, resetAt, i);
  }

  lemma SettledKeepsSample(setup: Setup, sys: System, offlineAt: nat, resetAt: nat, i: nat)
    requires WellFormed(sys.current, setup) && sys.phase.Publishing? && i < |setup.map_|
    ensures WellFormed(Settled(sys, offlineAt, resetAt), setup)
    ensures SameSample(setup, sys.current, Settled(sys, offlineAt, resetAt), i)
  {
    hide TakeOffline;
    OfflineKeepsSample(setup, sys.current, offlineAt, resetAt, i);
  }

  /** A poller step changes the sample of a point only by decoding a reply for it. */
  lemma StepSample(p: Pollers, setup: Setup, now: nat, reply: Reply, iteration: nat, i: nat)
    requires WellFormed(p, setup) && i < |setup.map_|
    ensures var q := StepActive(p, setup, now, reply, iteration);
      && WellFormed(q, setup)
      && if setup.isCustom && CustomPoll.Slot(p.custom, now) == i && reply.result.error.Ok?
            && Decoded(setup.map_[i], reply.words[..setup.map_[i].wordCount], setup.fp).Some?
         then q.custom.acquired[i] && q.pointOrigin[i] == iteration
           && q.custom.values[i].lastGood == now + reply.result.elapsedMs
           && q.custom.values[i].raw == reply.words[..setup.map_[i].wordCount]
           && ReadsAs(setup, q.custom.values[i], i)
         else SameSample(setup, p, q, i)
  {
    hide CustomPoll.Slot, GatewayPoll.Step, Decoded;
  }

  /** The work of an iteration, for point `i`. */
  lemma WorkSample(setup: Setup, sys: System, action: Action, after: System, i: nat)
    requires Stepped(setup, sys, action, after) && action.Work? && i < |setup.map_|
    ensures var q := after.current;
      && WellFormed(q, setup)
      && if Decodes(setup, sys, action, i)
         then q.custom.acquired[i] && q.pointOrigin[i] == IterationOf(sys)
           && q.custom.values[i].lastGood == action.stepAt + action.reply.result.elapsedMs
           && q.custom.values[i].raw == action.reply.words[..setup.map_[i].wordCount]
           && ReadsAs(setup, q.custom.values[i], i)
         else SameSample(setup, sys.current, q, i)
  {
    hide Ready, StepActive, CustomPoll.Slot, Decoded;
    var ready := Ready(sys, action.offlineAt, action.resetAt);
    ReadyKeepsSample(setup, sys, action.offlineAt, action.resetAt, i);
    StepSample(ready, setup, action.stepAt, action.reply, |sys.iterations| - 1, i);
  }

  lemma HoldsSame(past: Past, p: Pollers, q: Pollers, i: nat, bound: int)
    requires past.Valid() && i < |past.setup.map_| && WellFormed(p, past.setup) && WellFormed(q, past.setup)
    requires past.HoldsLast(p, i, bound) && SameSample(past.setup, p, q, i)
    ensures past.HoldsLast(q, i, bound)
  {
    hide Trace, Decodes;
    if q.custom.acquired[i] {
      var k: nat :| past.LastBefore(i, k, bound) && past.Carries(p, i, k);
      assert past.Carries(q, i, k);
    }
  }

  /** One more action, which decodes nothing for the point before iteration `bound`. */
  lemma HoldsLonger(past: Past, p: Pollers, i: nat, bound: int)
    requires past.Valid() && past.n < |past.actions| && i < |past.setup.map_| && WellFormed(p, past.setup)
    requires past.HoldsLast(p, i, bound)
    requires Longer(past).DecodedAt(i, past.n) ==> IterationOf(past.states[past.n]) >= bound
    ensures Longer(past).HoldsLast(p, i, bound)
  {
    hide Trace, Decodes;
    var longer := Longer(past);
    assert forall k: nat :: longer.DecodedAt(i, k) && k != past.n ==> past.DecodedAt(i, k);
    if p.custom.acquired[i] {
      var k: nat :| past.LastBefore(i, k, bound) && past.Carries(p, i, k);
      assert longer.LastBefore(i, k, bound) && longer.Carries(p, i, k);
    }
  }

  /** One more action, which decodes a reply for the point. */
  lemma HoldsNew(past: Past, q: Pollers, i: nat, bound: int)
    requires past.Valid() && past.n < |past.actions| && i < |past.setup.map_| && WellFormed(q, past.setup)
    requires Longer(past).DecodedAt(i, past.n) && IterationOf(past.states[past.n]) < bound
    requires q.custom.acquired[i] && Longer(past).Carries(q, i, past.n)
    ensures Longer(past).HoldsLast(q, i, bound)
  {
    hide Trace, Decodes;
    assert Longer(past).LastBefore(i, past.n, bound);
  }

  lemma HoldsFurther(past: Past, p: Pollers, i: nat, bound: int, further: int)
    requires past.Valid() && i < |past.setup.map_| && WellFormed(p, past.setup)
    requires past.HoldsLast(p, i, bound) && bound <= further
    requires forall k: nat :: past.DecodedAt(i, k) ==> IterationOf(past.states[k]) < bound
    ensures past.HoldsLast(p, i, further)
  {
    hide Trace, Decodes;
    if p.custom.acquired[i] {
      var k: nat :| past.LastBefore(i, k, bound) && past.Carries(p, i, k);
      assert past.LastBefore(i, k, further);
    }
  }

  // ----- the invariant -----

  /** The pollers in work hold the last reply that decoded, the published ones the last that decoded in a
      published iteration. */
  ghost predicate SamplesOk(past: Past, i: nat)
    requires past.Valid() && i < |past.setup.map_|
  {
    var sys := past.states[past.n];
    && WellFormed(sys.current, past.setup) && WellFormed(sys.published, past.setup)
    && past.HoldsLast(sys.current, i, |sys.iterations|) && past.HoldsLast(sys.published, i, Published(sys))
    && forall k: nat :: past.DecodedAt(i, k) ==> IterationOf(past.states[k]) < |sys.iterations|
  }

  /** An action that decodes nothing for the point and keeps the samples. */
  lemma QuietKeeps(past: Past, i: nat)
    requires past.Valid() && past.n < |past.actions| && i < |past.setup.map_| && SamplesOk(past, i)
    requires var before, after := past.states[past.n], past.states[past.n + 1];
      && !Decodes(past.setup, before, past.actions[past.n], i)
      && WellFormed(after.current, past.setup) && WellFormed(after.published, past.setup)
      && SameSample(past.setup, before.current, after.current, i)
      && ((after.published == before.published && Published(after) == Published(before)) ||
          (after.published == after.current && Published(after) == |after.iterations|))
      && |before.iterations| <= |after.iterations|
    ensures SamplesOk(Longer(past), i)
  {
    hide Decodes, WellFormed, Stepped, SameSample, Past.HoldsLast;
    var before, after := past.states[past.n], past.states[past.n + 1];
    var longer := Longer(past);
    assert longer.Valid();
    HoldsLonger(past, before.current, i, |before.iterations|);
    HoldsLonger(past, before.published, i, Published(before));
    assert forall k: nat :: longer.DecodedAt(i, k) ==> past.DecodedAt(i, k);
    HoldsSame(longer, before.current, after.current, i, |before.iterations|);
    HoldsFurther(longer, after.current, i, |before.iterations|, |after.iterations|);
  }

  lemma WorkKeepsRest(setup: Setup, sys: System, action: Action, after: System)
    requires Stepped(setup, sys, action, after) && action.Work?
    ensures sys.phase.Working?
    ensures after.published == sys.published && after.iterations == sys.iterations && Published(after) == Published(sys)
  {
    hide Ready, StepActive;
  }

  lemma WorkKeepsSamples(past: Past, i: nat)
    requires past.Valid() && past.n < |past.actions| && i < |past.setup.map_| && SamplesOk(past, i)
    requires past.actions[past.n].Work?
    ensures SamplesOk(Longer(past), i)
  {
    hide Decodes, Next, Enabled;
    var before, after := past.states[past.n], past.states[past.n + 1];
    var longer := Longer(past);
    assert Stepped(past.setup, before, past.actions[past.n], after);
    WorkSample(past.setup, before, past.actions[past.n], after, i);
    WorkKeepsRest(past.setup, before, past.actions[past.n], after);
    if Decodes(past.setup, before, past.actions[past.n], i) {
      HoldsNew(past, after.current, i, |after.iterations|);
      HoldsLonger(past, before.published, i, Published(before));
    } else {
      QuietKeeps(past, i);
    }
  }

  lemma OtherKeepsSample(setup: Setup, sys: System, action: Action, after: System, i: nat)
    requires Stepped(setup, sys, action, after) && !action.Work? && i < |setup.map_| && WellFormed(sys.published, setup)
    ensures WellFormed(after.current, setup) && WellFormed(after.published, setup)
    ensures !Decodes(setup, sys, action, i) && SameSample(setup, sys.current, after.current, i)
    ensures (after.published == sys.published && Published(after) == Published(sys)) ||
            (after.published == after.current && Published(after) == |after.iterations|)
    ensures |sys.iterations| <= |after.iterations|
  {
    hide Settled, Ended;
    if action.Publish? {
      SettledKeepsSample(setup, sys, action.offlineAt, action.resetAt, i);
      EndedLength(sys.iterations, sys.networkUp, sys.generation);
    }
  }

  lemma OtherKeepsSamples(past: Past, i: nat)
    requires past.Valid() && past.n < |past.actions| && i < |past.setup.map_| && SamplesOk(past, i)
    requires !past.actions[past.n].Work?
    ensures SamplesOk(Longer(past), i)
  {
    var before, action, after := past.states[past.n], past.actions[past.n], past.states[past.n + 1];
    assert Stepped(past.setup, before, action, after);
    OtherKeepsSample(past.setup, before, action, after, i);
    QuietKeeps(past, i);
  }

  lemma {:induction false} SamplesHold(past: Past, i: nat)
    requires past.Valid() && i < |past.setup.map_|
    ensures SamplesOk(past, i) && HistoryOk(past.states[past.n])
    decreases past.n
  {
    if past.n > 0 {
      var earlier := past.(n := past.n - 1);
      SamplesHold(earlier, i);
      var before := past.states[earlier.n];
      assert Stepped(past.setup, before, past.actions[earlier.n], past.states[past.n]);
      HistoryKept(before, past.setup, past.actions[earlier.n]);
      if past.actions[earlier.n].Work? {
        WorkKeepsSamples(earlier, i);
      } else {
        OtherKeepsSamples(earlier, i);
      }
      assert Longer(earlier) == past;
    }
  }

  // ----- when a shown sample is of the present generation -----

  /** The published sample of the point comes from an iteration within the present generation. */
  predicate CurrentSample(sys: System, setup: Setup, i: nat)
    requires WellFormed(sys.published, setup) && i < |setup.map_|
  {
    && sys.published.custom.acquired[i]
    && var origin := sys.published.pointOrigin[i];
       origin < |sys.iterations| && Within(sys.iterations[origin], sys.generation)
  }

  /** Reply `k` came in an iteration within the present generation. */
  predicate InPresent(sys: System, before: System) {
    0 <= IterationOf(before) < |sys.iterations| && Within(sys.iterations[IterationOf(before)], sys.generation)
  }

  lemma IterationsLonger(setup: Setup, before: System, action: Action, after: System)
    requires Stepped(setup, before, action, after)
    ensures |before.iterations| <= |after.iterations|
  {
    hide Ready, Settled, StepActive;
  }

  lemma {:induction false} IterationsGrow(past: Past, k: nat, m: nat)
    requires past.Valid() && k <= m <= past.n
    ensures |past.states[k].iterations| <= |past.states[m].iterations|
    decreases m
  {
    if k < m {
      IterationsGrow(past, k, m - 1);
      var before, action, after := past.states[m - 1], past.actions[m - 1], past.states[m];
      assert Stepped(past.setup, before, action, after);
      IterationsLonger(past.setup, before, action, after);
    }
  }

  lemma EndedIsPublished(sys: System, j: nat)
    requires HistoryOk(sys) && j < |sys.iterations|
    ensures sys.iterations[j].ended <==> j < Published(sys)
  {
  }

  /** An iteration after one that lies within the present generation lies within it, too, once published. */
  lemma LaterIsPresent(sys: System, j: nat, m: nat)
    requires HistoryOk(sys) && j <= m < Published(sys) && Within(sys.iterations[j], sys.generation)
    ensures Within(sys.iterations[m], sys.generation)
  {
    if j < m {
      assert sys.iterations[j].endGeneration <= sys.iterations[m].startGeneration;
    }
  }

  /** The published sample of a point is of the present generation exactly when some reply for the point has
      decoded in a published iteration of the present generation. */
  lemma SampleIsCurrentExactly(past: Past, i: nat)
    requires past.Valid() && i < |past.setup.map_| && WellFormed(past.states[past.n].published, past.setup)
    ensures var sys := past.states[past.n];
      CurrentSample(sys, past.setup, i) <==>
      exists k: nat :: past.DecodedAt(i, k) && InPresent(sys, past.states[k])
  {
    hide Decodes, HistoryOk, Stepped;
    SamplesHold(past, i);
    var sys := past.states[past.n];
    if CurrentSample(sys, past.setup, i) {
      var k: nat :| past.LastBefore(i, k, Published(sys)) && past.Carries(sys.published, i, k);
      assert InPresent(sys, past.states[k]);
    }
    if k: nat :| past.DecodedAt(i, k) && InPresent(sys, past.states[k]) {
      var j := IterationOf(past.states[k]);
      EndedIsPublished(sys, j);
      var last: nat :| past.LastBefore(i, last, Published(sys)) && past.Carries(sys.published, i, last);
      IterationsGrow(past, k, last);
      LaterIsPresent(sys, j, IterationOf(past.states[last]));
    }
  }

  /** Only a point that was read can be good, or hold words, a number or a text. */
  predicate GoodIsRead(p: Pollers, setup: Setup, i: nat)
    requires WellFormed(p, setup) && i < |setup.map_|
  {
    var value := p.custom.values[i];
    p.custom.acquired[i] || (!value.quality.Good? && value.numeric.None? && value.text == "" && value.raw == [])
  }

  lemma OfflineIsNotGood(p: Pollers, setup: Setup, offlineAt: nat, resetAt: nat, i: nat)
    requires WellFormed(p, setup) && i < |setup.map_| && GoodIsRead(p, setup, i)
    ensures var q := TakeOffline(p, offlineAt, resetAt);
      WellFormed(q, setup) && GoodIsRead(q, setup, i)
  {
  }

  lemma StepGood(p: Pollers, setup: Setup, now: nat, reply: Reply, iteration: nat, i: nat)
    requires WellFormed(p, setup) && i < |setup.map_| && GoodIsRead(p, setup, i)
    ensures var q := StepActive(p, setup, now, reply, iteration);
      WellFormed(q, setup) && GoodIsRead(q, setup, i)
  {
    hide CustomPoll.Slot, GatewayPoll.Step, Decoded;
  }

  lemma GoodKept(setup: Setup, sys: System, action: Action, after: System, i: nat)
    requires Stepped(setup, sys, action, after) && i < |setup.map_| && WellFormed(sys.published, setup)
    requires GoodIsRead(sys.current, setup, i) && GoodIsRead(sys.published, setup, i)
    ensures WellFormed(after.current, setup) && WellFormed(after.published, setup)
    ensures GoodIsRead(after.current, setup, i) && GoodIsRead(after.published, setup, i)
  {
    hide StepActive, TakeOffline, Ended;
    match action {
      case Work(offlineAt, resetAt, stepAt, reply) =>
        OfflineIsNotGood(sys.current, setup, offlineAt, resetAt, i);
        StepGood(Ready(sys, offlineAt, resetAt), setup, stepAt, reply, |sys.iterations| - 1, i);
      case Publish(offlineAt, resetAt) => OfflineIsNotGood(sys.current, setup, offlineAt, resetAt, i);
      case _ =>
    }
  }

  lemma {:induction false} GoodHolds(past: Past, i: nat)
    requires past.Valid() && i < |past.setup.map_|
    ensures var sys := past.states[past.n];
      && WellFormed(sys.current, past.setup) && WellFormed(sys.published, past.setup)
      && GoodIsRead(sys.current, past.setup, i) && GoodIsRead(sys.published, past.setup, i)
    decreases past.n
  {
    if past.n > 0 {
      var earlier := past.(n := past.n - 1);
      GoodHolds(earlier, i);
      assert Stepped(past.setup, past.states[earlier.n], past.actions[earlier.n], past.states[past.n]);
      GoodKept(past.setup, past.states[earlier.n], past.actions[earlier.n], past.states[past.n], i);
    }
  }

  lemma {:induction false} TraceReaches(past: Past)
    requires past.Valid()
    ensures Reaches(past.setup, past.actions[..past.n], past.states[past.n])
    decreases past.n
  {
    hide Next, Enabled, WellFormed;
    if past.n > 0 {
      var earlier := past.(n := past.n - 1);
      TraceReaches(earlier);
      var before := past.states[earlier.n];
      assert Stepped(past.setup, before, past.actions[earlier.n], past.states[past.n]);
      assert past.actions[..past.n][..earlier.n] == past.actions[..earlier.n];
      assert past.actions[..past.n][earlier.n] == past.actions[earlier.n];
    }
  }

  lemma GoodIsCurrent(past: Past, i: nat, now: nat)
    requires past.Valid() && i < |past.setup.map_| && WellFormed(past.states[past.n].published, past.setup)
    requires ShownCustomPoint(past.states[past.n], past.setup, i, now).quality.Good?
    ensures CurrentSample(past.states[past.n], past.setup, i)
  {
    hide Reaches, Stepped;
    TraceReaches(past);
    GoodHolds(past, i);
    CustomPointIsCurrent(past.setup, past.actions[..past.n], past.states[past.n], i, now);
  }

  /** Link-generation exactness for the custom profile. In every run, a point shown as anything but
      communication failure has the words and time of the last reply for it that decoded in a published
      iteration, and the number or text that they decode to; if there was none, no words, number or text.
      Good, it is of the present generation. Otherwise it is unverified, and of the present generation exactly
      when such a reply has decoded in it. */
  lemma ShownSampleExactly(past: Past, i: nat, now: nat)
    requires past.Valid() && i < |past.setup.map_| && WellFormed(past.states[past.n].published, past.setup)
    requires !ShownCustomPoint(past.states[past.n], past.setup, i, now).quality.CommFailure?
    ensures var sys := past.states[past.n];
      var shown := ShownCustomPoint(sys, past.setup, i, now);
      && past.HoldsLast(sys.published, i, Published(sys))
      && shown == sys.published.custom.values[i]
      && (sys.published.custom.acquired[i] ==> ReadsAs(past.setup, shown, i))
      && (sys.published.custom.acquired[i] ==>
            var age := now - shown.lastGood;
            age <= 5000 || age <= 3 * past.setup.map_[i].pollMs || age <= 750 * |past.setup.map_| + 1200)
      && (!sys.published.custom.acquired[i] ==> shown.numeric.None? && shown.text == "" && shown.raw == [])
      && (shown.quality.Good? ==> CurrentSample(sys, past.setup, i))
      && (CurrentSample(sys, past.setup, i) <==>
          exists k: nat :: past.DecodedAt(i, k) && InPresent(sys, past.states[k]))
  {
    hide Decodes, HistoryOk, Stepped;
    SamplesHold(past, i);
    SampleIsCurrentExactly(past, i);
    GoodHolds(past, i);
    var sys := past.states[past.n];
    CustomPoll.ShownExactly(sys.published.custom, past.setup.map_, i, now);
    if ShownCustomPoint(sys, past.setup, i, now).quality.Good? {
      GoodIsCurrent(past, i, now);
    }
  }
}
