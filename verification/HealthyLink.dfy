/**
 The stale limit of custom points across the tasks of main/app_main.c: the bound of CustomPollTiming, composed
 with publication by the poll loop and with the snapshot readers, while the link stays up.
 */
module HealthyLink {
  import opened Base
  import opened CustomPoint
  import opened LinkGeneration
  import opened LinkSamples
  import CustomPoll
  import GatewayPoll
  import opened CustomPollTiming

  /** The custom poller is stepped in every iteration. */
  predicate CustomProfile(setup: Setup) {
    CustomPoll.ValidMap(setup.map_) && setup.isCustom && !setup.configError
  }

  /** A stretch of a run, from some state on, in which the link does not change. */
  ghost predicate Steady(setup: Setup, actions: seq<Action>, states: seq<System>) {
    && |states| == |actions| + 1
    && (forall k :: 0 <= k < |actions| ==> !actions[k].NetworkEvent?)
    && forall k :: 0 <= k < |actions| ==> Stepped(setup, states[k], actions[k], states[k + 1])
  }

  /** The calls of the custom poller, in order. */
  function Calls(actions: seq<Action>): seq<Call> {
    if actions == [] then []
    else
      var last := actions[|actions| - 1];
      Calls(actions[..|actions| - 1]) + if last.Work? then [Call(last.stepAt, last.reply)] else []
  }

  /** How many of `n` calls have been published: all but the one still in work. */
  function PublishedCalls(sys: System, n: nat): int { if sys.phase.Publishing? then n - 1 else n }

  /** The poll task has taken note of the link, and the link is up. */
  predicate Noticed(sys: System) {
    && sys.networkUp
    && (!sys.phase.Publishing? ==> sys.previousUp && sys.seenGeneration == sys.generation)
    && (!sys.phase.Idle? ==> sys.phase.up && sys.phase.changed == sys.generation)
  }

  /** The poll task is about to work, and no link change is pending. */
  ghost predicate Starts(setup: Setup, sys: System) {
    && sys.phase.Working? && Noticed(sys)
    && WellFormed(sys.current, setup) && WellFormed(sys.published, setup)
  }

  /** The pollers after `calls` since state `s`, in work and as published. While the link stays up nothing
      else touches them. */
  ghost predicate InStep(setup: Setup, s: CustomPoll.State, calls: seq<Call>, sys: System)
    requires CustomProfile(setup) && s.Valid(setup.map_)
  {
    var published := PublishedCalls(sys, |calls|);
    && Noticed(sys) && WellFormed(sys.current, setup) && WellFormed(sys.published, setup)
    && sys.current.custom == Run(s, setup.map_, setup.fp, calls)
    && (published > 0 ==>
          && sys.publishedGeneration == sys.generation
          && sys.published.custom == Run(s, setup.map_, setup.fp, calls[..published]))
    && published >= 0
  }

  lemma {:induction false} RunAppend(s: CustomPoll.State, map_: seq<Point>, fp: Floats, calls: seq<Call>, call: Call)
    requires s.Valid(map_)
    ensures Run(s, map_, fp, calls + [call])
         == CustomPoll.Step(Run(s, map_, fp, calls), map_, fp, call.now, call.reply)
    decreases |calls|
  {
    if calls != [] {
      var next := CustomPoll.Step(s, map_, fp, calls[0].now, calls[0].reply);
      RunAppend(next, map_, fp, calls[1..], call);
      assert (calls + [call])[1..] == calls[1..] + [call];
    } else {
      assert (calls + [call])[1..] == [];
    }
  }

  lemma InStepKept(setup: Setup, s: CustomPoll.State, calls: seq<Call>, sys: System, action: Action, after: System)
    requires CustomProfile(setup) && s.Valid(setup.map_) && InStep(setup, s, calls, sys)
    requires Stepped(setup, sys, action, after) && !action.NetworkEvent?
    ensures InStep(setup, s, calls + Calls([action]), after)
    ensures !action.Publish? ==> PublishedCalls(after, |calls + Calls([action])|) == PublishedCalls(sys, |calls|)
  {
    hide Run, GatewayPoll.Step, CustomPoll.Step;
    assert calls[..|calls|] == calls;
    if action.Work? {
      var call := Call(action.stepAt, action.reply);
      assert Calls([action]) == [call];
      RunAppend(s, setup.map_, setup.fp, calls, call);
      assert Ready(sys, action.offlineAt, action.resetAt) == sys.current;
      assert (calls + [call])[..|calls|] == calls;
      assert after.current.custom == Run(s, setup.map_, setup.fp, calls + [call]);
    } else {
      assert calls + Calls([action]) == calls;
    }
  }

  lemma CallsStep(actions: seq<Action>, m: nat)
    requires m < |actions|
    ensures Calls(actions[..m + 1]) == Calls(actions[..m]) + Calls([actions[m]])
  {
    assert actions[..m + 1][..m] == actions[..m];
    assert [actions[m]][..0] == [];
  }

  /** Along a steady stretch from `states[0]`, with `m` actions taken. */
  lemma {:induction false} SteadyRun(setup: Setup, actions: seq<Action>, states: seq<System>, m: nat)
    requires CustomProfile(setup) && Steady(setup, actions, states) && m <= |actions|
    requires Starts(setup, states[0])
    ensures InStep(setup, states[0].current.custom, Calls(actions[..m]), states[m])
  {
    var s := states[0].current.custom;
    if m > 0 {
      SteadyRun(setup, actions, states, m - 1);
      var action := actions[m - 1];
      assert Stepped(setup, states[m - 1], action, states[m]);
      CallsStep(actions, m - 1);
      InStepKept(setup, s, Calls(actions[..m - 1]), states[m - 1], action, states[m]);
    }
  }

  // ----- prefixes -----

  lemma {:induction false} CallsPrefix(actions: seq<Action>, m: nat, q: nat)
    requires m <= q <= |actions|
    ensures |Calls(actions[..m])| <= |Calls(actions[..q])|
    ensures Calls(actions[..q])[..|Calls(actions[..m])|] == Calls(actions[..m])
    decreases q
  {
    if m < q {
      CallsPrefix(actions, m, q - 1);
      CallsStep(actions, q - 1);
    }
  }

  /** Between two publications the number of published calls stays the same. */
  lemma {:induction false} UnpublishedUntil(setup: Setup, actions: seq<Action>, states: seq<System>, m: nat, q: nat)
    requires CustomProfile(setup) && Steady(setup, actions, states) && m <= q <= |actions|
    requires Starts(setup, states[0])
    requires forall k :: m <= k < q ==> !actions[k].Publish?
    ensures PublishedCalls(states[q], |Calls(actions[..q])|) == PublishedCalls(states[m], |Calls(actions[..m])|)
    decreases q
  {
    assert states[0].current.custom.Valid(setup.map_);
    hide Next, WellFormed;
    if m < q {
      UnpublishedUntil(setup, actions, states, m, q - 1);
      SteadyRun(setup, actions, states, q - 1);
      CallsStep(actions, q - 1);
      assert Stepped(setup, states[q - 1], actions[q - 1], states[q]);
      InStepKept(setup, states[0].current.custom, Calls(actions[..q - 1]), states[q - 1], actions[q - 1], states[q]);
    }
  }

  /** In state `m`, with the next publication last, the published samples are those after all calls but one. */
  lemma SamplesInState(setup: Setup, actions: seq<Action>, states: seq<System>, m: nat)
    requires CustomProfile(setup) && Steady(setup, actions, states) && Starts(setup, states[0])
    requires m < |actions| && PublishedCalls(states[m], |Calls(actions[..m])|) > 0
    requires actions[|actions| - 1].Publish? && forall k :: m <= k < |actions| - 1 ==> !actions[k].Publish?
    ensures |Calls(actions)| > 1 && Noticed(states[m]) && states[m].publishedGeneration == states[m].generation
    ensures WellFormed(states[m].published, setup)
    ensures states[m].published.custom
         == Run(states[0].current.custom, setup.map_, setup.fp, Calls(actions)[..|Calls(actions)| - 1])
  {
    hide Run, WellFormed, Next;
    var last := |actions| - 1;
    var all := Calls(actions);
    SteadyRun(setup, actions, states, m);
    SteadyRun(setup, actions, states, last);
    UnpublishedUntil(setup, actions, states, m, last);
    assert Stepped(setup, states[last], actions[last], states[last + 1]);
    assert Calls(actions[..last]) == all;
    var published := PublishedCalls(states[m], |Calls(actions[..m])|);
    assert published == |all| - 1;
    CallsPrefix(actions, m, last);
    assert Calls(actions[..m])[..published] == all[..published];
  }

  // ----- what the snapshot shows -----

  /** Every snapshot over a healthy link. Let a read of point `i` succeed and decode, let the link not change
      and the poller stay healthy from there on, and let some iteration be published since. A snapshot of the
      published samples in state `m` shows point `i` good at any time until the next publication, which comes
      within the budget of the call that it publishes. */
  lemma HealthySnapshot(setup: Setup, actions: seq<Action>, states: seq<System>, i: nat, m: nat, seen: nat)
    requires CustomProfile(setup) && Steady(setup, actions, states) && Starts(setup, states[0]) && i < |setup.map_|
    requires var calls := Calls(actions);
      var s := states[0].current.custom;
      && calls != [] && GoodRead(s, setup.map_, setup.fp, calls[0], i)
      && Healthy(CustomPoll.Step(s, setup.map_, setup.fp, calls[0].now, calls[0].reply), setup.map_, setup.fp,
                 calls[1..], BUDGET - calls[0].reply.result.elapsedMs, i)
    requires m < |actions| && PublishedCalls(states[m], |Calls(actions[..m])|) > 0
    requires var last := |actions| - 1;
      && actions[last].Publish? && (forall k :: m <= k < last ==> !actions[k].Publish?)
      && seen <= actions[last].resetAt <= Calls(actions)[|Calls(actions)| - 1].now + BUDGET
    ensures WellFormed(states[m].published, setup) && ShownCustomPoint(states[m], setup, i, seen).quality.Good?
  {
    hide Stepped, Run, Healthy, GoodRead, CustomPoll.Step, CustomPoll.Shown;
    var all := Calls(actions);
    SamplesInState(setup, actions, states, m);
    StaleLimitCoversSweep(states[0].current.custom, setup.map_, setup.fp, all[0], all[1..], i, |all| - 2, seen);
    assert [all[0]] + all[1..][..|all| - 2] == all[..|all| - 1];
  }
}
