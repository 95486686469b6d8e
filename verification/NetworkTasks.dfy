/**
 The code of the three parties of main/app_main.c that share the network state. Every method is one
 section between lock operations; the interleavings of these sections are the runs of LinkGeneration.
 */
module NetworkTasks {
  import opened Base
  import opened AtsModel
  import opened CustomPoint
  import opened LinkGeneration
  import GatewayPoll
  import CustomPoll

  // ----- failures for the history -----

  /** What `record_failure` is given: the request that failed, and how. */
  datatype Failure = Failure(function_: nat, offset: word, quantity: nat, tid: word, identity: bool, result: MbResult)

  /** The request of the custom poller that fails at `now`, if one does. */
  function CustomFailure(s: CustomPoll.State, setup: Setup, now: nat, reply: Reply): Option<Failure>
    requires s.Valid(setup.map_)
  {
    var slot := CustomPoll.Slot(s, now);
    if slot == |setup.map_| || reply.result.error.Ok? then None
    else
      var p := setup.map_[slot];
      Some(Failure(p.function_, p.offset, p.wordCount, Bump16(s.tid), false, reply.result))
  }

  /** The request of the ATS poller that fails at `now`, if one does. The refusal by which the old map is
      recognized is not a failure. */
  function AtsFailure(s: GatewayPoll.State, now: nat, reply: Reply): Option<Failure>
    requires s.Valid()
  {
    var ready := GatewayPoll.Recheck(s, now);
    var r := GatewayPoll.Plan(ready, now);
    if now < s.nextRequest || r.Nothing? || reply.result.error.Ok? then None
    else if r.Identity? && GatewayPoll.ExpectedException(ready.stage, reply) then None
    else Some(Failure(3, GatewayPoll.Offset(r), GatewayPoll.Quantity(r), Bump16(s.tid), r.Identity?, reply.result))
  }

  /** The failure of the iteration's request, if it makes one and it fails. */
  function FailureOf(sys: System, setup: Setup, offlineAt: nat, resetAt: nat, stepAt: nat, reply: Reply)
    : Option<Failure>
    requires WellFormed(sys.current, setup) && sys.phase.Working?
  {
    var ready := Ready(sys, offlineAt, resetAt);
    if !sys.phase.up || setup.configError then None
    else if setup.isCustom then CustomFailure(ready.custom, setup, stepAt, reply)
    else AtsFailure(ready.ats, stepAt, reply)
  }

  /** The failure counter moves exactly with a failed request, whose data are then in the last-request
      fields; the counter wraps, but never onto itself. */
  lemma CustomFailureShows(s: CustomPoll.State, setup: Setup, now: nat, reply: Reply)
    requires s.Valid(setup.map_)
    ensures var t := CustomPoll.Step(s, setup.map_, setup.fp, now, reply);
      CustomFailure(s, setup, now, reply) ==
        if t.failures == s.failures then None
        else Some(Failure(t.lastFunction, t.lastOffset, t.lastQuantity, t.tid, false, t.lastResult))
  {
  }

  lemma AtsFailureShows(s: GatewayPoll.State, cfg: GatewayPoll.Config, now: nat, reply: Reply)
    requires s.Valid()
    ensures var t := GatewayPoll.Step(s, cfg, now, reply);
      AtsFailure(s, now, reply) ==
        if t.failures == s.failures then None
        else Some(Failure(3, t.lastOffset, t.lastQuantity, t.tid, t.lastChecking, t.lastResult))
  {
  }

  /** What the iteration hands to the history: exactly when the failure counter of the profile's poller has moved
      over its work, the last request of that poller. */
  lemma FailureHanded(sys: System, setup: Setup, offlineAt: nat, resetAt: nat, stepAt: nat, reply: Reply)
    requires WellFormed(sys.current, setup) && sys.iterations != []
    requires Enabled(sys, Action.Work(offlineAt, resetAt, stepAt, reply))
    ensures var after := Next(sys, setup, Action.Work(offlineAt, resetAt, stepAt, reply)).current;
      FailureOf(sys, setup, offlineAt, resetAt, stepAt, reply) ==
        if setup.isCustom then
          var custom := after.custom;
          if custom.failures == sys.current.custom.failures then None
          else Some(Failure(custom.lastFunction, custom.lastOffset, custom.lastQuantity, custom.tid, false,
                            custom.lastResult))
        else
          var ats := after.ats;
          if ats.failures == sys.current.ats.failures then None
          else Some(Failure(3, ats.lastOffset, ats.lastQuantity, ats.tid, ats.lastChecking, ats.lastResult))
  {
    hide CustomFailure, AtsFailure, GatewayPoll.Step, CustomPoll.Step, SampledBlock, SampledPoint;
    var ready := Ready(sys, offlineAt, resetAt);
    CustomFailureShows(ready.custom, setup, stepAt, reply);
    AtsFailureShows(ready.ats, setup.cfg, stepAt, reply);
  }

  class Gateway {
    const setup: Setup
    // shared, under the lock
    var networkUp: bool
    var generation: nat
    var published: Pollers
    var publishedGeneration: nat
    // local to the poll loop; `phase` holds the values it read under the lock
    var current: Pollers
    var previousUp: bool
    var seenGeneration: nat
    var phase: Phase
    // history, not kept by the firmware
    var clock: nat
    var iterations: seq<Iteration>

    ghost predicate Valid()
      reads this
    {
      && WellFormed(current, setup) && WellFormed(published, setup)
      && (!phase.Idle? ==> iterations != [])
    }

    ghost function View(): System
      reads this
    {
      System(networkUp, generation, phase, previousUp, seenGeneration, current, published, publishedGeneration,
             clock, iterations)
    }

    /** Power-up, until the event handlers are registered and the poll loop starts. */
    constructor (setup: Setup)
      requires CustomPoll.ValidMap(setup.map_)
      ensures this.setup == setup && Valid() && View() == Initial(setup)
    {
      this.setup := setup;
      networkUp, generation, publishedGeneration := false, 0, 0;
      published, current := InitialPollers(setup), InitialPollers(setup);
      previousUp, seenGeneration, phase := false, 0, Phase.Idle;
      clock, iterations := 0, [];
    }

    /** `network_event`: an address was obtained, or the link or the address was lost. */
    method NetworkEvent(gotIp: bool)
      requires Valid()
      modifies this`networkUp, this`generation
      ensures Valid() && View() == Next(old(View()), setup, Action.NetworkEvent(gotIp))
    {
      networkUp := gotIp;
      generation := generation + 1;
    }

    /** First lock section of a poll iteration. */
    method ReadLink()
      requires Valid() && phase.Idle?
      modifies this`phase, this`iterations
      ensures Valid() && View() == Next(old(View()), setup, Begin)
    {
      phase := Working(networkUp, generation);
      iterations := iterations + [Iteration(networkUp, generation, false, false, 0)];
    }

    method GoOffline(offlineAt: nat, resetAt: nat)
      requires WellFormed(current, setup)
      modifies this`current
      ensures current == TakeOffline(old(current), offlineAt, resetAt) && WellFormed(current, setup)
    {
      var ats := GatewayPoll.Offline(current.ats, offlineAt);
      var custom := CustomPoll.Offline(current.custom);
      current := current.(ats := ats.(nextRequest := resetAt), custom := custom.(nextRequest := resetAt));
    }

    /** Between the lock sections: react to a changed link, then step the poller of the profile. */
    method Work(offlineAt: nat, resetAt: nat, stepAt: nat, reply: Reply) returns (failure: Option<Failure>)
      requires Valid() && Enabled(View(), Action.Work(offlineAt, resetAt, stepAt, reply))
      modifies this`current, this`phase, this`clock
      ensures Valid() && View() == Next(old(View()), setup, Action.Work(offlineAt, resetAt, stepAt, reply))
      ensures failure == FailureOf(old(View()), setup, offlineAt, resetAt, stepAt, reply)
    {
      hide CustomFailure, AtsFailure;
      hide GatewayPoll.Step, CustomPoll.Step, SampledBlock, SampledPoint, TakeOffline;
      var up, changed := phase.up, phase.changed;
      if (previousUp && !up) || (up && changed != seenGeneration) {
        GoOffline(offlineAt, resetAt);
      }
      var iteration := |iterations| - 1;
      failure := None;
      if up && !setup.configError && setup.isCustom {
        var sampled := SampledPoint(current.custom, setup, stepAt, reply);
        var before := current.custom.failures;
        CustomFailureShows(current.custom, setup, stepAt, reply);
        current := current.(custom := CustomPoll.Step(current.custom, setup.map_, setup.fp, stepAt, reply),
                            pointOrigin := Stamp(current.pointOrigin, sampled, iteration));
        var custom := current.custom;
        if custom.failures != before {
          failure := Some(Failure(custom.lastFunction, custom.lastOffset, custom.lastQuantity, custom.tid, false,
                                  custom.lastResult));
        }
      } else if up && !setup.configError {
        var sampled := SampledBlock(current.ats, stepAt, reply);
        var before := current.ats.failures;
        AtsFailureShows(current.ats, setup.cfg, stepAt, reply);
        current := current.(ats := GatewayPoll.Step(current.ats, setup.cfg, stepAt, reply),
                            blockOrigin := Stamp(current.blockOrigin, sampled, iteration));
        var ats := current.ats;
        if ats.failures != before {
          failure := Some(Failure(3, ats.lastOffset, ats.lastQuantity, ats.tid, ats.lastChecking, ats.lastResult));
        }
      }
      phase := Publishing(up, changed);
      clock := stepAt + reply.result.elapsedMs;
    }

    /** Second lock section: a sample set that a link change has overtaken is faulted, then published. */
    method Publish(offlineAt: nat, resetAt: nat)
      requires Valid() && Enabled(View(), Action.Publish(offlineAt, resetAt))
      modifies this
      ensures Valid() && View() == Next(old(View()), setup, Action.Publish(offlineAt, resetAt))
    {
      hide Settled, Ended;
      FaultOvertaken(offlineAt, resetAt);
      CopyOut();
      NoteEnd(resetAt);
    }

    /** The current sample set under the generation its iteration started in, and what the next iteration
        compares the link with. */
    method CopyOut()
      requires !phase.Idle?
      modifies this`published, this`publishedGeneration, this`previousUp, this`seenGeneration, this`phase
      ensures published == current && publishedGeneration == old(phase).changed
      ensures previousUp == old(phase).up && seenGeneration == old(phase).changed && phase == Phase.Idle
    {
      published, publishedGeneration := current, phase.changed;
      previousUp, seenGeneration, phase := phase.up, phase.changed, Phase.Idle;
    }

    /** The link changed while the iteration ran: what it sampled must not pass for current. */
    method FaultOvertaken(offlineAt: nat, resetAt: nat)
      requires WellFormed(current, setup) && phase.Publishing?
      modifies this`current
      ensures WellFormed(current, setup) && current == Settled(old(View()), offlineAt, resetAt)
    {
      hide TakeOffline;
      if !networkUp || generation != phase.changed {
        GoOffline(offlineAt, resetAt);
      }
    }

    /** History only. */
    method NoteEnd(resetAt: nat)
      requires iterations != []
      modifies this`iterations, this`clock
      ensures clock == resetAt && iterations == Ended(old(iterations), networkUp, generation)
    {
      var last := |iterations| - 1;
      iterations :=
        iterations[last := iterations[last].(ended := true, endUp := networkUp, endGeneration := generation)];
      clock := resetAt;
    }

    /** `snapshot_values` with an ATS profile. */
    method SnapshotBlocks(points: seq<PointDef>, now: nat, values: array<Value>)
      requires Valid() && values.Length == |points|
      requires forall i :: 0 <= i < |points| ==> AtsModel.ValidPoint(points[i])
      modifies values
      ensures forall i :: 0 <= i < |points| ==> values[i] == ShownBlockPoint(View(), setup, points[i], now)
    {
      hide DecodePoint;
      for i := 0 to |points|
        invariant forall j :: 0 <= j < i ==> values[j] == DecodePoint(published.ats.blocks, points[j], now)
      {
        values[i] := DecodePoint(published.ats.blocks, points[i], now);
      }
      var up := networkUp && publishedGeneration == generation;
      if !up || setup.configError {
        for i := 0 to |points|
          invariant forall j :: 0 <= j < i ==> values[j] == ShownBlockPoint(View(), setup, points[j], now)
          invariant forall j :: i <= j < |points| ==> values[j] == DecodePoint(published.ats.blocks, points[j], now)
        {
          values[i] := values[i].(quality := CommFailure);
        }
      }
    }

    /** `snapshot_values` with the custom profile. */
    method SnapshotPoints(now: nat, values: array<Value>)
      requires Valid() && values.Length == |setup.map_|
      modifies values
      ensures forall i :: 0 <= i < |setup.map_| ==> values[i] == ShownCustomPoint(View(), setup, i, now)
    {
      hide CustomPoll.Shown;
      for i := 0 to |setup.map_|
        invariant forall j :: 0 <= j < i ==> values[j] == CustomPoll.Shown(published.custom, setup.map_, j, now)
      {
        values[i] := CustomPoll.Shown(published.custom, setup.map_, i, now);
      }
      var up := networkUp && publishedGeneration == generation;
      if !up || setup.configError {
        for i := 0 to |setup.map_|
          invariant forall j :: 0 <= j < i ==> values[j] == ShownCustomPoint(View(), setup, j, now)
          invariant forall j :: i <= j < |setup.map_| ==>
            values[j] == CustomPoll.Shown(published.custom, setup.map_, j, now)
        {
          values[i] := values[i].(quality := CommFailure);
        }
      }
    }
  }
}
