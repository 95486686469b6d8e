/**
 The FreeRTOS tasks of main/app_main.c that share the network state: the event handler, the poll task and
 the snapshot readers, interleaved at the boundaries of the one lock. Every change of the link
 starts a new network generation.
 */
module LinkGeneration {
  import opened Base
  import opened AtsModel
  import opened CustomPoint
  import GatewayPoll
  import CustomPoll

  // ----- the shared state and the poll task's own -----

  /** Where the poll task is: about to read the link, about to work, about to publish. */
  datatype Phase = Idle | Working(up: bool, changed: nat) | Publishing(up: bool, changed: nat)

  /** History of one poll iteration: the link as it was read at its start and, once published, at its end. */
  datatype Iteration = Iteration(startUp: bool, startGeneration: nat, ended: bool, endUp: bool, endGeneration: nat)

  /** Both pollers, with the iteration in which each sample was last taken. */
  datatype Pollers = Pollers(ats: GatewayPoll.State, custom: CustomPoll.State,
                             blockOrigin: seq<nat>, pointOrigin: seq<nat>)

  datatype System = System(
    networkUp: bool, generation: nat,
    phase: Phase, previousUp: bool, seenGeneration: nat, current: Pollers,
    published: Pollers, publishedGeneration: nat,
    clock: nat, iterations: seq<Iteration>)

  /** What stays fixed until reboot. */
  datatype Setup = Setup(isCustom: bool, configError: bool, cfg: GatewayPoll.Config, map_: seq<Point>, fp: Floats)

  predicate WellFormed(p: Pollers, setup: Setup) {
    && p.ats.Valid() && p.custom.Valid(setup.map_)
    && |p.blockOrigin| == BLOCK_COUNT && |p.pointOrigin| == |setup.map_|
  }

  function InitialPollers(setup: Setup): (p: Pollers)
    requires CustomPoll.ValidMap(setup.map_)
    ensures WellFormed(p, setup)
  {
    Pollers(GatewayPoll.Initial(), CustomPoll.Initial(setup.map_),
            seq(BLOCK_COUNT, i => 0), seq(|setup.map_|, i => 0))
  }

  function Initial(setup: Setup): System
    requires CustomPoll.ValidMap(setup.map_)
  {
    System(false, 0, Idle, false, 0, InitialPollers(setup), InitialPollers(setup), 0, 0, [])
  }

  // ----- steps -----

  datatype Action =
    | NetworkEvent(gotIp: bool) // got an address, or link down / stopped / address lost
    | Begin // poll task: read the link under the lock
    | Work(offlineAt: nat, resetAt: nat, stepAt: nat, reply: Reply) // poll task, without the lock
    | Publish(offlineAt: nat, resetAt: nat) // poll task: under the lock
    | Wait(until: nat)

  function TakeOffline(p: Pollers, offlineAt: nat, resetAt: nat): Pollers
    requires p.ats.Valid()
  {
    p.(ats := GatewayPoll.Offline(p.ats, offlineAt).(nextRequest := resetAt),
       custom := CustomPoll.Offline(p.custom).(nextRequest := resetAt))
  }

  /** The block a step of the ATS poller reads successfully, if any; BLOCK_COUNT otherwise. */
  function SampledBlock(s: GatewayPoll.State, now: nat, reply: Reply): nat
    requires s.Valid()
  {
    if now < s.nextRequest || !reply.result.error.Ok? then BLOCK_COUNT
    else
      var r := GatewayPoll.Plan(GatewayPoll.Recheck(s, now), now);
      if r.Data? then r.block else BLOCK_COUNT
  }

  /** The point a step of the custom poller reads and decodes, if any; the map's size otherwise. */
  function SampledPoint(s: CustomPoll.State, setup: Setup, now: nat, reply: Reply): nat
    requires s.Valid(setup.map_)
  {
    var slot := CustomPoll.Slot(s, now);
    if slot == |setup.map_| || !reply.result.error.Ok? then |setup.map_|
    else
      var p := setup.map_[slot];
      if Decoded(p, reply.words[..p.wordCount], setup.fp).Some? then slot else |setup.map_|
  }

  function Stamp(origin: seq<nat>, slot: nat, iteration: nat): seq<nat> {
    if slot < |origin| then origin[slot := iteration] else origin
  }

  /** One call of the active poller during iteration `iteration`. */
  function StepActive(p: Pollers, setup: Setup, now: nat, reply: Reply, iteration: nat): Pollers
    requires WellFormed(p, setup)
  {
    if setup.isCustom then
      p.(custom := CustomPoll.Step(p.custom, setup.map_, setup.fp, now, reply),
         pointOrigin := Stamp(p.pointOrigin, SampledPoint(p.custom, setup, now, reply), iteration))
    else
      p.(ats := GatewayPoll.Step(p.ats, setup.cfg, now, reply),
         blockOrigin := Stamp(p.blockOrigin, SampledBlock(p.ats, now, reply), iteration))
  }

  /** An action is possible in this phase, and the clock does not run backwards. */
  predicate Enabled(sys: System, action: Action) {
    match action
    case NetworkEvent(_) => true
    case Begin => sys.phase.Idle?
    case Work(offlineAt, resetAt, stepAt, _) => sys.phase.Working? && sys.clock <= offlineAt <= resetAt <= stepAt
    case Publish(offlineAt, resetAt) => sys.phase.Publishing? && sys.clock <= offlineAt <= resetAt
    case Wait(until) => sys.clock <= until
  }

  /** The link was lost or has changed since the last iteration. */
  predicate LinkNews(sys: System)
    requires sys.phase.Working?
  {
    (sys.previousUp && !sys.phase.up) || (sys.phase.up && sys.phase.changed != sys.seenGeneration)
  }

  /** The link is down or has changed since the iteration began. */
  predicate Overtaken(sys: System)
    requires sys.phase.Publishing?
  {
    !sys.networkUp || sys.generation != sys.phase.changed
  }

  /** The pollers with which the work of an iteration starts: offline if the link was lost or changed. */
  function Ready(sys: System, offlineAt: nat, resetAt: nat): Pollers
    requires sys.phase.Working? && sys.current.ats.Valid()
  {
    if LinkNews(sys) then TakeOffline(sys.current, offlineAt, resetAt) else sys.current
  }

  /** The pollers that an iteration publishes: offline if a link change has overtaken it. */
  function Settled(sys: System, offlineAt: nat, resetAt: nat): Pollers
    requires sys.phase.Publishing? && sys.current.ats.Valid()
  {
    if Overtaken(sys) then TakeOffline(sys.current, offlineAt, resetAt) else sys.current
  }

  /** The link as it was when an iteration was published. */
  function Ended(iterations: seq<Iteration>, up: bool, generation: nat): seq<Iteration>
    requires iterations != []
  {
    var last := |iterations| - 1;
    iterations[last := iterations[last].(ended := true, endUp := up, endGeneration := generation)]
  }

  function Next(sys: System, setup: Setup, action: Action): System
    requires WellFormed(sys.current, setup) && Enabled(sys, action)
    requires !sys.phase.Idle? ==> sys.iterations != []
  {
    match action
    case NetworkEvent(gotIp) => sys.(networkUp := gotIp, generation := sys.generation + 1)
    case Begin =>
      sys.(phase := Working(sys.networkUp, sys.generation),
           iterations := sys.iterations + [Iteration(sys.networkUp, sys.generation, false, false, 0)])
    case Work(offlineAt, resetAt, stepAt, reply) =>
      var up, changed := sys.phase.up, sys.phase.changed;
      var ready := Ready(sys, offlineAt, resetAt);
      var stepped :=
        if up && !setup.configError then StepActive(ready, setup, stepAt, reply, |sys.iterations| - 1) else ready;
      sys.(phase := Publishing(up, changed), current := stepped, clock := stepAt + reply.result.elapsedMs)
    case Publish(offlineAt, resetAt) =>
      var up, changed := sys.phase.up, sys.phase.changed;
      var final := Settled(sys, offlineAt, resetAt);
      sys.(phase := Idle, current := final, published := final, publishedGeneration := changed,
           previousUp := up, seenGeneration := changed, clock := resetAt,
           iterations := Ended(sys.iterations, sys.networkUp, sys.generation))
    case Wait(until) => sys.(clock := until)
  }

  /** `snapshot_values` replaces every quality unless the link is up and the sample set is of this generation. */
  predicate SnapshotUsable(sys: System, setup: Setup) {
    sys.networkUp && sys.publishedGeneration == sys.generation && !setup.configError
  }

  function ShownBlockPoint(sys: System, setup: Setup, def: PointDef, now: nat): Value
    requires WellFormed(sys.published, setup) && AtsModel.ValidPoint(def)
  {
    var value := DecodePoint(sys.published.ats.blocks, def, now);
    if SnapshotUsable(sys, setup) then value else value.(quality := CommFailure)
  }

  function ShownCustomPoint(sys: System, setup: Setup, i: nat, now: nat): Value
    requires WellFormed(sys.published, setup) && i < |setup.map_|
  {
    var value := CustomPoll.Shown(sys.published.custom, setup.map_, i, now);
    if SnapshotUsable(sys, setup) then value else value.(quality := CommFailure)
  }

  /** What the readers see, with the condition written out: link up, sample set of the present generation,
      configuration in order. Anything else turns every quality, and the quality alone, into communication
      failure. */
  lemma ShownExactly(sys: System, setup: Setup, now: nat)
    requires WellFormed(sys.published, setup)
    ensures forall def: PointDef :: AtsModel.ValidPoint(def) ==>
      var value := DecodePoint(sys.published.ats.blocks, def, now);
      ShownBlockPoint(sys, setup, def, now) ==
        if sys.networkUp && sys.publishedGeneration == sys.generation && !setup.configError
        then value else value.(quality := CommFailure)
    ensures forall i: nat :: i < |setup.map_| ==>
      var value, age := sys.published.custom.values[i], now - sys.published.custom.values[i].lastGood;
      ShownCustomPoint(sys, setup, i, now) ==
        if && sys.networkUp && sys.publishedGeneration == sys.generation && !setup.configError
           && !(sys.published.custom.acquired[i] && age > 5000 && age > 3 * setup.map_[i].pollMs
                && age > 750 * |setup.map_| + 1200)
        then value else value.(quality := CommFailure)
  {
    forall i: nat | i < |setup.map_| {
      CustomPoll.ShownExactly(sys.published.custom, setup.map_, i, now);
    }
  }

  // ----- what is true of every sample -----

  predicate UsableBlock(p: Pollers, i: nat)
    requires i < |p.ats.blocks|
  {
    p.ats.blocks[i].acquired && !p.ats.blocks[i].failed
  }

  predicate UsablePoint(p: Pollers, i: nat)
    requires i < |p.custom.values|
  {
    p.custom.values[i].quality.Good?
  }

  /** The iteration started in generation `g` with the link up and was published in it with the link up. */
  predicate Within(it: Iteration, g: nat) {
    it.startUp && it.startGeneration == g && it.ended && it.endUp && it.endGeneration == g
  }

  /** Every usable sample was taken in an iteration that satisfies `ok`. */
  ghost predicate AllFrom(p: Pollers, setup: Setup, ok: nat -> bool)
    requires WellFormed(p, setup)
  {
    && (forall i :: 0 <= i < BLOCK_COUNT && UsableBlock(p, i) ==> ok(p.blockOrigin[i]))
    && (forall i :: 0 <= i < |setup.map_| && UsablePoint(p, i) ==> ok(p.pointOrigin[i]))
  }

  ghost predicate DatedBlocks(p: Pollers, clock: nat) {
    forall i :: 0 <= i < |p.ats.blocks| && p.ats.blocks[i].acquired ==> p.ats.blocks[i].lastGood <= clock
  }

  /** Iterations lying wholly within generation `g`. */
  function WithinAt(iterations: seq<Iteration>, g: nat): nat -> bool {
    (k: nat) => k < |iterations| && Within(iterations[k], g)
  }

  /** The same, or the running iteration, started in `g` with the link up. */
  function WithinOrRunning(iterations: seq<Iteration>, g: nat): nat -> bool {
    (k: nat) => k < |iterations| &&
         (Within(iterations[k], g) ||
          (k == |iterations| - 1 && iterations[k].startUp && iterations[k].startGeneration == g))
  }

  ghost predicate Nothing(p: Pollers, setup: Setup)
    requires WellFormed(p, setup)
  {
    AllFrom(p, setup, k => false)
  }

  /** The invariant of the interleaving. */
  ghost predicate Inv(sys: System, setup: Setup) {
    && WellFormed(sys.current, setup) && WellFormed(sys.published, setup)
    && DatedBlocks(sys.current, sys.clock)
    && sys.seenGeneration <= sys.generation && sys.publishedGeneration <= sys.generation
    && (sys.seenGeneration == sys.generation ==> sys.previousUp == sys.networkUp)
    && AllFrom(sys.published, setup, WithinAt(sys.iterations, sys.publishedGeneration))
    && (!sys.phase.Idle? ==>
          && sys.iterations != [] && sys.phase.changed <= sys.generation
          && (sys.phase.changed == sys.generation ==> sys.phase.up == sys.networkUp)
          && sys.iterations[|sys.iterations| - 1] == Iteration(sys.phase.up, sys.phase.changed, false, false, 0))
    && (match sys.phase
        case Publishing(up, changed) =>
          AllFrom(sys.current, setup, WithinOrRunning(sys.iterations, changed)) && (!up ==> Nothing(sys.current, setup))
        case _ =>
          && AllFrom(sys.current, setup, WithinAt(sys.iterations, sys.seenGeneration))
          && (!sys.previousUp ==> Nothing(sys.current, setup)))
  }

  // ----- preservation -----

  lemma OfflineClears(p: Pollers, setup: Setup, offlineAt: nat, resetAt: nat)
    requires WellFormed(p, setup) && DatedBlocks(p, offlineAt)
    ensures var q := TakeOffline(p, offlineAt, resetAt);
      WellFormed(q, setup) && Nothing(q, setup) && DatedBlocks(q, offlineAt)
  {
  }

  lemma FailedBlocks(s: GatewayPoll.State, completed: nat, exceptionCode: byte)
    requires s.Valid()
    ensures var t := GatewayPoll.Failed(s, completed, exceptionCode);
      t.blocks == s.blocks || t.blocks == FailAll(s.blocks, completed)
  {
    hide FailAll, ValidBlocks, Backoff;
  }

  lemma IdentityBlocks(s: GatewayPoll.State, cfg: GatewayPoll.Config, completed: nat, oldMap: bool, words: Buffer)
    requires s.Valid()
    ensures var t := GatewayPoll.IdentityAnswered(s, cfg, completed, oldMap, words);
      t.blocks == s.blocks || t.blocks == FailAll(s.blocks, completed)
  {
    hide FailAll, ValidBlocks;
  }

  lemma SentBlocks(s: GatewayPoll.State, r: GatewayPoll.Request, now: nat, reply: Reply)
    requires s.Valid() && !r.Nothing? && (r.Data? ==> r.block < BLOCK_COUNT)
    ensures GatewayPoll.Sent(s, r, now, reply).blocks == s.blocks
  {
  }

  /** A request makes a block usable only by reading it. */
  lemma BlocksAfterRequest(s: GatewayPoll.State, cfg: GatewayPoll.Config, now: nat, reply: Reply, i: nat)
    requires s.Valid() && i < BLOCK_COUNT && !GatewayPoll.Plan(s, now).Nothing?
    requires s.blocks[i].acquired ==> s.blocks[i].lastGood <= now
    ensures var r := GatewayPoll.Plan(s, now);
      var t := GatewayPoll.Concluded(s, r, cfg, now, reply);
      && (t.blocks[i].acquired && !t.blocks[i].failed ==>
            (s.blocks[i].acquired && !s.blocks[i].failed) || (r == GatewayPoll.Data(i) && reply.result.error.Ok?))
      && (t.blocks[i].acquired ==> t.blocks[i].lastGood <= now + reply.result.elapsedMs)
  {
    hide GatewayPoll.Plan, GatewayPoll.Failed, GatewayPoll.IdentityAnswered, GatewayPoll.Sent, Block;
    var r := GatewayPoll.Plan(s, now);
    var completed := now + reply.result.elapsedMs;
    var sent := GatewayPoll.Sent(s, r, now, reply);
    assert sent.blocks == s.blocks by { SentBlocks(s, r, now, reply); }
    var counted := GatewayPoll.CountFailure(sent);
    var failed := if r.Data? then GatewayPoll.BlockFailed(counted, r.block, completed) else counted;
    FailedBlocks(failed, completed, reply.result.exceptionCode);
    IdentityBlocks(GatewayPoll.CountSuccess(sent, completed), cfg, completed,
                   r.Identity? && GatewayPoll.ExpectedException(s.stage, reply), reply.words);
  }

  /** A step of the ATS poller makes a block usable only by reading it. */
  lemma BlocksAfterStep(s: GatewayPoll.State, cfg: GatewayPoll.Config, now: nat, reply: Reply, i: nat)
    requires s.Valid() && i < BLOCK_COUNT
    requires s.blocks[i].acquired ==> s.blocks[i].lastGood <= now
    ensures var t := GatewayPoll.Step(s, cfg, now, reply);
      && (t.blocks[i].acquired && !t.blocks[i].failed ==>
            (s.blocks[i].acquired && !s.blocks[i].failed) || SampledBlock(s, now, reply) == i)
      && (t.blocks[i].acquired ==> t.blocks[i].lastGood <= now + reply.result.elapsedMs)
  {
    hide GatewayPoll.Plan, GatewayPoll.Concluded;
    var ready := GatewayPoll.Recheck(s, now);
    if now >= s.nextRequest && !GatewayPoll.Plan(ready, now).Nothing? {
      BlocksAfterRequest(ready, cfg, now, reply, i);
    }
  }

  lemma PointsAfterStep(s: CustomPoll.State, setup: Setup, now: nat, reply: Reply, i: nat)
    requires s.Valid(setup.map_) && i < |setup.map_|
    ensures var t := CustomPoll.Step(s, setup.map_, setup.fp, now, reply);
      t.values[i].quality.Good? ==> s.values[i].quality.Good? || SampledPoint(s, setup, now, reply) == i
  {
  }

  lemma StepKeeps(p: Pollers, setup: Setup, now: nat, reply: Reply, iterations: seq<Iteration>, g: nat)
    requires WellFormed(p, setup) && DatedBlocks(p, now) && iterations != []
    requires var last := iterations[|iterations| - 1]; last.startUp && last.startGeneration == g
    requires AllFrom(p, setup, WithinAt(iterations, g))
    ensures var q := StepActive(p, setup, now, reply, |iterations| - 1);
      && WellFormed(q, setup) && DatedBlocks(q, now + reply.result.elapsedMs)
      && AllFrom(q, setup, WithinOrRunning(iterations, g))
  {
    var q := StepActive(p, setup, now, reply, |iterations| - 1);
    forall i | 0 <= i < BLOCK_COUNT
      ensures UsableBlock(q, i) ==> WithinOrRunning(iterations, g)(q.blockOrigin[i])
      ensures q.ats.blocks[i].acquired ==> q.ats.blocks[i].lastGood <= now + reply.result.elapsedMs
    {
      BlocksAfterStep(p.ats, setup.cfg, now, reply, i);
    }
    forall i | 0 <= i < |setup.map_| && UsablePoint(q, i)
      ensures WithinOrRunning(iterations, g)(q.pointOrigin[i])
    {
      PointsAfterStep(p.custom, setup, now, reply, i);
    }
  }

  lemma InitialHolds(setup: Setup)
    requires CustomPoll.ValidMap(setup.map_)
    ensures Inv(Initial(setup), setup)
  {
  }

  lemma BeginKeeps(sys: System, setup: Setup)
    requires Inv(sys, setup) && sys.phase.Idle?
    ensures Inv(Next(sys, setup, Begin), setup)
  {
    var longer := Next(sys, setup, Begin).iterations;
    assert forall k :: 0 <= k < |sys.iterations| ==> longer[k] == sys.iterations[k];
  }

  lemma WorkKeeps(sys: System, setup: Setup, offlineAt: nat, resetAt: nat, stepAt: nat, reply: Reply)
    requires Inv(sys, setup) && Enabled(sys, Work(offlineAt, resetAt, stepAt, reply))
    ensures Inv(Next(sys, setup, Work(offlineAt, resetAt, stepAt, reply)), setup)
  {
    hide StepActive, TakeOffline;
    var up, changed := sys.phase.up, sys.phase.changed;
    OfflineClears(sys.current, setup, offlineAt, resetAt);
    var ready := Ready(sys, offlineAt, resetAt);
    assert AllFrom(ready, setup, WithinAt(sys.iterations, changed));
    assert !up ==> Nothing(ready, setup);
    if up && !setup.configError {
      StepKeeps(ready, setup, stepAt, reply, sys.iterations, changed);
    }
  }

  lemma PublishKeeps(sys: System, setup: Setup, offlineAt: nat, resetAt: nat)
    requires Inv(sys, setup) && Enabled(sys, Publish(offlineAt, resetAt))
    ensures Inv(Next(sys, setup, Publish(offlineAt, resetAt)), setup)
  {
    var changed := sys.phase.changed;
    var next := Next(sys, setup, Publish(offlineAt, resetAt));
    var last := |sys.iterations| - 1;
    assert forall k :: 0 <= k < last ==> next.iterations[k] == sys.iterations[k];
    OfflineClears(sys.current, setup, offlineAt, resetAt);
    if sys.networkUp && sys.generation == changed {
      assert Within(next.iterations[last], changed);
      assert AllFrom(next.current, setup, WithinAt(next.iterations, changed));
    }
  }

  lemma NextKeeps(sys: System, setup: Setup, action: Action)
    requires Inv(sys, setup) && Enabled(sys, action)
    ensures Inv(Next(sys, setup, action), setup)
  {
    match action {
      case NetworkEvent(_) =>
      case Begin => BeginKeeps(sys, setup);
      case Work(offlineAt, resetAt, stepAt, reply) => WorkKeeps(sys, setup, offlineAt, resetAt, stepAt, reply);
      case Publish(offlineAt, resetAt) => PublishKeeps(sys, setup, offlineAt, resetAt);
      case Wait(_) =>
    }
  }

  // ----- every interleaving -----

  /** `sys` is reached from power-up by the listed actions. */
  ghost predicate Reaches(setup: Setup, actions: seq<Action>, sys: System)
    requires CustomPoll.ValidMap(setup.map_)
  {
    if actions == [] then sys == Initial(setup)
    else
      exists before: System ::
        && Reaches(setup, actions[..|actions| - 1], before)
        && WellFormed(before.current, setup) && (!before.phase.Idle? ==> before.iterations != [])
        && Enabled(before, actions[|actions| - 1])
        && sys == Next(before, setup, actions[|actions| - 1])
  }

  lemma {:induction false} ReachedHolds(setup: Setup, actions: seq<Action>, sys: System)
    requires CustomPoll.ValidMap(setup.map_) && Reaches(setup, actions, sys)
    ensures Inv(sys, setup)
    decreases |actions|
  {
    if actions == [] {
      InitialHolds(setup);
    } else {
      var before :| && Reaches(setup, actions[..|actions| - 1], before)
                    && WellFormed(before.current, setup) && (!before.phase.Idle? ==> before.iterations != [])
                    && Enabled(before, actions[|actions| - 1])
                    && sys == Next(before, setup, actions[|actions| - 1]);
      ReachedHolds(setup, actions[..|actions| - 1], before);
      NextKeeps(before, setup, actions[|actions| - 1]);
    }
  }

  /** Link-generation safety, ATS profiles: in every interleaving, a point shown as anything but
      communication failure carries a sample from an iteration that started and was published
      within the present network generation, with the link up. */
  lemma BlockPointIsCurrent(setup: Setup, actions: seq<Action>, sys: System, def: PointDef, now: nat)
    requires CustomPoll.ValidMap(setup.map_) && Reaches(setup, actions, sys)
    requires WellFormed(sys.published, setup) && AtsModel.ValidPoint(def)
    requires !ShownBlockPoint(sys, setup, def, now).quality.CommFailure?
    ensures var i := ContainingBlock(def.offset, def.wordCount);
      && i >= 0
      && var k := sys.published.blockOrigin[i];
         k < |sys.iterations| && Within(sys.iterations[k], sys.generation) && sys.networkUp
  {
    ReachedHolds(setup, actions, sys);
    DecodedQualityMeansGoodBlock(sys.published.ats.blocks, def, now);
    var i := ContainingBlock(def.offset, def.wordCount);
    assert UsableBlock(sys.published, i);
  }

  /** Link-generation safety, custom profile. */
  lemma CustomPointIsCurrent(setup: Setup, actions: seq<Action>, sys: System, i: nat, now: nat)
    requires CustomPoll.ValidMap(setup.map_) && Reaches(setup, actions, sys)
    requires WellFormed(sys.published, setup) && i < |setup.map_|
    requires ShownCustomPoint(sys, setup, i, now).quality.Good?
    ensures var k := sys.published.pointOrigin[i];
      k < |sys.iterations| && Within(sys.iterations[k], sys.generation) && sys.networkUp
  {
    ReachedHolds(setup, actions, sys);
    assert UsablePoint(sys.published, i);
  }
}
