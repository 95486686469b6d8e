/**
 Where the ATS samples come from that other tasks show: the events of the poller (GatewayPollSafety) along the
 interleaved runs of main/app_main.c (LinkGeneration), each with the iteration in which it happened.
 */
module LinkProvenance {
  import opened Base
  import opened AtsModel
  import opened LinkGeneration
  import opened LinkSamples
  import CustomPoll
  import GatewayPoll
  import Safety = GatewayPollSafety

  // ----- the record of a run -----

  /** A poller with the events that led to it, and the iteration of each event. */
  datatype Record = Record(run: Safety.Run, iterations: seq<nat>)

  function Extended(iterations: seq<nat>, length: nat, iteration: nat): (longer: seq<nat>)
    ensures iterations <= longer && |longer| == Max(|iterations|, length)
    ensures forall k :: |iterations| <= k < |longer| ==> longer[k] == iteration
  {
    if |iterations| >= length then iterations else iterations + seq(length - |iterations|, k => iteration)
  }

  function Lost(r: Record, offlineAt: nat, resetAt: nat, iteration: nat): (after: Record)
    requires r.run.state.Valid()
    ensures after.run.state.Valid()
  {
    Record(Safety.Run(GatewayPoll.Offline(r.run.state, offlineAt).(nextRequest := resetAt),
                      r.run.trace + [Safety.Faulted(offlineAt)], resetAt),
           r.iterations + [iteration])
  }

  function Called(r: Record, cfg: GatewayPoll.Config, now: nat, reply: Reply, iteration: nat): (after: Record)
    requires r.run.state.Valid()
    ensures after.run.state.Valid()
  {
    var run := Safety.Extend(r.run, cfg, Safety.Call(now, reply));
    Record(run, Extended(r.iterations, |run.trace|, iteration))
  }

  /** The record with which the work of an iteration starts. */
  function ReadyRecord(r: Record, sys: System, offlineAt: nat, resetAt: nat): (after: Record)
    requires r.run.state.Valid() && sys.phase.Working? && sys.iterations != []
    ensures after.run.state.Valid()
  {
    if LinkNews(sys) then Lost(r, offlineAt, resetAt, |sys.iterations| - 1) else r
  }

  /** What an action adds to the record of the poller in work. */
  function Recorded(r: Record, sys: System, setup: Setup, action: Action): (after: Record)
    requires r.run.state.Valid() && Enabled(sys, action) && (!sys.phase.Idle? ==> sys.iterations != [])
    ensures after.run.state.Valid()
  {
    match action
    case Work(offlineAt, resetAt, stepAt, reply) =>
      var ready := ReadyRecord(r, sys, offlineAt, resetAt);
      if sys.phase.up && !setup.configError && !setup.isCustom
      then Called(ready, setup.cfg, stepAt, reply, |sys.iterations| - 1) else ready
    case Publish(offlineAt, resetAt) =>
      if Overtaken(sys) then Lost(r, offlineAt, resetAt, |sys.iterations| - 1) else r
    case _ => r
  }

  /** The records of the pollers in work and of the published ones. */
  datatype Records = Records(work: Record, published: Record)

  ghost function RecordsOf(past: Past): (rs: Records)
    requires past.Valid()
    ensures rs.work.run.state.Valid() && rs.published.run.state.Valid()
    decreases past.n
  {
    if past.n == 0 then
      var none := Record(Safety.Run(GatewayPoll.Initial(), [], 0), []);
      Records(none, none)
    else
      var earlier := past.(n := past.n - 1);
      var action := past.actions[earlier.n];
      assert Stepped(past.setup, past.states[earlier.n], action, past.states[past.n]);
      var rs := RecordsOf(earlier);
      var work := Recorded(rs.work, past.states[earlier.n], past.setup, action);
      Records(work, if action.Publish? then work else rs.published)
  }

  // ----- what a record says of its poller -----

  /** Every usable block has a standing source, read in the iteration that the block is labelled with. */
  ghost predicate Labelled(r: Record, cfg: GatewayPoll.Config, origin: seq<nat>)
    requires r.run.state.Valid() && |r.iterations| == |r.run.trace| && |origin| == BLOCK_COUNT
  {
    forall i :: 0 <= i < BLOCK_COUNT && r.run.state.blocks[i].acquired && !r.run.state.blocks[i].failed ==>
      exists k: nat ::
        Safety.Source(r.run.trace, cfg, i, k, r.run.state.blocks[i]) && r.iterations[k] == origin[i]
  }

  ghost predicate Follows(r: Record, p: Pollers, setup: Setup, clock: nat) {
    && WellFormed(p, setup) && r.run.state == p.ats && r.run.clock <= clock && |r.iterations| == |r.run.trace|
    && Safety.Traced(r.run, setup.cfg) && Labelled(r, setup.cfg, p.blockOrigin)
  }

  lemma LostFollows(r: Record, p: Pollers, setup: Setup, clock: nat, offlineAt: nat, resetAt: nat, iteration: nat)
    requires Follows(r, p, setup, clock) && clock <= offlineAt <= resetAt
    ensures Follows(Lost(r, offlineAt, resetAt, iteration), TakeOffline(p, offlineAt, resetAt), setup, resetAt)
  {
    hide Safety.Sourced, Safety.Guarded, Safety.Confirmed, Safety.Source;
    Safety.TracedStep(r.run, setup.cfg, Safety.LinkLost(offlineAt));
    var q := TakeOffline(p, offlineAt, resetAt);
    assert DatedBlocks(p, offlineAt);
    OfflineClears(p, setup, offlineAt, resetAt);
    assert forall i :: 0 <= i < BLOCK_COUNT ==> !UsableBlock(q, i);
  }

  /** A block has at most one standing source. */
  lemma SourceUnique(past: seq<Safety.Event>, longer: seq<Safety.Event>, cfg: GatewayPoll.Config, i: nat,
                     k: nat, state: BlockState, k': nat, state': BlockState)
    requires i < BLOCK_COUNT && ValidState(state) && ValidState(state') && past <= longer && k' < |past|
    requires Safety.Source(past, cfg, i, k, state) && Safety.Source(longer, cfg, i, k', state')
    ensures k == k'
  {
    hide Safety.Confirmed;
    assert past[k] == longer[k] && past[k'] == longer[k'];
  }

  /** The new events of a call read block `i` exactly if the call samples it, when the answer is good. */
  lemma CallEvents(s: GatewayPoll.State, past: seq<Safety.Event>, cfg: GatewayPoll.Config, now: nat, reply: Reply,
                   i: nat)
    requires s.Valid() && i < BLOCK_COUNT
    ensures var longer := Safety.AfterCall(s, past, cfg, now, reply);
      && past <= longer
      && (SampledBlock(s, now, reply) == i ==> exists k :: |past| <= k < |longer| && Safety.ReadsBlock(longer[k], i))
      && forall k :: |past| <= k < |longer| && Safety.ReadsBlock(longer[k], i) && longer[k].reply.result.error.Ok?
           ==> SampledBlock(s, now, reply) == i
  {
    hide Safety.FaultsAll, GatewayPoll.Plan, Block;
    if now >= s.nextRequest {
      var ready := GatewayPoll.Recheck(s, now);
      var r := GatewayPoll.Plan(ready, now);
      var head := Safety.WithRecheck(s, past, now);
      if !r.Nothing? {
        OffsetsDistinct(i);
        if r.Data? {
          OffsetsDistinct(r.block);
        }
        var longer := Safety.AfterCall(s, past, cfg, now, reply);
        assert longer[|head|] == Safety.ReadEvent(r, now, reply);
      }
    }
  }

  /** The source of a usable block after a call is labelled with the iteration that read it. */
  lemma CalledLabel(r: Record, p: Pollers, setup: Setup, clock: nat, now: nat, reply: Reply, iteration: nat, i: nat)
    requires Follows(r, p, setup, clock) && clock <= now && !setup.isCustom && i < BLOCK_COUNT
    requires UsableBlock(StepActive(p, setup, now, reply, iteration), i)
    ensures var after := Called(r, setup.cfg, now, reply, iteration);
      var q := StepActive(p, setup, now, reply, iteration);
      exists k: nat :: Safety.Source(after.run.trace, setup.cfg, i, k, q.ats.blocks[i])
                    && after.iterations[k] == q.blockOrigin[i]
  {
    hide Safety.Guarded, Safety.Confirmed, Safety.AfterCall, Safety.GateState, GatewayPoll.Step, SampledBlock;
    var after := Called(r, setup.cfg, now, reply, iteration);
    var q := StepActive(p, setup, now, reply, iteration);
    Safety.TracedStep(r.run, setup.cfg, Safety.Call(now, reply));
    CallEvents(p.ats, r.run.trace, setup.cfg, now, reply, i);
    BlocksAfterStep(p.ats, setup.cfg, now, reply, i);
    var k: nat :| Safety.Source(after.run.trace, setup.cfg, i, k, q.ats.blocks[i]);
    if k < |r.run.trace| {
      assert SampledBlock(p.ats, now, reply) != i;
      var was: nat :| Safety.Source(r.run.trace, setup.cfg, i, was, p.ats.blocks[i])
                   && r.iterations[was] == p.blockOrigin[i];
      SourceUnique(r.run.trace, after.run.trace, setup.cfg, i, was, p.ats.blocks[i], k, q.ats.blocks[i]);
    }
  }

  lemma CalledFollows(r: Record, p: Pollers, setup: Setup, clock: nat, now: nat, reply: Reply, iteration: nat)
    requires Follows(r, p, setup, clock) && clock <= now && !setup.isCustom
    ensures Follows(Called(r, setup.cfg, now, reply, iteration), StepActive(p, setup, now, reply, iteration), setup,
                    now + reply.result.elapsedMs)
  {
    hide Safety.Sourced, Safety.Guarded, Safety.Confirmed, Safety.AfterCall, Safety.GateState, GatewayPoll.Step;
    Safety.TracedStep(r.run, setup.cfg, Safety.Call(now, reply));
    var after := Called(r, setup.cfg, now, reply, iteration);
    var q := StepActive(p, setup, now, reply, iteration);
    CallEvents(p.ats, r.run.trace, setup.cfg, now, reply, 0);
    forall i | 0 <= i < BLOCK_COUNT && q.ats.blocks[i].acquired && !q.ats.blocks[i].failed
      ensures exists k: nat :: Safety.Source(after.run.trace, setup.cfg, i, k, q.ats.blocks[i])
                            && after.iterations[k] == q.blockOrigin[i]
    {
      CalledLabel(r, p, setup, clock, now, reply, iteration, i);
    }
  }

  // ----- every run -----

  /** The records follow the pollers in work and the published ones. */
  ghost predicate RecordsOk(past: Past)
    requires past.Valid()
  {
    var rs, sys := RecordsOf(past), past.states[past.n];
    Follows(rs.work, sys.current, past.setup, sys.clock) && Follows(rs.published, sys.published, past.setup, sys.clock)
  }

  lemma LaterFollows(r: Record, p: Pollers, setup: Setup, clock: nat, later: nat)
    requires Follows(r, p, setup, clock) && clock <= later
    ensures Follows(r, p, setup, later)
  {
  }

  lemma CustomStepFollows(r: Record, p: Pollers, setup: Setup, clock: nat, now: nat, reply: Reply, iteration: nat)
    requires Follows(r, p, setup, clock) && clock <= now && setup.isCustom
    ensures Follows(r, StepActive(p, setup, now, reply, iteration), setup, now + reply.result.elapsedMs)
  {
    hide Safety.Traced, Labelled, CustomPoll.Step;
  }

  lemma ReadyFollows(r: Record, sys: System, setup: Setup, offlineAt: nat, resetAt: nat)
    requires Follows(r, sys.current, setup, sys.clock) && sys.phase.Working? && sys.iterations != []
    requires sys.clock <= offlineAt <= resetAt
    ensures Follows(ReadyRecord(r, sys, offlineAt, resetAt), Ready(sys, offlineAt, resetAt), setup, resetAt)
  {
    hide Follows, Lost, TakeOffline;
    if LinkNews(sys) {
      LostFollows(r, sys.current, setup, sys.clock, offlineAt, resetAt, |sys.iterations| - 1);
    } else {
      LaterFollows(r, sys.current, setup, sys.clock, resetAt);
    }
  }

  lemma WorkResult(sys: System, setup: Setup, action: Action, after: System)
    requires Stepped(setup, sys, action, after) && action.Work?
    ensures sys.phase.Working? && sys.clock <= action.offlineAt <= action.resetAt <= action.stepAt
    ensures after.clock == action.stepAt + action.reply.result.elapsedMs && after.published == sys.published
    ensures var ready := Ready(sys, action.offlineAt, action.resetAt);
      && WellFormed(ready, setup)
      && after.current ==
        if sys.phase.up && !setup.configError
        then StepActive(ready, setup, action.stepAt, action.reply, |sys.iterations| - 1) else ready
  {
    hide StepActive;
  }

  lemma WorkFollows(r: Record, sys: System, setup: Setup, action: Action, after: System)
    requires Stepped(setup, sys, action, after) && action.Work? && Follows(r, sys.current, setup, sys.clock)
    ensures sys.clock <= after.clock && after.published == sys.published
    ensures Follows(Recorded(r, sys, setup, action), after.current, setup, after.clock)
  {
    assert r.run.state.Valid() && sys.iterations != [];
    WorkResult(sys, setup, action, after);
    hide Follows, ReadyRecord, Ready, Called, StepActive, WellFormed, Next;
    var ready := ReadyRecord(r, sys, action.offlineAt, action.resetAt);
    var p := Ready(sys, action.offlineAt, action.resetAt);
    ReadyFollows(r, sys, setup, action.offlineAt, action.resetAt);
    LaterFollows(ready, p, setup, action.resetAt, after.clock);
    if setup.isCustom {
      CustomStepFollows(ready, p, setup, action.resetAt, action.stepAt, action.reply, |sys.iterations| - 1);
    } else {
      CalledFollows(ready, p, setup, action.resetAt, action.stepAt, action.reply, |sys.iterations| - 1);
    }
  }

  lemma OtherFollows(r: Record, sys: System, setup: Setup, action: Action, after: System)
    requires Stepped(setup, sys, action, after) && !action.Work? && Follows(r, sys.current, setup, sys.clock)
    ensures sys.clock <= after.clock && after.published == if action.Publish? then after.current else sys.published
    ensures Follows(Recorded(r, sys, setup, action), after.current, setup, after.clock)
  {
    hide Follows, Lost, TakeOffline, Ended;
    LaterFollows(r, sys.current, setup, sys.clock, after.clock);
    if action.Publish? && Overtaken(sys) {
      LostFollows(r, sys.current, setup, sys.clock, action.offlineAt, action.resetAt, |sys.iterations| - 1);
    }
  }

  lemma InitialFollows(setup: Setup)
    requires CustomPoll.ValidMap(setup.map_)
    ensures Follows(Record(Safety.Run(GatewayPoll.Initial(), [], 0), []), InitialPollers(setup), setup, 0)
  {
    Safety.ConfirmedNothing([], setup.cfg);
  }

  lemma {:induction false} RecordsHold(past: Past)
    requires past.Valid()
    ensures RecordsOk(past)
    decreases past.n
  {
    hide Follows, Recorded;
    if past.n == 0 {
      InitialFollows(past.setup);
    } else {
      var earlier := past.(n := past.n - 1);
      var before, action, after := past.states[earlier.n], past.actions[earlier.n], past.states[past.n];
      assert Stepped(past.setup, before, action, after);
      RecordsHold(earlier);
      var rs := RecordsOf(earlier);
      if action.Work? {
        WorkFollows(rs.work, before, past.setup, action, after);
      } else {
        OtherFollows(rs.work, before, past.setup, action, after);
      }
      LaterFollows(rs.published, before.published, past.setup, before.clock, after.clock);
    }
  }

  // ----- what is shown -----

  /** Event `k` is the read behind a shown value, and it came in an iteration of the present generation. */
  ghost predicate ReadInPresent(past: Past, def: PointDef, value: Value, i: nat, k: nat)
    requires past.Valid() && i < BLOCK_COUNT && Contains(i, def.offset, def.wordCount)
  {
    var r, sys := RecordsOf(past).published, past.states[past.n];
    && Safety.Justifies(r.run, past.setup.cfg, i, k, def, value)
    && k < |r.iterations| && r.iterations[k] < |sys.iterations|
    && Within(sys.iterations[r.iterations[k]], sys.generation)
  }

  lemma LabelJustifies(r: Record, setup: Setup, origin: seq<nat>, def: PointDef, now: nat, i: nat)
    requires r.run.state.Valid() && |r.iterations| == |r.run.trace| && |origin| == BLOCK_COUNT
    requires Labelled(r, setup.cfg, origin) && ValidPoint(def)
    requires ContainingBlock(def.offset, def.wordCount) == i && BlockGood(r.run.state.blocks, i, now)
    ensures exists k: nat ::
      && Safety.Justifies(r.run, setup.cfg, i, k, def, DecodePoint(r.run.state.blocks, def, now))
      && k < |r.iterations| && r.iterations[k] == origin[i]
  {
    hide Safety.Confirmed;
    var state := r.run.state.blocks[i];
    DecodedQualityMeansGoodBlock(r.run.state.blocks, def, now);
    var k: nat :| Safety.Source(r.run.trace, setup.cfg, i, k, state) && r.iterations[k] == origin[i];
    Safety.SliceOfPrefix(state.words, r.run.trace[k].reply.words, Block(i).count, def.offset - Block(i).offset,
                         def.wordCount);
    assert Safety.Justifies(r.run, setup.cfg, i, k, def, DecodePoint(r.run.state.blocks, def, now));
  }

  /** Provenance of what is shown, over all interleavings: an ATS point shown as anything but communication
      failure has the words and time of a successful read of its block, made under a confirmed identity in an
      iteration within the present network generation, not older than its limit, after which the published
      poller neither read the block again nor faulted its samples. */
  lemma ShownBlockProvenance(past: Past, def: PointDef, now: nat)
    requires past.Valid() && ValidPoint(def) && WellFormed(past.states[past.n].published, past.setup)
    requires !ShownBlockPoint(past.states[past.n], past.setup, def, now).quality.CommFailure?
    ensures var sys := past.states[past.n];
      var shown := ShownBlockPoint(sys, past.setup, def, now);
      var i := ContainingBlock(def.offset, def.wordCount);
      && i >= 0 && sys.networkUp && shown.lastGood <= now <= shown.lastGood + Block(i).staleMs
      && exists k: nat :: ReadInPresent(past, def, shown, i, k)
  {
    hide Safety.Traced, Safety.Justifies, RecordsOf, Stepped, Reaches, Block;
    var sys := past.states[past.n];
    RecordsHold(past);
    var r := RecordsOf(past).published;
    var i := ContainingBlock(def.offset, def.wordCount);
    DecodedQualityMeansGoodBlock(sys.published.ats.blocks, def, now);
    TraceReaches(past);
    BlockPointIsCurrent(past.setup, past.actions[..past.n], sys, def, now);
    var shown := ShownBlockPoint(sys, past.setup, def, now);
    LabelJustifies(r, past.setup, sys.published.blockOrigin, def, now, i);
    var k: nat :| Safety.Justifies(r.run, past.setup.cfg, i, k, def, shown)
               && k < |r.iterations| && r.iterations[k] == sys.published.blockOrigin[i];
    assert ReadInPresent(past, def, shown, i, k);
  }

  /** What is shown of an ATS point after these events were published: it is usable if and only if the link is up,
      the sample set is of the present generation, the configuration is in order, and a successful read of the
      block stands and is fresh, with the context that the point needs. Words and time are those of the read. */
  ghost predicate ShowsFreshReads(sys: System, setup: Setup, trace: seq<Safety.Event>, def: PointDef, now: nat)
    requires WellFormed(sys.published, setup) && ValidPoint(def)
  {
    var shown, i := ShownBlockPoint(sys, setup, def, now), ContainingBlock(def.offset, def.wordCount);
    && (!shown.quality.CommFailure? <==>
          && sys.networkUp && sys.publishedGeneration == sys.generation && !setup.configError
          && i >= 0 && exists k: nat :: Safety.MakesUsable(trace, def, i, k, now))
    && (i >= 0 ==> forall k: nat :: Safety.Fresh(trace, i, k, now) ==>
          shown.lastGood == trace[k].completed && shown.raw == Safety.ReadWords(trace[k], i, def))
  }

  lemma ShownOfRun(sys: System, setup: Setup, run: Safety.Run, def: PointDef, now: nat)
    requires WellFormed(sys.published, setup) && run.state == sys.published.ats && Safety.Traced(run, setup.cfg)
    requires ValidPoint(def)
    ensures ShowsFreshReads(sys, setup, run.trace, def, now)
  {
    hide Safety.Traced, Safety.MakesUsable, DecodePoint, Block;
    Safety.PointOfRun(run, setup.cfg, def, now);
    ShownExactly(sys, setup, now);
  }

  /** Over all interleavings, exactly those points are shown as usable of whose block a read was published, in the
      present generation, that stands and is fresh. */
  lemma ShownBlockExactly(past: Past, def: PointDef, now: nat)
    requires past.Valid() && ValidPoint(def) && WellFormed(past.states[past.n].published, past.setup)
    ensures ShowsFreshReads(past.states[past.n], past.setup, RecordsOf(past).published.run.trace, def, now)
  {
    hide ShowsFreshReads, Safety.Traced, Stepped;
    RecordsHold(past);
    ShownOfRun(past.states[past.n], past.setup, RecordsOf(past).published.run, def, now);
  }
}
