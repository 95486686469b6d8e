/**
 What holds over every run of the ATS poller, for arbitrary controller replies: the identity
 gate, the provenance of every usable sample, and the bound on how long a due block waits.
 */
module GatewayPollSafety {
  import opened Base
  import opened Scheduler
  import opened AtsModel
  import opened GatewayPoll

  // ----- runs and what can be observed of them -----

  /** The poll task calls the poller, or takes it offline because the link changed. */
  datatype Input = Call(now: nat, reply: Reply) | LinkLost(now: nat)

  /** `Faulted` is every execution of `gateway_poll_offline`. */
  datatype Event =
    | Read(offset: word, count: nat, checking: bool, completed: nat, reply: Reply)
    | RecheckDue
    | Faulted(at: nat)

  /** What the controller must answer to pass identity check `stage`. */
  predicate IdentityPasses(stage: nat, cfg: Config, reply: Reply) {
    match stage
    case 0 => reply.result.error.Ok? && reply.words[0] == 23
    case 1 => reply.result.error.Ok? && reply.words[0] == cfg.expectedFirmware
    case 2 => reply.result.error.Exception? && reply.result.exceptionCode == 2
    case _ => reply.result.error.Ok? && (cfg.expectedMac == 0 || reply.words[0] % 0x8000 == cfg.expectedMac)
  }

  /** A request whose answer must fault every sample: identity not confirmed, or transport lost. */
  predicate FaultsAll(r: Request, stage: nat, cfg: Config, reply: Reply) {
    if r.Identity? then !IdentityPasses(stage, cfg, reply)
    else !reply.result.error.Ok? && reply.result.exceptionCode == 0
  }

  function ReadEvent(r: Request, now: nat, reply: Reply): Event
    requires !r.Nothing? && (r.Data? ==> r.block < BLOCK_COUNT)
  {
    Read(Offset(r), Quantity(r), r.Identity?, now + reply.result.elapsedMs, reply)
  }

  /** The request and, if its answer faults every sample, the fault. */
  function RequestEvents(r: Request, stage: nat, cfg: Config, now: nat, reply: Reply): seq<Event>
    requires r.Data? ==> r.block < BLOCK_COUNT
  {
    if r.Nothing? then []
    else [ReadEvent(r, now, reply)] +
         (if FaultsAll(r, stage, cfg, reply) then [Faulted(now + reply.result.elapsedMs)] else [])
  }

  /** The events before a request at `now`: a recheck may be due. */
  function WithRecheck(s: State, past: seq<Event>, now: nat): seq<Event> {
    if NeedsRecheck(s, now) then past + [RecheckDue] else past
  }

  /** The events after a call of the poller. */
  function AfterCall(s: State, past: seq<Event>, cfg: Config, now: nat, reply: Reply): seq<Event>
    requires s.Valid()
  {
    if now < s.nextRequest then past
    else
      var ready := Recheck(s, now);
      WithRecheck(s, past, now) + RequestEvents(Plan(ready, now), ready.stage, cfg, now, reply)
  }

  /** State, events so far, and the clock when the last input had been dealt with. */
  datatype Run = Run(state: State, trace: seq<Event>, clock: nat)

  function Extend(run: Run, cfg: Config, input: Input): Run
    requires run.state.Valid()
  {
    var s := run.state;
    match input
    case Call(now, reply) =>
      var sends := now >= s.nextRequest && !Plan(Recheck(s, now), now).Nothing?;
      Run(Step(s, cfg, now, reply), AfterCall(s, run.trace, cfg, now, reply),
          if sends then now + reply.result.elapsedMs else now)
    case LinkLost(now) =>
      Run(Offline(s, now).(nextRequest := now), run.trace + [Faulted(now)], now)
  }

  function RunOf(cfg: Config, inputs: seq<Input>): (run: Run)
    ensures run.state.Valid()
  {
    if inputs == [] then Run(Initial(), [], 0)
    else Extend(RunOf(cfg, inputs[..|inputs| - 1]), cfg, inputs[|inputs| - 1])
  }

  /** The clock never runs backwards between inputs. */
  predicate Chronological(cfg: Config, inputs: seq<Input>) {
    inputs == [] ||
    (&& Chronological(cfg, inputs[..|inputs| - 1])
     && inputs[|inputs| - 1].now >= RunOf(cfg, inputs[..|inputs| - 1]).clock)
  }

  // ----- the identity gate -----

  predicate PassedCheck(e: Event, stage: nat, cfg: Config) {
    && e.Read? && e.checking && IdentityRequest(stage) == Identity(e.offset, e.count)
    && IdentityPasses(stage, cfg, e.reply)
  }

  /** `w` lists, in order, the reads that passed checks 0 .. |w|-1; nothing but reads since the first. */
  predicate Witness(past: seq<Event>, cfg: Config, w: seq<nat>) {
    && (forall i :: 0 <= i < |w| ==> w[i] < |past| && PassedCheck(past[w[i]], i, cfg))
    && (forall i, j :: 0 <= i < j < |w| ==> w[i] < w[j])
    && (w != [] ==> forall m :: w[0] <= m < |past| ==> past[m].Read?)
  }

  /** The first `n` identity checks have passed, in order, since the last fault or recheck. */
  ghost predicate Confirmed(past: seq<Event>, cfg: Config, n: nat) {
    exists w: seq<nat> :: |w| == n && Witness(past, cfg, w)
  }

  predicate Touches(e: Event, register: nat) {
    e.Read? && e.offset <= register < e.offset + e.count
  }

  /** Register 1201 is read only after three checks, the catalog only after all four. */
  ghost predicate Guarded(trace: seq<Event>, cfg: Config) {
    forall k :: 0 <= k < |trace| ==>
      && (Touches(trace[k], 1201) ==> Confirmed(trace[..k], cfg, 3))
      && (trace[k].Read? && !trace[k].checking ==> Confirmed(trace[..k], cfg, 4))
  }

  ghost predicate GateState(s: State, past: seq<Event>, cfg: Config) {
    Confirmed(past, cfg, if s.valid then 4 else s.stage)
  }

  lemma ConfirmedWeaken(past: seq<Event>, cfg: Config, n: nat, m: nat)
    requires Confirmed(past, cfg, n) && m <= n
    ensures Confirmed(past, cfg, m)
  {
    var w: seq<nat> :| |w| == n && Witness(past, cfg, w);
    assert Witness(past, cfg, w[..m]);
  }

  lemma ConfirmedNothing(past: seq<Event>, cfg: Config)
    ensures Confirmed(past, cfg, 0)
  {
    assert Witness(past, cfg, []);
  }

  lemma ConfirmedRead(past: seq<Event>, cfg: Config, n: nat, e: Event)
    requires Confirmed(past, cfg, n) && e.Read?
    ensures Confirmed(past + [e], cfg, n)
    ensures PassedCheck(e, n, cfg) ==> Confirmed(past + [e], cfg, n + 1)
  {
    var w: seq<nat> :| |w| == n && Witness(past, cfg, w);
    assert Witness(past + [e], cfg, w);
    if PassedCheck(e, n, cfg) {
      assert Witness(past + [e], cfg, w + [|past|]);
    }
  }

  lemma GuardedExtend(trace: seq<Event>, cfg: Config, e: Event)
    requires Guarded(trace, cfg)
    requires Touches(e, 1201) ==> Confirmed(trace, cfg, 3)
    requires e.Read? && !e.checking ==> Confirmed(trace, cfg, 4)
    ensures Guarded(trace + [e], cfg)
  {
    var longer := trace + [e];
    forall k | 0 <= k < |longer|
      ensures (Touches(longer[k], 1201) ==> Confirmed(longer[..k], cfg, 3))
           && (longer[k].Read? && !longer[k].checking ==> Confirmed(longer[..k], cfg, 4))
    {
      assert longer[..k] == if k == |trace| then trace else trace[..k];
    }
  }

  /** Where one call leaves the gate; `past` already contains the recheck, if there was one. */
  lemma GateAfterRequest(s: State, past: seq<Event>, cfg: Config, now: nat, reply: Reply)
    requires s.Valid() && GateState(s, past, cfg) && Guarded(past, cfg)
    requires !Plan(s, now).Nothing?
    ensures var r := Plan(s, now);
      var e := ReadEvent(r, now, reply);
      && Guarded(past + [e], cfg)
      && (!FaultsAll(r, s.stage, cfg, reply) ==> GateState(Concluded(s, r, cfg, now, reply), past + [e], cfg))
      && (FaultsAll(r, s.stage, cfg, reply) ==>
            var t := Concluded(s, r, cfg, now, reply); !t.valid && t.stage == 0)
  {
    var r := Plan(s, now);
    var e := ReadEvent(r, now, reply);
    var n := if s.valid then 4 else s.stage;
    if n >= 3 {
      ConfirmedWeaken(past, cfg, n, 3);
    }
    GuardedExtend(past, cfg, e);
    ConfirmedRead(past, cfg, n, e);
  }

  /** A recheck starts the identification over. */
  lemma GateAfterRecheck(s: State, past: seq<Event>, cfg: Config, now: nat)
    requires s.Valid() && GateState(s, past, cfg) && Guarded(past, cfg)
    ensures GateState(Recheck(s, now), WithRecheck(s, past, now), cfg) && Guarded(WithRecheck(s, past, now), cfg)
  {
    if NeedsRecheck(s, now) {
      GuardedExtend(past, cfg, RecheckDue);
      ConfirmedNothing(past + [RecheckDue], cfg);
    }
  }

  lemma GateAfterCall(s: State, past: seq<Event>, cfg: Config, now: nat, reply: Reply)
    requires s.Valid() && GateState(s, past, cfg) && Guarded(past, cfg) && !Plan(s, now).Nothing?
    ensures var r := Plan(s, now);
      var after := past + RequestEvents(r, s.stage, cfg, now, reply);
      GateState(Concluded(s, r, cfg, now, reply), after, cfg) && Guarded(after, cfg)
  {
    hide Concluded, Confirmed, Guarded, FaultsAll, Plan;
    var r := Plan(s, now);
    GateAfterRequest(s, past, cfg, now, reply);
    var e := ReadEvent(r, now, reply);
    if FaultsAll(r, s.stage, cfg, reply) {
      var fault := Faulted(now + reply.result.elapsedMs);
      GuardedExtend(past + [e], cfg, fault);
      ConfirmedNothing(past + [e] + [fault], cfg);
      assert past + RequestEvents(r, s.stage, cfg, now, reply) == past + [e] + [fault];
    } else {
      assert past + RequestEvents(r, s.stage, cfg, now, reply) == past + [e];
    }
  }

  lemma NoRequest(past: seq<Event>, stage: nat, cfg: Config, now: nat, reply: Reply)
    ensures past + RequestEvents(Nothing, stage, cfg, now, reply) == past
  {
  }

  lemma GateStep(run: Run, cfg: Config, input: Input)
    requires run.state.Valid() && GateState(run.state, run.trace, cfg) && Guarded(run.trace, cfg)
    ensures var next := Extend(run, cfg, input);
      GateState(next.state, next.trace, cfg) && Guarded(next.trace, cfg)
  {
    hide Concluded, Confirmed, Guarded, RequestEvents, WithRecheck, Recheck, Plan;
    var s, past := run.state, run.trace;
    match input {
      case LinkLost(now) =>
        GuardedExtend(past, cfg, Faulted(now));
        ConfirmedNothing(past + [Faulted(now)], cfg);
      case Call(now, reply) =>
        GateAfterRecheck(s, past, cfg, now);
        var ready, head := Recheck(s, now), WithRecheck(s, past, now);
        if Plan(ready, now).Nothing? {
          NoRequest(head, ready.stage, cfg, now, reply);
        } else {
          GateAfterCall(ready, head, cfg, now, reply);
        }
    }
  }

  /** Identity gate: in every run, whatever the controller answers, no request touches register 1201
      before checks 9998, 1199 and 1209..1211 passed in that order since the last fault or recheck,
      and no catalog block is read before the 1201 check passed as well. */
  lemma {:induction false} IdentityGate(cfg: Config, inputs: seq<Input>)
    ensures var run := RunOf(cfg, inputs);
      Guarded(run.trace, cfg) && GateState(run.state, run.trace, cfg)
  {
    if inputs == [] {
      ConfirmedNothing([], cfg);
    } else {
      IdentityGate(cfg, inputs[..|inputs| - 1]);
      GateStep(RunOf(cfg, inputs[..|inputs| - 1]), cfg, inputs[|inputs| - 1]);
    }
  }

  // ----- where samples come from -----

  /** A data request for block `i`. */
  predicate ReadsBlock(e: Event, i: nat)
    requires i < BLOCK_COUNT
  {
    e.Read? && !e.checking && e.offset == Block(i).offset
  }

  /** Event `k` is the read that `state` (of block `i`) holds: successful, under a confirmed identity,
      not followed by another read of the block or by anything that faults all samples. */
  ghost predicate Source(past: seq<Event>, cfg: Config, i: nat, k: nat, state: BlockState)
    requires i < BLOCK_COUNT && ValidState(state)
  {
    && k < |past| && ReadsBlock(past[k], i)
    && past[k].reply.result.error.Ok? && past[k].completed == state.lastGood
    && state.words[..Block(i).count] == past[k].reply.words[..Block(i).count]
    && Confirmed(past[..k], cfg, 4)
    && forall m :: k < m < |past| ==> !past[m].Faulted? && !ReadsBlock(past[m], i)
  }

  ghost predicate Sourced(blocks: seq<BlockState>, past: seq<Event>, cfg: Config)
    requires ValidBlocks(blocks)
  {
    forall i :: 0 <= i < BLOCK_COUNT && blocks[i].acquired && !blocks[i].failed ==>
      exists k :: Source(past, cfg, i, k, blocks[i])
  }

  predicate Dated(blocks: seq<BlockState>, clock: nat) {
    forall i :: 0 <= i < |blocks| && blocks[i].acquired ==> blocks[i].lastGood <= clock
  }

  lemma SourceExtend(past: seq<Event>, cfg: Config, i: nat, k: nat, state: BlockState, e: Event)
    requires i < BLOCK_COUNT && ValidState(state)
    requires Source(past, cfg, i, k, state) && !e.Faulted? && !ReadsBlock(e, i)
    ensures Source(past + [e], cfg, i, k, state)
  {
    assert (past + [e])[..k] == past[..k];
  }

  /** Events that neither fault everything nor read a block leave every source in place. */
  lemma SourcedQuiet(blocks: seq<BlockState>, past: seq<Event>, cfg: Config, e: Event)
    requires ValidBlocks(blocks) && Sourced(blocks, past, cfg)
    requires !e.Faulted? && (e.Read? ==> e.checking)
    ensures Sourced(blocks, past + [e], cfg)
  {
    forall i | 0 <= i < BLOCK_COUNT && blocks[i].acquired && !blocks[i].failed
      ensures exists k :: Source(past + [e], cfg, i, k, blocks[i])
    {
      var k :| Source(past, cfg, i, k, blocks[i]);
      SourceExtend(past, cfg, i, k, blocks[i], e);
    }
  }

  /** After a fault of everything that is not dated too early, nothing is usable. */
  lemma NothingUsable(blocks: seq<BlockState>, past: seq<Event>, cfg: Config, now: nat)
    requires ValidBlocks(blocks) && Dated(blocks, now)
    ensures Sourced(FailAll(blocks, now), past, cfg) && Dated(FailAll(blocks, now), now)
  {
  }

  lemma SourcedDataRead(blocks: seq<BlockState>, past: seq<Event>, cfg: Config, b: nat, e: Event, state: BlockState)
    requires ValidBlocks(blocks) && Sourced(blocks, past, cfg)
    requires b < BLOCK_COUNT && ReadsBlock(e, b) && ValidState(state)
    requires state.acquired && !state.failed ==>
      && e.reply.result.error.Ok? && e.completed == state.lastGood && Confirmed(past, cfg, 4)
      && state.words[..Block(b).count] == e.reply.words[..Block(b).count]
    ensures Sourced(blocks[b := state], past + [e], cfg)
  {
    var after, longer := blocks[b := state], past + [e];
    forall i | 0 <= i < BLOCK_COUNT && after[i].acquired && !after[i].failed
      ensures exists k :: Source(longer, cfg, i, k, after[i])
    {
      if i == b {
        assert longer[..|past|] == past;
        assert Source(longer, cfg, b, |past|, state);
      } else {
        OffsetsDistinct(i);
        OffsetsDistinct(b);
        var k :| Source(past, cfg, i, k, blocks[i]);
        SourceExtend(past, cfg, i, k, blocks[i], e);
      }
    }
  }

  lemma SourceAfterRequest(s: State, past: seq<Event>, cfg: Config, now: nat, reply: Reply)
    requires s.Valid() && GateState(s, past, cfg) && Sourced(s.blocks, past, cfg) && Dated(s.blocks, now)
    requires !Plan(s, now).Nothing?
    ensures var r := Plan(s, now);
      var e := ReadEvent(r, now, reply);
      var completed := now + reply.result.elapsedMs;
      var t := Concluded(s, r, cfg, now, reply);
      && Sourced(t.blocks, past + (if FaultsAll(r, s.stage, cfg, reply) then [e, Faulted(completed)] else [e]), cfg)
      && Dated(t.blocks, completed)
  {
    var r := Plan(s, now);
    var e := ReadEvent(r, now, reply);
    var completed := now + reply.result.elapsedMs;
    var t := Concluded(s, r, cfg, now, reply);
    if FaultsAll(r, s.stage, cfg, reply) {
      var before := if r.Data? then s.blocks[r.block := Fail(s.blocks[r.block], completed)] else s.blocks;
      assert t.blocks == FailAll(before, completed);
      NothingUsable(before, past + [e, Faulted(completed)], cfg, completed);
    } else if r.Identity? {
      assert t.blocks == s.blocks;
      SourcedQuiet(s.blocks, past, cfg, e);
    } else {
      var state := if reply.result.error.Ok?
        then Apply(s.blocks[r.block], reply.words[..Block(r.block).count], completed)
        else Fail(s.blocks[r.block], completed);
      assert t.blocks == s.blocks[r.block := state];
      SourcedDataRead(s.blocks, past, cfg, r.block, e, state);
    }
  }

  // ----- and what becomes of every read -----

  /** Event `k` read block `i` successfully; since then the block was not read again and nothing was faulted. */
  predicate Stands(past: seq<Event>, i: nat, k: nat)
    requires i < BLOCK_COUNT
  {
    && k < |past| && ReadsBlock(past[k], i) && past[k].reply.result.error.Ok?
    && forall m :: k < m < |past| ==> !past[m].Faulted? && !ReadsBlock(past[m], i)
  }

  /** Every such read can be used: the block holds its words and its time. */
  ghost predicate Kept(blocks: seq<BlockState>, past: seq<Event>)
    requires ValidBlocks(blocks)
  {
    forall i, k: nat :: 0 <= i < BLOCK_COUNT && Stands(past, i, k) ==>
      && blocks[i].acquired && !blocks[i].failed && blocks[i].lastGood == past[k].completed
      && blocks[i].words[..Block(i).count] == past[k].reply.words[..Block(i).count]
  }

  lemma StandsBefore(past: seq<Event>, e: Event, i: nat, k: nat)
    requires i < BLOCK_COUNT && Stands(past + [e], i, k)
    ensures if k == |past| then ReadsBlock(e, i) && e.reply.result.error.Ok?
            else Stands(past, i, k) && !e.Faulted? && !ReadsBlock(e, i)
  {
    assert forall m :: 0 <= m < |past| ==> (past + [e])[m] == past[m];
    assert (past + [e])[|past|] == e;
  }

  lemma KeptQuiet(blocks: seq<BlockState>, past: seq<Event>, e: Event)
    requires ValidBlocks(blocks) && Kept(blocks, past) && (e.Read? ==> e.checking)
    ensures Kept(blocks, past + [e])
  {
    forall i, k: nat | 0 <= i < BLOCK_COUNT && Stands(past + [e], i, k) ensures k < |past| && Stands(past, i, k) {
      StandsBefore(past, e, i, k);
    }
  }

  lemma KeptFault(blocks: seq<BlockState>, past: seq<Event>, at: nat)
    requires ValidBlocks(blocks)
    ensures Kept(blocks, past + [Faulted(at)])
  {
    forall i, k: nat | 0 <= i < BLOCK_COUNT ensures !Stands(past + [Faulted(at)], i, k) {
      if Stands(past + [Faulted(at)], i, k) {
        StandsBefore(past, Faulted(at), i, k);
      }
    }
  }

  lemma KeptDataRead(blocks: seq<BlockState>, past: seq<Event>, b: nat, e: Event, state: BlockState)
    requires ValidBlocks(blocks) && Kept(blocks, past)
    requires b < BLOCK_COUNT && ReadsBlock(e, b) && ValidState(state)
    requires e.reply.result.error.Ok? ==>
      && state.acquired && !state.failed && state.lastGood == e.completed
      && state.words[..Block(b).count] == e.reply.words[..Block(b).count]
    ensures Kept(blocks[b := state], past + [e])
  {
    var after, longer := blocks[b := state], past + [e];
    forall i, k: nat | 0 <= i < BLOCK_COUNT && Stands(longer, i, k)
      ensures after[i].acquired && !after[i].failed && after[i].lastGood == longer[k].completed
      ensures after[i].words[..Block(i).count] == longer[k].reply.words[..Block(i).count]
    {
      StandsBefore(past, e, i, k);
      OffsetsDistinct(i);
      OffsetsDistinct(b);
    }
  }

  lemma KeptAfterCall(s: State, past: seq<Event>, cfg: Config, now: nat, reply: Reply)
    requires s.Valid() && Kept(s.blocks, past) && Dated(s.blocks, now) && !Plan(s, now).Nothing?
    ensures var r := Plan(s, now);
      Kept(Concluded(s, r, cfg, now, reply).blocks, past + RequestEvents(r, s.stage, cfg, now, reply))
  {
    hide Kept, Block;
    var r := Plan(s, now);
    var e := ReadEvent(r, now, reply);
    var completed := now + reply.result.elapsedMs;
    var t := Concluded(s, r, cfg, now, reply);
    var longer := past + RequestEvents(r, s.stage, cfg, now, reply);
    if FaultsAll(r, s.stage, cfg, reply) {
      KeptFault(t.blocks, past + [e], completed);
      assert longer == past + [e] + [Faulted(completed)];
    } else if r.Identity? {
      KeptQuiet(s.blocks, past, e);
      assert t.blocks == s.blocks && longer == past + [e];
    } else {
      var state := if reply.result.error.Ok?
        then Apply(s.blocks[r.block], reply.words[..Block(r.block).count], completed)
        else Fail(s.blocks[r.block], completed);
      KeptDataRead(s.blocks, past, r.block, e, state);
      assert t.blocks == s.blocks[r.block := state] && longer == past + [e];
    }
  }

  ghost predicate Traced(run: Run, cfg: Config)
    requires run.state.Valid()
  {
    && GateState(run.state, run.trace, cfg) && Guarded(run.trace, cfg)
    && Sourced(run.state.blocks, run.trace, cfg) && Kept(run.state.blocks, run.trace)
    && Dated(run.state.blocks, run.clock)
  }

  lemma SourcedAfterRecheck(s: State, past: seq<Event>, cfg: Config, now: nat)
    requires s.Valid() && Sourced(s.blocks, past, cfg)
    ensures Recheck(s, now).blocks == s.blocks && Sourced(s.blocks, WithRecheck(s, past, now), cfg)
  {
    if NeedsRecheck(s, now) {
      SourcedQuiet(s.blocks, past, cfg, RecheckDue);
    }
  }

  lemma KeptAfterRecheck(s: State, past: seq<Event>, now: nat)
    requires s.Valid() && Kept(s.blocks, past)
    ensures Kept(s.blocks, WithRecheck(s, past, now))
  {
    if NeedsRecheck(s, now) {
      KeptQuiet(s.blocks, past, RecheckDue);
    }
  }

  lemma SourcedAfterCall(s: State, past: seq<Event>, cfg: Config, now: nat, reply: Reply)
    requires s.Valid() && GateState(s, past, cfg) && Sourced(s.blocks, past, cfg) && Dated(s.blocks, now)
    requires !Plan(s, now).Nothing?
    ensures var r := Plan(s, now);
      var t := Concluded(s, r, cfg, now, reply);
      && Sourced(t.blocks, past + RequestEvents(r, s.stage, cfg, now, reply), cfg)
      && Dated(t.blocks, now + reply.result.elapsedMs)
  {
    hide Concluded, Sourced, Dated, FaultsAll, Plan, GateState;
    var r := Plan(s, now);
    SourceAfterRequest(s, past, cfg, now, reply);
    var e := ReadEvent(r, now, reply);
    var events := if FaultsAll(r, s.stage, cfg, reply) then [e, Faulted(now + reply.result.elapsedMs)] else [e];
    assert RequestEvents(r, s.stage, cfg, now, reply) == events;
  }

  lemma DatedLater(blocks: seq<BlockState>, clock: nat, later: nat)
    requires Dated(blocks, clock) && clock <= later
    ensures Dated(blocks, later)
  {
  }

  lemma TracedStep(run: Run, cfg: Config, input: Input)
    requires run.state.Valid() && Traced(run, cfg) && input.now >= run.clock
    ensures Traced(Extend(run, cfg, input), cfg)
  {
    hide Concluded, GateState, Guarded, Sourced, Kept, Dated, RequestEvents, WithRecheck, Recheck, Plan;
    GateStep(run, cfg, input);
    var s, past := run.state, run.trace;
    DatedLater(s.blocks, run.clock, input.now);
    match input {
      case LinkLost(now) =>
        NothingUsable(s.blocks, past + [Faulted(now)], cfg, now);
        KeptFault(FailAll(s.blocks, now), past, now);
      case Call(now, reply) =>
        GateAfterRecheck(s, past, cfg, now);
        SourcedAfterRecheck(s, past, cfg, now);
        KeptAfterRecheck(s, past, now);
        var ready, head := Recheck(s, now), WithRecheck(s, past, now);
        if Plan(ready, now).Nothing? {
          NoRequest(head, ready.stage, cfg, now, reply);
        } else {
          SourcedAfterCall(ready, head, cfg, now, reply);
          KeptAfterCall(ready, head, cfg, now, reply);
        }
    }
  }

  lemma {:induction false} RunIsTraced(cfg: Config, inputs: seq<Input>)
    requires Chronological(cfg, inputs)
    ensures Traced(RunOf(cfg, inputs), cfg)
  {
    if inputs == [] {
      ConfirmedNothing([], cfg);
    } else {
      RunIsTraced(cfg, inputs[..|inputs| - 1]);
      TracedStep(RunOf(cfg, inputs[..|inputs| - 1]), cfg, inputs[|inputs| - 1]);
    }
  }

  /** Event `k` of the run is the read behind `value`: it is the standing source of block `i`, and
      the value shows its words at its time. */
  ghost predicate Justifies(run: Run, cfg: Config, i: nat, k: nat, def: PointDef, value: Value)
    requires run.state.Valid() && i < BLOCK_COUNT && Contains(i, def.offset, def.wordCount)
  {
    && Source(run.trace, cfg, i, k, run.state.blocks[i])
    && value.lastGood == run.trace[k].completed
    && value.raw == run.trace[k].reply.words[def.offset - Block(i).offset..][..def.wordCount]
  }

  lemma SliceOfPrefix(a: seq<word>, b: seq<word>, n: nat, start: nat, count: nat)
    requires n <= |a| && n <= |b| && a[..n] == b[..n] && start + count <= n
    ensures a[start..][..count] == b[start..][..count]
  {
    assert forall j :: start <= j < start + count ==> a[j] == a[..n][j] && b[j] == b[..n][j];
  }

  lemma SourceJustifies(run: Run, cfg: Config, def: PointDef, now: nat, i: nat)
    requires run.state.Valid() && ValidPoint(def) && Traced(run, cfg)
    requires ContainingBlock(def.offset, def.wordCount) == i && BlockGood(run.state.blocks, i, now)
    ensures exists k: nat :: Justifies(run, cfg, i, k, def, DecodePoint(run.state.blocks, def, now))
  {
    var state := run.state.blocks[i];
    DecodedQualityMeansGoodBlock(run.state.blocks, def, now);
    var k: nat :| Source(run.trace, cfg, i, k, state);
    SliceOfPrefix(state.words, run.trace[k].reply.words, Block(i).count, def.offset - Block(i).offset, def.wordCount);
    assert Justifies(run, cfg, i, k, def, DecodePoint(run.state.blocks, def, now));
  }

  /** Sample provenance: a point that decodes as anything but communication failure shows words of a
      successful read of its block, made under a confirmed identity and not too old, after which the
      block was not read again and nothing faulted the samples. */
  lemma SampleProvenance(cfg: Config, inputs: seq<Input>, def: PointDef, now: nat)
    requires Chronological(cfg, inputs) && ValidPoint(def)
    requires !DecodePoint(RunOf(cfg, inputs).state.blocks, def, now).quality.CommFailure?
    ensures var run := RunOf(cfg, inputs);
      var value := DecodePoint(run.state.blocks, def, now);
      var i := ContainingBlock(def.offset, def.wordCount);
      && i >= 0 && value.lastGood <= now <= value.lastGood + Block(i).staleMs
      && exists k: nat :: Justifies(run, cfg, i, k, def, value)
  {
    RunIsTraced(cfg, inputs);
    var run := RunOf(cfg, inputs);
    var i := ContainingBlock(def.offset, def.wordCount);
    DecodedQualityMeansGoodBlock(run.state.blocks, def, now);
    SourceJustifies(run, cfg, def, now, i);
  }

  // ----- exactly which points are usable -----

  /** Read `k` of block `i` stands and is not older than the limit of the block. */
  predicate Fresh(past: seq<Event>, i: nat, k: nat, now: nat)
    requires i < BLOCK_COUNT
  {
    Stands(past, i, k) && past[k].completed <= now <= past[k].completed + Block(i).staleMs
  }

  ghost predicate SomeFresh(past: seq<Event>, i: int, now: nat)
    requires i < BLOCK_COUNT
  {
    i >= 0 && exists k: nat :: Fresh(past, i, k, now)
  }

  /** A block is good exactly when a successful read of it stands and is fresh. */
  lemma BlockGoodExactly(run: Run, cfg: Config, i: int, now: nat)
    requires run.state.Valid() && Traced(run, cfg) && i < BLOCK_COUNT
    ensures BlockGood(run.state.blocks, i, now) <==> SomeFresh(run.trace, i, now)
  {
    hide GateState, Guarded, Dated, Confirmed, Block;
    if BlockGood(run.state.blocks, i, now) {
      var k: nat :| Source(run.trace, cfg, i, k, run.state.blocks[i]);
      assert Fresh(run.trace, i, k, now);
    }
  }

  /** Every register that the point is qualified against was read, and the read stands and is fresh. */
  ghost predicate ContextFresh(past: seq<Event>, def: PointDef, now: nat) {
    forall r :: r in Context(def) ==> SomeFresh(past, ContainingBlock(r, 1), now)
  }

  lemma ContextExactly(run: Run, cfg: Config, def: PointDef, now: nat)
    requires run.state.Valid() && Traced(run, cfg)
    ensures ContextMissing(run.state.blocks, def, now) <==> !ContextFresh(run.trace, def, now)
  {
    hide Traced, SomeFresh, BlockGood;
    forall r | r in Context(def)
      ensures Register(run.state.blocks, r, now).None? <==> !SomeFresh(run.trace, ContainingBlock(r, 1), now)
    {
      BlockGoodExactly(run, cfg, ContainingBlock(r, 1), now);
    }
  }

  /** The words of the point in the read that stands for block `i`. */
  function ReadWords(e: Event, i: nat, def: PointDef): seq<word>
    requires e.Read? && i < BLOCK_COUNT && Contains(i, def.offset, def.wordCount)
  {
    e.reply.words[def.offset - Block(i).offset..][..def.wordCount]
  }

  /** A read that makes the point usable: it stands, it is fresh, and either its words need no context or
      the context is there. */
  ghost predicate MakesUsable(past: seq<Event>, def: PointDef, i: nat, k: nat, now: nat)
    requires ValidPoint(def) && i < BLOCK_COUNT && Contains(i, def.offset, def.wordCount)
  {
    && Fresh(past, i, k, now)
    && (DecodedQuality(def, ReadWords(past[k], i, def)).Good? ==> ContextFresh(past, def, now))
  }

  lemma FreshWords(run: Run, cfg: Config, def: PointDef, now: nat, i: nat, k: nat)
    requires run.state.Valid() && ValidPoint(def) && Traced(run, cfg)
    requires ContainingBlock(def.offset, def.wordCount) == i && Fresh(run.trace, i, k, now)
    ensures var value := DecodePoint(run.state.blocks, def, now);
      value.lastGood == run.trace[k].completed && value.raw == ReadWords(run.trace[k], i, def)
  {
    var state := run.state.blocks[i];
    SliceOfPrefix(state.words, run.trace[k].reply.words, Block(i).count, def.offset - Block(i).offset, def.wordCount);
    DecodedQualityMeansGoodBlock(run.state.blocks, def, now);
  }

  lemma PointOfRun(run: Run, cfg: Config, def: PointDef, now: nat)
    requires run.state.Valid() && ValidPoint(def) && Traced(run, cfg)
    ensures var value, i := DecodePoint(run.state.blocks, def, now), ContainingBlock(def.offset, def.wordCount);
      && (!value.quality.CommFailure? <==> i >= 0 && exists k: nat :: MakesUsable(run.trace, def, i, k, now))
      && (i >= 0 ==> forall k: nat :: Fresh(run.trace, i, k, now) ==>
            value.lastGood == run.trace[k].completed && value.raw == ReadWords(run.trace[k], i, def))
  {
    var i := ContainingBlock(def.offset, def.wordCount);
    var value := DecodePoint(run.state.blocks, def, now);
    DecodedQualityMeansGoodBlock(run.state.blocks, def, now);
    BlockGoodExactly(run, cfg, i, now);
    ContextExactly(run, cfg, def, now);
    if i >= 0 {
      forall k: nat | Fresh(run.trace, i, k, now)
        ensures value.lastGood == run.trace[k].completed && value.raw == ReadWords(run.trace[k], i, def)
      {
        FreshWords(run, cfg, def, now, i, k);
      }
      if !value.quality.CommFailure? {
        var k: nat :| Fresh(run.trace, i, k, now);
        assert MakesUsable(run.trace, def, i, k, now);
      }
    }
  }

  /** Which ATS points are usable, over all runs: exactly those of a block of which a successful read stands —
      not read again since, nothing faulted since — and is not too old, with their context if they need one.
      Such a point shows the words and time of that read. */
  lemma PointExactly(cfg: Config, inputs: seq<Input>, def: PointDef, now: nat)
    requires Chronological(cfg, inputs) && ValidPoint(def)
    ensures var run := RunOf(cfg, inputs);
      var value, i := DecodePoint(run.state.blocks, def, now), ContainingBlock(def.offset, def.wordCount);
      && (!value.quality.CommFailure? <==> i >= 0 && exists k: nat :: MakesUsable(run.trace, def, i, k, now))
      && (i >= 0 ==> forall k: nat :: Fresh(run.trace, i, k, now) ==>
            value.lastGood == run.trace[k].completed && value.raw == ReadWords(run.trace[k], i, def))
  {
    hide MakesUsable, Fresh, Traced;
    RunIsTraced(cfg, inputs);
    PointOfRun(RunOf(cfg, inputs), cfg, def, now);
  }

  lemma NoSourceAfterFault(run: Run, cfg: Config, def: PointDef, now: nat)
    requires run.state.Valid() && ValidPoint(def) && Traced(run, cfg)
    requires run.trace != [] && run.trace[|run.trace| - 1].Faulted?
    ensures !BlockGood(run.state.blocks, ContainingBlock(def.offset, def.wordCount), now)
  {
    var i := ContainingBlock(def.offset, def.wordCount);
    var last := |run.trace| - 1;
    assert run.trace[last].Faulted?;
    if BlockGood(run.state.blocks, i, now) {
      var k: nat :| Source(run.trace, cfg, i, k, run.state.blocks[i]);
      assert false;
    }
  }

  /** When everything has just been faulted, no point of any catalog is usable at any time. */
  lemma FaultReachesEverySample(cfg: Config, inputs: seq<Input>, def: PointDef, now: nat)
    requires Chronological(cfg, inputs) && ValidPoint(def)
    requires var trace := RunOf(cfg, inputs).trace; trace != [] && trace[|trace| - 1].Faulted?
    ensures DecodePoint(RunOf(cfg, inputs).state.blocks, def, now).quality.CommFailure?
  {
    RunIsTraced(cfg, inputs);
    var run := RunOf(cfg, inputs);
    NoSourceAfterFault(run, cfg, def, now);
    DecodedQualityMeansGoodBlock(run.state.blocks, def, now);
  }

  // ----- how long a due block waits -----

  /** Data requests for blocks other than `i` before the first one for `i`. */
  function OthersBefore(s: State, cfg: Config, inputs: seq<Input>, i: nat): nat
    requires s.Valid()
    decreases |inputs|
  {
    if inputs == [] then 0
    else match inputs[0]
      case LinkLost(now) => OthersBefore(Offline(s, now).(nextRequest := now), cfg, inputs[1..], i)
      case Call(now, reply) =>
        var r := if now < s.nextRequest then Nothing else Plan(Recheck(s, now), now);
        if r == Data(i) then 0
        else (if r.Data? then 1 else 0) + OthersBefore(Step(s, cfg, now, reply), cfg, inputs[1..], i)
  }

  /** Bounded bypass: once block `i` is due, no more than its rank — at most 22 — other blocks are
      requested before it, whatever is answered and however often the identity is rechecked. */
  lemma {:induction false} BoundedBypass(s: State, cfg: Config, inputs: seq<Input>, i: nat)
    requires s.Valid() && i < BLOCK_COUNT
    requires forall k :: 0 <= k < |inputs| ==> inputs[k].now >= s.due[i]
    ensures OthersBefore(s, cfg, inputs, i) <= Rank(s.due, i) <= BLOCK_COUNT - 1
    decreases |inputs|
  {
    RankBound(s.due, i);
    if inputs != [] {
      match inputs[0] {
        case LinkLost(now) =>
          BoundedBypass(Offline(s, now).(nextRequest := now), cfg, inputs[1..], i);
        case Call(now, reply) =>
          var next := Step(s, cfg, now, reply);
          var r := if now < s.nextRequest then Nothing else Plan(Recheck(s, now), now);
          if r != Data(i) {
            if r.Data? {
              var later := next.due[r.block];
              assert next.due == s.due[r.block := later] && later > now;
              ServingOthersAdvances(s.due, now, i, later);
            } else {
              assert next.due == s.due;
            }
            BoundedBypass(next, cfg, inputs[1..], i);
          }
      }
    }
  }
}
