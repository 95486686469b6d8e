/**
 A run of the custom profile in which a sample taken before a link change is shown after it, as unverified.
 Every state of the run is computed step by step.
 */
module OldSample {
  import opened Base
  import opened CustomPoint
  import opened LinkGeneration
  import opened LinkSamples
  import CustomPoll
  import GatewayPoll
  import Scheduler

  /** One text of one character, polled every second. */
  function OnePoint(): Point {
    Point(1, "Name", "", OBJECT_CSV, 95, [], 0, 1, 0, Ascii, 3, 0, 1, 1000, 1.0, 0.0)
  }

  function OneSetup(cfg: GatewayPoll.Config, fp: Floats): (setup: Setup)
    ensures CustomPoll.ValidMap(setup.map_)
  {
    Setup(true, false, cfg, [OnePoint()], fp)
  }

  /** A register in reply after 10 ms. */
  function Answer(w: word): Reply { Reply(MbResult(Ok, 0, 10, 0), seq(MB_MAX_REGISTERS, i => w)) }

  const LETTER: word := 0x4100  // "A"
  const CONTROL: word := 0x0100 // not printable

  /** The text is read once; the link goes down and comes back; the next reply does not decode. */
  function OldSampleRun(): seq<Action> {
    [NetworkEvent(true), Begin, Work(0, 0, 0, Answer(LETTER)), Publish(10, 10),
     NetworkEvent(false), NetworkEvent(true), Begin, Work(2000, 2000, 2000, Answer(CONTROL)), Publish(2010, 2010)]
  }

  lemma AnswersDecode(fp: Floats)
    ensures ValidPoint(OnePoint())
    ensures Answer(LETTER).words[..1] == [LETTER] && Answer(CONTROL).words[..1] == [CONTROL]
    ensures Decoded(OnePoint(), [LETTER], fp) == Some(Text("A")) && Decoded(OnePoint(), [CONTROL], fp).None?
  {
    assert CharAt([LETTER], false, 0) == 65 && CharAt([CONTROL], false, 0) == 1;
    assert TextFrom([LETTER], false, 1, 1, false) == Some("");
    assert [65 as char] + "" == "A";
    assert TextFrom([LETTER], false, 1, 0, false) == Some("A");
    assert TextFrom([CONTROL], false, 1, 0, false).None?;
  }

  /** What the run is about: the sample of the one point, and when the poller may ask again. */
  datatype Glimpse = Glimpse(value: Value, due: nat, nextRequest: nat, acquired: bool, origin: nat)

  function GlimpseOf(p: Pollers, setup: Setup): Glimpse
    requires WellFormed(p, setup) && |setup.map_| == 1
  {
    Glimpse(p.custom.values[0], p.custom.due[0], p.custom.nextRequest, p.custom.acquired[0], p.pointOrigin[0])
  }

  function Unread(): Glimpse { Glimpse(CustomPoll.UNREAD, 0, 0, false, 0) }

  lemma GlimpseOffline(p: Pollers, setup: Setup, offlineAt: nat, resetAt: nat)
    requires WellFormed(p, setup) && |setup.map_| == 1
    ensures var q := TakeOffline(p, offlineAt, resetAt);
      var g := GlimpseOf(p, setup);
      && WellFormed(q, setup)
      && GlimpseOf(q, setup) == g.(value := g.value.(quality := CommFailure), nextRequest := resetAt)
  {
  }

  /** A step of the poller at a time at which the point is due. */
  lemma GlimpseStep(p: Pollers, cfg: GatewayPoll.Config, fp: Floats, now: nat, w: word, iteration: nat)
    requires var setup := OneSetup(cfg, fp); WellFormed(p, setup)
    requires p.custom.nextRequest <= now && p.custom.due[0] <= now && (w == LETTER || w == CONTROL)
    ensures var setup := OneSetup(cfg, fp);
      var g, q := GlimpseOf(p, setup), StepActive(p, setup, now, Answer(w), iteration);
      && WellFormed(q, setup)
      && GlimpseOf(q, setup) ==
        if w == LETTER then Glimpse(g.value.(text := "A", quality := Good, lastGood := now + 10, raw := [w]),
                                    now + 1010, now + 260, true, iteration)
        else g.(value := g.value.(quality := Unverified), due := now + 1010, nextRequest := now + 260)
  {
    hide Decoded;
    AnswersDecode(fp);
    var setup := OneSetup(cfg, fp);
    Scheduler.PickIsEarliest(p.custom.due, now);
    assert CustomPoll.Slot(p.custom, now) == 0;
    assert setup.map_[0] == OnePoint();
  }

  /** What the run needs to know of a system: everything but the ATS poller and the counters. */
  datatype Outline = Outline(networkUp: bool, generation: nat, phase: Phase, previousUp: bool, seenGeneration: nat,
                             current: Glimpse, published: Glimpse, publishedGeneration: nat, clock: nat,
                             iterations: seq<Iteration>)

  ghost predicate Fits(sys: System, setup: Setup) {
    |setup.map_| == 1 && WellFormed(sys.current, setup) && WellFormed(sys.published, setup)
  }

  function OutlineOf(sys: System, setup: Setup): Outline
    requires Fits(sys, setup)
  {
    Outline(sys.networkUp, sys.generation, sys.phase, sys.previousUp, sys.seenGeneration,
            GlimpseOf(sys.current, setup), GlimpseOf(sys.published, setup), sys.publishedGeneration, sys.clock,
            sys.iterations)
  }

  lemma AnswerTakes(w: word)
    ensures Answer(w).result.elapsedMs == 10
  {
  }

  /** One iteration after a link change, up to the end of its work. */
  lemma IterationWorks(sys: System, cfg: GatewayPoll.Config, fp: Floats, at: nat, w: word)
    returns (begun: System, worked: System)
    requires var setup := OneSetup(cfg, fp); Fits(sys, setup)
    requires sys.phase.Idle? && sys.networkUp && sys.generation != sys.seenGeneration && sys.clock <= at
    requires sys.current.custom.due[0] <= at && (w == LETTER || w == CONTROL)
    ensures var setup := OneSetup(cfg, fp);
      && Stepped(setup, sys, Begin, begun) && Stepped(setup, begun, Work(at, at, at, Answer(w)), worked)
      && Fits(worked, setup)
      && var o := OutlineOf(sys, setup);
         var g := o.current.(value := o.current.value.(quality := CommFailure), nextRequest := at);
         OutlineOf(worked, setup) == o.(
           phase := Publishing(true, o.generation), clock := at + 10,
           iterations := o.iterations + [Iteration(true, o.generation, false, false, 0)],
           current :=
             if w == LETTER then Glimpse(g.value.(text := "A", quality := Good, lastGood := at + 10, raw := [w]),
                                         at + 1010, at + 260, true, |o.iterations|)
             else g.(value := g.value.(quality := Unverified), due := at + 1010, nextRequest := at + 260))
  {
    hide TakeOffline, StepActive, Answer;
    var setup := OneSetup(cfg, fp);
    AnswerTakes(w);
    begun := Next(sys, setup, Begin);
    assert Stepped(setup, sys, Begin, begun);
    GlimpseOffline(begun.current, setup, at, at);
    var ready := Ready(begun, at, at);
    assert ready == TakeOffline(begun.current, at, at);
    GlimpseStep(ready, cfg, fp, at, w, |sys.iterations|);
    worked := Next(begun, setup, Work(at, at, at, Answer(w)));
  }

  /** Publication while the link has not changed. */
  lemma Publishes(sys: System, setup: Setup, at: nat) returns (after: System)
    requires Fits(sys, setup) && sys.phase.Publishing? && sys.iterations != [] && sys.clock <= at
    requires sys.networkUp && sys.generation == sys.phase.changed
    ensures Stepped(setup, sys, Publish(at, at), after) && Fits(after, setup)
    ensures var o := OutlineOf(sys, setup);
      OutlineOf(after, setup) == o.(
        phase := Idle, published := o.current, publishedGeneration := o.generation, previousUp := o.phase.up,
        seenGeneration := o.generation, clock := at, iterations := Ended(o.iterations, true, o.generation))
  {
    after := Next(sys, setup, Publish(at, at));
  }

  lemma LinkGoes(sys: System, setup: Setup, up: bool) returns (after: System)
    requires Fits(sys, setup) && sys.phase.Idle?
    ensures Stepped(setup, sys, NetworkEvent(up), after) && Fits(after, setup)
    ensures var o := OutlineOf(sys, setup);
      OutlineOf(after, setup) == o.(networkUp := up, generation := o.generation + 1)
  {
    after := Next(sys, setup, NetworkEvent(up));
  }

  lemma RunIsReached(setup: Setup, states: seq<System>)
    requires CustomPoll.ValidMap(setup.map_) && Trace(setup, OldSampleRun(), states)
    ensures Reaches(setup, OldSampleRun(), states[|OldSampleRun()|])
  {
    hide Reaches, Trace, Answer;
    var run := OldSampleRun();
    TraceReaches(Past(setup, run, states, |run|));
    assert run[..|run|] == run;
  }

  lemma InitialOutline(cfg: GatewayPoll.Config, fp: Floats)
    ensures var setup := OneSetup(cfg, fp);
      && Fits(Initial(setup), setup)
      && OutlineOf(Initial(setup), setup) == Outline(false, 0, Idle, false, 0, Unread(), Unread(), 0, 0, [])
  {
  }

  /** The run reaches a system that shows the text read before the link went down, with its old time, as
      unverified: in generation 3, a sample of generation 1. */
  lemma OldSampleIsShown(cfg: GatewayPoll.Config, fp: Floats) returns (states: seq<System>)
    ensures var setup := OneSetup(cfg, fp);
      && Trace(setup, OldSampleRun(), states)
      && var sys := states[|OldSampleRun()|];
         && Reaches(setup, OldSampleRun(), sys) && WellFormed(sys.published, setup)
         && var shown := ShownCustomPoint(sys, setup, 0, 2010);
            && shown.quality.Unverified? && shown.text == "A" && shown.lastGood == 10
            && sys.networkUp && sys.generation == 3 && !CurrentSample(sys, setup, 0)
            && |sys.iterations| == 2 && sys.published.pointOrigin[0] == 0 && sys.iterations[0].startGeneration == 1
  {
    hide Next, TakeOffline, StepActive, Answer;
    var setup := OneSetup(cfg, fp);
    var s0 := Initial(setup);
    InitialOutline(cfg, fp);
    var s1 := LinkGoes(s0, setup, true);
    var s2, s3 := IterationWorks(s1, cfg, fp, 0, LETTER);
    var s4 := Publishes(s3, setup, 10);
    var s5 := LinkGoes(s4, setup, false);
    var s6 := LinkGoes(s5, setup, true);
    var s7, s8 := IterationWorks(s6, cfg, fp, 2000, CONTROL);
    var s9 := Publishes(s8, setup, 2010);
    states := [s0, s1, s2, s3, s4, s5, s6, s7, s8, s9];
    RunIsReached(setup, states);
  }
}
