/**
 The ATS poller of main/gateway_poll.c: a four-stage identity check of the controller guards
 every read of the old register map, and any transport or identity failure faults every block.
 Replies are an oracle; nothing is assumed about the controller.
 */
module GatewayPoll {
  import opened Base
  import opened Scheduler
  import opened AtsModel

  const CONTROLLER_MPAC1500: word := 23

  datatype Config = Config(expectedFirmware: word, expectedMac: word)

  datatype Status =
    | AwaitingIdentity
    | NetworkUnavailable
    | Rechecking
    | ReadRejected
    | WrongController
    | WrongFirmware
    | NewerMap
    | MacMismatch
    | ProfileVerified

  /** `gateway_poll_t` as a value. */
  datatype State = State(
    blocks: seq<BlockState>, due: seq<nat>, nextRequest: nat, profileCheck: nat, lastSuccess: nat,
    requests: nat, successes: nat, failures: nat, consecutiveFailures: nat, tid: word,
    lastOffset: word, lastQuantity: nat, stage: nat, valid: bool, lastChecking: bool,
    lastResult: MbResult, status: Status)
  {
    predicate Valid() {
      && ValidBlocks(blocks) && |due| == BLOCK_COUNT
      && stage <= 3
    }
  }

  function Blank(): BlockState { BlockState(seq(MAX_BLOCK_WORDS, i => 0), 0, 0, false, false) }
  function Initial(): State {
    State(seq(BLOCK_COUNT, i => Blank()), seq(BLOCK_COUNT, i => 0), 0, 0, 0,
          0, 0, 0, 0, 0, 0, 0, 0, false, false, MbResult(Ok, 0, 0, 0), AwaitingIdentity)
  }

  // ----- what one call does -----

  datatype Request = Nothing | Identity(offset: word, count: nat) | Data(block: nat)

  function IdentityRequest(stage: nat): Request {
    match stage
    case 0 => Identity(9998, 1)
    case 1 => Identity(1199, 1)
    case 2 => Identity(1209, 3)
    case _ => Identity(1201, 1)
  }

  /** A verified profile expires after `profileCheck`. */
  predicate NeedsRecheck(s: State, now: nat) { s.valid && now >= s.profileCheck }

  function Recheck(s: State, now: nat): (r: State)
    requires s.Valid()
    ensures r.Valid()
  {
    if NeedsRecheck(s, now) then s.(valid := false, stage := 0, status := Rechecking) else s
  }

  /** The request that a call at `now` makes, the recheck already applied. */
  function Plan(s: State, now: nat): (r: Request)
    requires s.Valid()
    ensures r.Data? ==> s.valid && r.block < BLOCK_COUNT && r.block == Pick(s.due, now)
    ensures r.Identity? ==> !s.valid && r == IdentityRequest(s.stage)
  {
    if !s.valid then IdentityRequest(s.stage)
    else if Pick(s.due, now) == BLOCK_COUNT then Nothing
    else Data(Pick(s.due, now))
  }

  function Offset(r: Request): word
    requires !r.Nothing? && (r.Data? ==> r.block < BLOCK_COUNT)
  {
    if r.Data? then Block(r.block).offset else r.offset
  }

  function Quantity(r: Request): nat
    requires !r.Nothing? && (r.Data? ==> r.block < BLOCK_COUNT)
  {
    if r.Data? then Block(r.block).count else r.count
  }

  /** Exception 2 on 1209..1211 is the answer of the old map. */
  predicate ExpectedException(stage: nat, reply: Reply) {
    stage == 2 && reply.result.error.Exception? && reply.result.exceptionCode == 2
  }

  function Offline(s: State, now: nat): (r: State)
    requires s.Valid()
    ensures r.Valid()
  {
    s.(blocks := FailAll(s.blocks, now), valid := false, stage := 0, status := NetworkUnavailable)
  }

  function Reject(s: State, now: nat, why: Status): (r: State)
    requires s.Valid()
    ensures r.Valid()
  {
    Offline(s, now).(status := why, nextRequest := now + 30000)
  }

  /** Counters and metadata of the request that was sent; the gap before the next one. */
  function Sent(s: State, r: Request, now: nat, reply: Reply): (t: State)
    requires s.Valid() && !r.Nothing? && (r.Data? ==> r.block < BLOCK_COUNT)
    ensures t.Valid()
  {
    s.(lastOffset := Offset(r), lastQuantity := Quantity(r), lastChecking := r.Identity?,
       requests := Bump32(s.requests), tid := Bump16(s.tid), lastResult := reply.result,
       nextRequest := now + reply.result.elapsedMs + 250)
  }

  /** A block read failed: fault the block, try it again in five seconds. */
  function BlockFailed(s: State, block: nat, completed: nat): (t: State)
    requires s.Valid() && block < BLOCK_COUNT
    ensures t.Valid()
  {
    s.(blocks := s.blocks[block := Fail(s.blocks[block], completed)], due := s.due[block := completed + 5000])
  }

  function BlockRead(s: State, block: nat, completed: nat, words: Buffer): (t: State)
    requires s.Valid() && block < BLOCK_COUNT
    ensures t.Valid()
  {
    s.(blocks := s.blocks[block := Apply(s.blocks[block], words[..Block(block).count], completed)],
       due := s.due[block := completed + Block(block).periodMs])
  }

  /** Any failed request, once its own block (if any) has been dealt with. */
  function Failed(s: State, completed: nat, exceptionCode: byte): (t: State)
    requires s.Valid()
    ensures t.Valid()
  {
    var faulted := if exceptionCode == 0 then Offline(s, completed)
                   else if s.lastChecking then Reject(s, completed, ReadRejected)
                   else s;
    faulted.(nextRequest := Max(faulted.nextRequest, completed + Backoff(faulted.consecutiveFailures)))
  }

  /** An identity reply that was not a failure. */
  function IdentityAnswered(s: State, cfg: Config, completed: nat, expectedOldMap: bool, words: Buffer): (t: State)
    requires s.Valid()
    ensures t.Valid()
  {
    if s.stage == 0 && words[0] != CONTROLLER_MPAC1500 then Reject(s, completed, WrongController)
    else if s.stage == 1 && words[0] != cfg.expectedFirmware then Reject(s, completed, WrongFirmware)
    else if s.stage == 2 && !expectedOldMap then Reject(s, completed, NewerMap)
    else if s.stage == 3 then
      if cfg.expectedMac != 0 && words[0] % 0x8000 != cfg.expectedMac then Reject(s, completed, MacMismatch)
      else s.(valid := true, profileCheck := completed + 300000, status := ProfileVerified)
    else s.(stage := s.stage + 1)
  }

  function CountFailure(s: State): (t: State) {
    s.(failures := Bump32(s.failures), consecutiveFailures := Bump32(s.consecutiveFailures))
  }

  function CountSuccess(s: State, completed: nat): (t: State) {
    s.(successes := Bump32(s.successes), consecutiveFailures := 0, lastSuccess := completed)
  }

  /** State after the reply to request `r`, sent from `s` at `now`. */
  function Concluded(s: State, r: Request, cfg: Config, now: nat, reply: Reply): (t: State)
    requires s.Valid() && r == Plan(s, now) && !r.Nothing?
    ensures t.Valid()
  {
    var completed := now + reply.result.elapsedMs;
    var sent := Sent(s, r, now, reply);
    var expectedOldMap := r.Identity? && ExpectedException(s.stage, reply);
    if !reply.result.error.Ok? && !expectedOldMap then
      var counted := CountFailure(sent);
      Failed(if r.Data? then BlockFailed(counted, r.block, completed) else counted,
             completed, reply.result.exceptionCode)
    else
      var counted := CountSuccess(sent, completed);
      if r.Data? then BlockRead(counted, r.block, completed, reply.words)
      else IdentityAnswered(counted, cfg, completed, expectedOldMap, reply.words)
  }

  /** `gateway_poll_step`. */
  function Step(s: State, cfg: Config, now: nat, reply: Reply): (t: State)
    requires s.Valid()
    ensures t.Valid()
  {
    if now < s.nextRequest then s
    else
      var ready := Recheck(s, now);
      var r := Plan(ready, now);
      if r.Nothing? then ready else Concluded(ready, r, cfg, now, reply)
  }

  // ----- what each call comes to -----

  /** Power-up: nothing was ever read, everything is due at once, the controller is unidentified. */
  lemma PowerUp()
    ensures var s := Initial();
      && (forall i :: 0 <= i < 23 ==>
            && !s.blocks[i].acquired && !s.blocks[i].failed && s.blocks[i].lastGood == s.blocks[i].lastFailure == 0
            && s.due[i] == 0 && forall k :: 0 <= k < |s.blocks[i].words| ==> s.blocks[i].words[k] == 0)
      && !s.valid && s.stage == 0 && s.nextRequest == s.profileCheck == s.lastSuccess == 0
      && s.requests == s.successes == s.failures == s.consecutiveFailures == 0 && s.tid == s.lastOffset == 0
      && s.lastQuantity == 0 && !s.lastChecking && s.lastResult == MbResult(Ok, 0, 0, 0)
      && s.status == AwaitingIdentity
  {
  }

  /** The identity is not known, or was confirmed too long ago. */
  predicate Unidentified(s: State, now: nat) { !s.valid || now >= s.profileCheck }

  /** The identity check that is next. */
  function CheckAt(s: State): nat { if s.valid then 0 else s.stage }

  /** What is asked for: the next identity register of an unidentified controller, in the order 9998, 1199,
      1209..1211, 1201; of an identified one the block that is due first, if one is. */
  lemma RequestExactly(s: State, now: nat)
    requires s.Valid()
    ensures var r := Plan(Recheck(s, now), now);
      if Unidentified(s, now) then
        && r.Identity? && r.count == (if CheckAt(s) == 2 then 3 else 1)
        && r.offset == (if CheckAt(s) == 0 then 9998 else if CheckAt(s) == 1 then 1199
                        else if CheckAt(s) == 2 then 1209 else 1201)
      else
        && (r.Nothing? <==> forall i :: 0 <= i < 23 ==> now < s.due[i])
        && (r.Data? ==>
              && r.block < 23 && s.due[r.block] <= now
              && forall j :: 0 <= j < 23 ==>
                   s.due[r.block] <= s.due[j] && (s.due[r.block] == s.due[j] ==> r.block <= j))
        && !r.Identity?
  {
    PickIsEarliest(s.due, now);
    var slot := Pick(s.due, now);
    if slot < 23 {
      forall j | 0 <= j < 23 ensures s.due[slot] <= s.due[j] && (s.due[slot] == s.due[j] ==> slot <= j) {
        assert j != slot ==> Precedes(s.due, slot, j);
      }
    }
  }

  /** While the pause lasts, or when an identified controller has nothing due, nothing changes. */
  lemma NothingSent(s: State, cfg: Config, now: nat, reply: Reply)
    requires s.Valid() && (now < s.nextRequest || Plan(Recheck(s, now), now).Nothing?)
    ensures Step(s, cfg, now, reply) == s
  {
    RequestExactly(s, now);
  }

  /** What is left of a request, whatever came of it. */
  lemma RequestNoted(s: State, cfg: Config, now: nat, reply: Reply)
    requires s.Valid() && now >= s.nextRequest && !Plan(Recheck(s, now), now).Nothing?
    ensures var t, r := Step(s, cfg, now, reply), Plan(Recheck(s, now), now);
      && t.lastOffset == Offset(r) && t.lastQuantity == Quantity(r) && t.lastChecking == Unidentified(s, now)
      && t.requests == (s.requests + 1) % 0x1_0000_0000 && t.tid == (s.tid + 1) % 0x1_0000
      && t.lastResult == reply.result
  {
    hide FailAll, ValidBlocks, Block;
  }

  /** A fault of every block: none of them is usable any more unless its last read is dated later; no word and
      no time of a good read is lost. */
  predicate AllFaulted(before: seq<BlockState>, after: seq<BlockState>, at: nat) {
    && |after| == |before|
    && forall i :: 0 <= i < |before| ==>
         after[i] == if before[i].acquired && at < before[i].lastGood then before[i]
                     else before[i].(failed := true, lastFailure := at)
  }

  /** The reply passes identity check `stage`. */
  predicate Confirms(stage: nat, cfg: Config, reply: Reply) {
    if stage == 2 then reply.result.error.Exception? && reply.result.exceptionCode == 2
    else
      && reply.result.error.Ok?
      && (stage == 0 ==> reply.words[0] == 23) && (stage == 1 ==> reply.words[0] == cfg.expectedFirmware)
      && (stage == 3 && cfg.expectedMac != 0 ==> reply.words[0] % 0x8000 == cfg.expectedMac)
  }

  /** A passed check leads to the next one, the last of them to an identity that holds for five minutes. */
  lemma CheckPassed(s: State, cfg: Config, now: nat, reply: Reply)
    requires s.Valid() && now >= s.nextRequest && Unidentified(s, now) && Confirms(CheckAt(s), cfg, reply)
    ensures var t, completed, stage := Step(s, cfg, now, reply), now + reply.result.elapsedMs, CheckAt(s);
      && t.blocks == s.blocks && t.due == s.due && t.nextRequest == completed + 250
      && t.successes == (s.successes + 1) % 0x1_0000_0000 && t.failures == s.failures
      && t.consecutiveFailures == 0 && t.lastSuccess == completed
      && (if stage < 3 then !t.valid && t.stage == stage + 1 && t.profileCheck == s.profileCheck
          else t.valid && t.profileCheck == completed + 300000 && t.status == ProfileVerified)
  {
    hide FailAll, ValidBlocks, Block;
  }

  /** A wrong answer rejects the controller: every block faulted, the checks start over after 30 s. */
  lemma CheckFailed(s: State, cfg: Config, now: nat, reply: Reply)
    requires s.Valid() && now >= s.nextRequest && Unidentified(s, now)
    requires reply.result.error.Ok? && !Confirms(CheckAt(s), cfg, reply)
    ensures var t, completed, stage := Step(s, cfg, now, reply), now + reply.result.elapsedMs, CheckAt(s);
      && !t.valid && t.stage == 0 && t.nextRequest == completed + 30000 && t.due == s.due
      && AllFaulted(s.blocks, t.blocks, completed)
      && t.successes == (s.successes + 1) % 0x1_0000_0000 && t.failures == s.failures
      && t.consecutiveFailures == 0 && t.lastSuccess == completed
      && t.status == (if stage == 0 then WrongController else if stage == 1 then WrongFirmware
                      else if stage == 2 then NewerMap else MacMismatch)
  {
    hide ValidBlocks, Block;
  }

  /** Five seconds for each failure in a row, at most thirty, counted as the firmware counts. */
  function FailurePause(s: State): nat {
    var n := (s.consecutiveFailures + 1) % 0x1_0000_0000;
    if n >= 6 then 30000 else 5000 * n
  }

  /** A check that was refused or lost: the same, at once and for the pause after a failure. */
  lemma CheckLost(s: State, cfg: Config, now: nat, reply: Reply)
    requires s.Valid() && now >= s.nextRequest && Unidentified(s, now)
    requires !reply.result.error.Ok? && !Confirms(CheckAt(s), cfg, reply)
    ensures var t, completed := Step(s, cfg, now, reply), now + reply.result.elapsedMs;
      && !t.valid && t.stage == 0 && t.due == s.due && AllFaulted(s.blocks, t.blocks, completed)
      && (if reply.result.exceptionCode != 0 then t.nextRequest == completed + 30000 && t.status == ReadRejected
          else t.nextRequest == completed + Max(250, FailurePause(s)) && t.status == NetworkUnavailable)
      && t.failures == (s.failures + 1) % 0x1_0000_0000 && t.successes == s.successes
      && t.consecutiveFailures == (s.consecutiveFailures + 1) % 0x1_0000_0000 && t.lastSuccess == s.lastSuccess
  {
    hide ValidBlocks, Block;
  }

  /** Block `i` of an identified controller is asked for. */
  predicate Asks(s: State, now: nat, i: nat)
    requires s.Valid()
  {
    now >= s.nextRequest && !Unidentified(s, now) && Plan(Recheck(s, now), now) == Data(i)
  }

  /** A block that was read: its words and its time replace the old ones unless they are dated later, nothing
      else changes, and it is due again a period later. */
  lemma BlockAnswered(s: State, cfg: Config, now: nat, reply: Reply, i: nat)
    requires s.Valid() && Asks(s, now, i) && reply.result.error.Ok?
    ensures i < 23
    ensures var t, completed, b := Step(s, cfg, now, reply), now + reply.result.elapsedMs, s.blocks[i];
      var words := reply.words[..Block(i).count] + b.words[Block(i).count..];
      && t.blocks == (if b.acquired && completed < b.lastGood then s.blocks
                      else s.blocks[i := BlockState(words, completed, b.lastFailure, true, false)])
      && t.due == s.due[i := completed + Block(i).periodMs] && t.nextRequest == completed + 250
      && t.valid && t.profileCheck == s.profileCheck && t.stage == s.stage && t.status == s.status
      && t.successes == (s.successes + 1) % 0x1_0000_0000 && t.failures == s.failures
      && t.consecutiveFailures == 0 && t.lastSuccess == completed
  {
    hide FailAll;
  }

  /** A block that was not read is faulted and due again in five seconds. An exception leaves the others alone,
      any other failure faults all of them and the identity. */
  lemma BlockRefused(s: State, cfg: Config, now: nat, reply: Reply, i: nat)
    requires s.Valid() && Asks(s, now, i) && !reply.result.error.Ok?
    ensures i < 23
    ensures var t, completed, b := Step(s, cfg, now, reply), now + reply.result.elapsedMs, s.blocks[i];
      && t.due == s.due[i := completed + 5000] && t.nextRequest == completed + Max(250, FailurePause(s))
      && t.failures == (s.failures + 1) % 0x1_0000_0000 && t.successes == s.successes
      && t.consecutiveFailures == (s.consecutiveFailures + 1) % 0x1_0000_0000 && t.lastSuccess == s.lastSuccess
      && if reply.result.exceptionCode == 0 then
           !t.valid && t.stage == 0 && t.status == NetworkUnavailable && AllFaulted(s.blocks, t.blocks, completed)
         else
           && t.valid && t.profileCheck == s.profileCheck && t.stage == s.stage && t.status == s.status
           && t.blocks == if b.acquired && completed < b.lastGood then s.blocks
                          else s.blocks[i := b.(failed := true, lastFailure := completed)]
  {
  }

  /** Taking the poller offline faults every block and forgets the identity. */
  lemma OfflineExactly(s: State, now: nat)
    requires s.Valid()
    ensures var t := Offline(s, now);
      && AllFaulted(s.blocks, t.blocks, now)
      && t == s.(blocks := t.blocks, valid := false, stage := 0, status := NetworkUnavailable)
  {
  }

  // ----- the code -----

  class Poller {
    const cfg: Config
    const blocks: array<BlockState>
    const due: array<nat>
    var nextRequest: nat
    var profileCheck: nat
    var lastSuccess: nat
    var requests: nat
    var successes: nat
    var failures: nat
    var consecutiveFailures: nat
    var tid: word
    var lastOffset: word
    var lastQuantity: nat
    var stage: nat
    var valid: bool
    var lastChecking: bool
    var lastResult: MbResult
    var status: Status

    ghost predicate Valid()
      reads this, blocks, due
    {
      View().Valid()
    }

    ghost function View(): (s: State)
      reads this, blocks, due
    {
      State(blocks[..], due[..], nextRequest, profileCheck, lastSuccess, requests, successes, failures,
            consecutiveFailures, tid, lastOffset, lastQuantity, stage, valid, lastChecking, lastResult, status)
    }

    constructor (cfg: Config)
      ensures Valid() && fresh(blocks) && fresh(due)
      ensures this.cfg == cfg && View() == Initial()
    {
      this.cfg := cfg;
      blocks := new BlockState[BLOCK_COUNT](i => Blank());
      due := new nat[BLOCK_COUNT](i => 0);
      nextRequest, profileCheck, lastSuccess := 0, 0, 0;
      requests, successes, failures, consecutiveFailures := 0, 0, 0, 0;
      tid, lastOffset, lastQuantity, stage := 0, 0, 0, 0;
      valid, lastChecking := false, false;
      lastResult, status := MbResult(Ok, 0, 0, 0), AwaitingIdentity;
      new;
      assert blocks[..] == Initial().blocks;
      assert due[..] == Initial().due;
    }

    method GoOffline(now: nat)
      requires Valid()
      modifies this`valid, this`stage, this`status, blocks
      ensures Valid() && View() == Offline(old(View()), now)
    {
      ghost var before := blocks[..];
      for i := 0 to BLOCK_COUNT
        invariant ValidBlocks(blocks[..])
        invariant forall j :: 0 <= j < i ==> blocks[j] == Fail(before[j], now)
        invariant forall j :: i <= j < BLOCK_COUNT ==> blocks[j] == before[j]
      {
        ExactFinds(i, 0);
        ghost var prior := blocks[..];
        var _ := FailBlock(blocks, Block(i).offset, Block(i).count, now);
        assert blocks[..] == prior[i := Fail(prior[i], now)];
      }
      assert blocks[..] == FailAll(before, now);
      valid, stage, status := false, 0, NetworkUnavailable;
    }

    method RejectProfile(now: nat, why: Status)
      requires Valid()
      modifies this`valid, this`stage, this`status, this`nextRequest, blocks
      ensures Valid() && View() == Reject(old(View()), now, why)
    {
      GoOffline(now);
      status := why;
      nextRequest := now + 30000;
    }

    method FailAndReschedule(block: nat, completed: nat)
      requires Valid() && block < BLOCK_COUNT
      modifies blocks, due
      ensures Valid() && View() == BlockFailed(old(View()), block, completed)
    {
      ExactFinds(block, 0);
      var _ := FailBlock(blocks, Block(block).offset, Block(block).count, completed);
      due[block] := completed + 5000;
      assert due[..] == old(due[..])[block := completed + 5000];
    }

    method ApplyAndReschedule(block: nat, completed: nat, words: Buffer)
      requires Valid() && block < BLOCK_COUNT
      modifies blocks, due
      ensures Valid() && View() == BlockRead(old(View()), block, completed, words)
    {
      ExactFinds(block, 0);
      var _ := ApplyBlock(blocks, Block(block).offset, Block(block).count, words, completed);
      due[block] := completed + Block(block).periodMs;
      assert due[..] == old(due[..])[block := completed + Block(block).periodMs];
    }

    /** A transport failure is global; a refused identity read rejects the profile. */
    method HandleFailure(completed: nat, exceptionCode: byte)
      requires Valid()
      modifies this`valid, this`stage, this`status, this`nextRequest, blocks
      ensures Valid() && View() == Failed(old(View()), completed, exceptionCode)
    {
      if exceptionCode == 0 {
        GoOffline(completed);
      } else if lastChecking {
        RejectProfile(completed, ReadRejected);
      }
      var wait := if consecutiveFailures < 6 then consecutiveFailures * 5000 else 30000;
      if nextRequest < completed + wait {
        nextRequest := completed + wait;
      }
    }

    method HandleIdentity(completed: nat, expectedOldMap: bool, words: Buffer)
      requires Valid()
      modifies this`valid, this`stage, this`status, this`nextRequest, this`profileCheck, blocks
      ensures Valid() && View() == IdentityAnswered(old(View()), cfg, completed, expectedOldMap, words)
    {
      if stage == 0 && words[0] != CONTROLLER_MPAC1500 {
        RejectProfile(completed, WrongController);
      } else if stage == 1 && words[0] != cfg.expectedFirmware {
        RejectProfile(completed, WrongFirmware);
      } else if stage == 2 && !expectedOldMap {
        RejectProfile(completed, NewerMap);
      } else if stage == 3 {
        if cfg.expectedMac != 0 && words[0] % 0x8000 != cfg.expectedMac {
          RejectProfile(completed, MacMismatch);
        } else {
          valid := true;
          profileCheck := completed + 300000;
          status := ProfileVerified;
        }
      } else {
        stage := stage + 1;
      }
    }

    method ConcludeFailure(block: nat, completed: nat, exceptionCode: byte)
      requires Valid()
      modifies this, blocks, due
      ensures Valid()
      ensures var counted := CountFailure(old(View()));
        View() == Failed(if block < BLOCK_COUNT then BlockFailed(counted, block, completed) else counted,
                         completed, exceptionCode)
    {
      failures := Bump32(failures);
      consecutiveFailures := Bump32(consecutiveFailures);
      if block < BLOCK_COUNT {
        FailAndReschedule(block, completed);
      }
      HandleFailure(completed, exceptionCode);
    }

    method ConcludeSuccess(block: nat, completed: nat, expectedOldMap: bool, words: Buffer)
      requires Valid()
      modifies this, blocks, due
      ensures Valid()
      ensures var counted := CountSuccess(old(View()), completed);
        View() == if block < BLOCK_COUNT then BlockRead(counted, block, completed, words)
                  else IdentityAnswered(counted, cfg, completed, expectedOldMap, words)
    {
      successes := Bump32(successes);
      consecutiveFailures := 0;
      lastSuccess := completed;
      if block < BLOCK_COUNT {
        ApplyAndReschedule(block, completed, words);
      } else {
        HandleIdentity(completed, expectedOldMap, words);
      }
    }

    method NoteRequest(offset: word, count: nat, checking: bool, now: nat, reply: Reply)
      requires Valid()
      modifies this`lastOffset, this`lastQuantity, this`lastChecking, this`requests, this`tid,
               this`lastResult, this`nextRequest
      ensures Valid()
      ensures View() == old(View()).(lastOffset := offset, lastQuantity := count, lastChecking := checking,
        requests := Bump32(old(requests)), tid := Bump16(old(tid)), lastResult := reply.result,
        nextRequest := now + reply.result.elapsedMs + 250)
    {
      lastOffset, lastQuantity, lastChecking := offset, count, checking;
      requests := Bump32(requests);
      tid := Bump16(tid);
      lastResult := reply.result;
      nextRequest := now + reply.result.elapsedMs + 250;
    }

    /** Everything after the request has been chosen. */
    method Transact(block: nat, offset: word, count: nat, checking: bool, now: nat, reply: Reply)
      requires Valid() && checking == !valid
      requires var r := Plan(View(), now);
        && !r.Nothing? && offset == Offset(r) && count == Quantity(r)
        && block == if r.Data? then r.block else BLOCK_COUNT
      modifies this, blocks, due
      ensures Valid()
      ensures View() == Concluded(old(View()), Plan(old(View()), now), cfg, now, reply)
    {
      ghost var ready := View();
      ghost var r := Plan(ready, now);
      NoteRequest(offset, count, checking, now, reply);
      ghost var sent := View();
      assert sent == Sent(ready, r, now, reply);
      var completed := now + reply.result.elapsedMs;
      var expectedOldMap := checking && stage == 2 && reply.result.error.Exception? && reply.result.exceptionCode == 2;
      if !reply.result.error.Ok? && !expectedOldMap {
        ConcludeFailure(block, completed, reply.result.exceptionCode);
      } else {
        ConcludeSuccess(block, completed, expectedOldMap, reply.words);
      }
    }

    /** `gateway_poll_step`; `reply` is what the request would be answered with, if one is sent. */
    method Poll(now: nat, reply: Reply) returns (sent: bool)
      requires Valid() && now < U64_MAX
      modifies this, blocks, due
      ensures Valid()
      ensures View() == Step(old(View()), cfg, now, reply)
      ensures sent <==> now >= old(nextRequest) && !Plan(Recheck(old(View()), now), now).Nothing?
    {
      if now < nextRequest {
        return false;
      }
      if valid && now >= profileCheck {
        valid, stage, status := false, 0, Rechecking;
      }
      assert View() == Recheck(old(View()), now);
      var offset, count: nat := 0, 1;
      var block := BLOCK_COUNT;
      var checking := !valid;
      if checking {
        match stage {
          case 0 => offset := 9998;
          case 1 => offset := 1199;
          case 2 => offset, count := 1209, 3;
          case _ => offset := 1201;
        }
      } else {
        block := SelectDue(due, BLOCK_COUNT, now);
        assert due[..BLOCK_COUNT] == due[..];
        if block == BLOCK_COUNT {
          return false;
        }
        offset, count := Block(block).offset, Block(block).count;
      }
      Transact(block, offset, count, checking, now, reply);
      return true;
    }
  }
}
