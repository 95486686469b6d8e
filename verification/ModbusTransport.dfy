/**
 The deadline-bound socket reader of main/modbus_tcp.c. The socket and the clock are an
 oracle: a finite schedule of what each `select` and transfer would do. When the schedule
 is used up nothing more ever happens, and the pending `select` runs into the deadline.
 */
module ModbusTransport {
  import opened Base
  import opened ModbusCodec

  datatype Selected = Ready | Expired | Interrupted | Failed(errno: int)

  /** `Data(n)`: up to n bytes move. `Retry` covers EINTR, EAGAIN and EWOULDBLOCK. */
  datatype Transfer = Data(count: nat) | Closed | Retry | Broken(errno: int)

  /** One turn of a transfer loop: the clock before `select`, its result, the clock after it,
      and the transfer that follows. A closing deadline check uses only `now`. */
  datatype Turn = Turn(now: nat, selected: Selected, confirmed: nat, transfer: Transfer)

  /** The socket as the firmware sees it. `turn` and `taken` count the turns and the peer's bytes
      already used; `sent` is what the peer has received. */
  class Wire {
    const schedule: seq<Turn>
    const incoming: seq<byte>
    var turn: nat
    var taken: nat
    var sent: seq<byte>

    ghost predicate Valid()
      reads this
    {
      turn <= |schedule| && taken <= |incoming|
    }

    constructor (schedule: seq<Turn>, incoming: seq<byte>)
      ensures this.schedule == schedule && this.incoming == incoming
      ensures turn == 0 && taken == 0 && sent == [] && Valid()
    {
      this.schedule, this.incoming := schedule, incoming;
      turn, taken, sent := 0, 0, [];
    }
  }

  // ----- wait_ready -----

  datatype Waited = Waited(error: MbError, systemError: int, transfer: Transfer, turn: nat)

  function Wait(schedule: seq<Turn>, turn: nat, deadline: nat): (w: Waited)
    requires turn <= |schedule|
    ensures turn <= w.turn <= |schedule|
    ensures w.error.Ok? ==> turn < w.turn
    ensures w.error.Ok? ==> forall k :: turn <= k < w.turn ==> schedule[k].now < deadline
    ensures w.error.Ok? || w.error.Timeout? || w.error.Io?
    decreases |schedule| - turn
  {
    if turn == |schedule| then Waited(Timeout, 0, Retry, turn)
    else
      var t := schedule[turn];
      if t.now >= deadline then Waited(Timeout, 0, Retry, turn + 1)
      else match t.selected
        case Ready => Waited(if t.confirmed < deadline then Ok else Timeout, 0, t.transfer, turn + 1)
        case Expired => Waited(Timeout, 0, Retry, turn + 1)
        case Interrupted => Wait(schedule, turn + 1, deadline)
        case Failed(errno) => Waited(Io, errno, Retry, turn + 1)
  }

  method WaitReady(wire: Wire, deadline: nat) returns (error: MbError, systemError: int, transfer: Transfer)
    requires wire.Valid()
    modifies wire`turn
    ensures wire.Valid()
    ensures Waited(error, systemError, transfer, wire.turn) == Wait(wire.schedule, old(wire.turn), deadline)
  {
    while true
      invariant wire.Valid()
      invariant Wait(wire.schedule, wire.turn, deadline) == Wait(wire.schedule, old(wire.turn), deadline)
      decreases |wire.schedule| - wire.turn
    {
      if wire.turn == |wire.schedule| {
        return Timeout, 0, Retry;
      }
      var t := wire.schedule[wire.turn];
      wire.turn := wire.turn + 1;
      if t.now >= deadline {
        return Timeout, 0, Retry;
      }
      match t.selected {
        case Ready => return if t.confirmed < deadline then Ok else Timeout, 0, t.transfer;
        case Expired => return Timeout, 0, Retry;
        case Interrupted =>
        case Failed(errno) => return Io, errno, Retry;
      }
    }
  }

  // ----- send_exact and receive_exact -----

  /** What a transfer loop did: verdict, position it reached, next turn. */
  datatype Moved = Moved(error: MbError, systemError: int, position: nat, turn: nat)

  /** The deadline check that closes both transfer loops. */
  function Close(schedule: seq<Turn>, turn: nat, position: nat, deadline: nat): (m: Moved)
    requires turn <= |schedule|
  {
    if turn == |schedule| then Moved(Timeout, 0, position, turn)
    else Moved(if schedule[turn].now < deadline then Ok else Timeout, 0, position, turn + 1)
  }

  method CheckDeadline(wire: Wire, deadline: nat) returns (error: MbError)
    requires wire.Valid()
    modifies wire`turn
    ensures wire.Valid()
    ensures forall position ::
      Moved(error, 0, position, wire.turn) == Close(wire.schedule, old(wire.turn), position, deadline)
  {
    if wire.turn == |wire.schedule| {
      return Timeout;
    }
    error := if wire.schedule[wire.turn].now < deadline then Ok else Timeout;
    wire.turn := wire.turn + 1;
  }

  /** Moves bytes `position .. length` of the request. */
  function Send(schedule: seq<Turn>, turn: nat, position: nat, length: nat, deadline: nat): (m: Moved)
    requires turn <= |schedule| && position <= length
    ensures turn <= m.turn <= |schedule| && position <= m.position <= length
    ensures m.error.Ok? ==> m.position == length && turn < m.turn
    ensures m.error.Ok? ==> forall k :: turn <= k < m.turn ==> schedule[k].now < deadline
    ensures m.error.Ok? || m.error.Timeout? || m.error.Io?
    decreases |schedule| - turn
  {
    if position == length then Close(schedule, turn, position, deadline)
    else
      var w := Wait(schedule, turn, deadline);
      if !w.error.Ok? then Moved(w.error, w.systemError, position, w.turn)
      else match w.transfer
        case Data(count) =>
          if count == 0 then Moved(Io, 0, position, w.turn)
          else Send(schedule, w.turn, Min(position + count, length), length, deadline)
        case Closed => Moved(Io, 0, position, w.turn)
        case Retry => Send(schedule, w.turn, position, length, deadline)
        case Broken(errno) => Moved(Io, errno, position, w.turn)
  }

  method SendExact(wire: Wire, bytes: array<byte>, deadline: nat) returns (error: MbError, systemError: int)
    requires wire.Valid()
    modifies wire`turn, wire`sent
    ensures wire.Valid()
    ensures var m := Send(wire.schedule, old(wire.turn), 0, bytes.Length, deadline);
      && error == m.error && systemError == m.systemError && wire.turn == m.turn
      && wire.sent == old(wire.sent) + bytes[..m.position]
  {
    hide Wait;
    var position: nat := 0;
    while position < bytes.Length
      invariant wire.Valid() && position <= bytes.Length
      invariant wire.sent == old(wire.sent) + bytes[..position]
      invariant Send(wire.schedule, old(wire.turn), 0, bytes.Length, deadline)
             == Send(wire.schedule, wire.turn, position, bytes.Length, deadline)
      decreases |wire.schedule| - wire.turn
    {
      var transfer;
      error, systemError, transfer := WaitReady(wire, deadline);
      if error != Ok {
        return;
      }
      match transfer {
        case Data(count) =>
          if count == 0 {
            return Io, 0;
          }
          var next := Min(position + count, bytes.Length);
          wire.sent := wire.sent + bytes[position..next];
          assert bytes[..position] + bytes[position..next] == bytes[..next];
          position := next;
        case Closed => return Io, 0;
        case Retry =>
        case Broken(errno) => return Io, errno;
      }
    }
    systemError := 0;
    error := CheckDeadline(wire, deadline);
  }

  /** Moves bytes `position .. end` of the peer's stream, which closes after `limit` bytes. */
  function Receive(schedule: seq<Turn>, turn: nat, position: nat, end: nat, limit: nat, deadline: nat): (m: Moved)
    requires turn <= |schedule| && position <= end && position <= limit
    ensures turn <= m.turn <= |schedule| && position <= m.position <= end && m.position <= limit
    ensures m.error.Ok? ==> m.position == end && turn < m.turn
    ensures m.error.Ok? ==> forall k :: turn <= k < m.turn ==> schedule[k].now < deadline
    ensures m.error.Ok? || m.error.Timeout? || m.error.Truncated? || m.error.Io?
    decreases |schedule| - turn
  {
    if position == end then Close(schedule, turn, position, deadline)
    else
      var w := Wait(schedule, turn, deadline);
      if !w.error.Ok? then Moved(w.error, w.systemError, position, w.turn)
      else match w.transfer
        case Data(count) =>
          var next := Min(position + count, Min(end, limit));
          if next == position then Moved(Truncated, 0, position, w.turn)
          else Receive(schedule, w.turn, next, end, limit, deadline)
        case Closed => Moved(Truncated, 0, position, w.turn)
        case Retry => Receive(schedule, w.turn, position, end, limit, deadline)
        case Broken(errno) => Moved(Io, errno, position, w.turn)
  }

  lemma SpliceTwice(before: seq<byte>, at: nat, stream: seq<byte>, i: nat, j: nat, k: nat)
    requires i <= j <= k <= |stream| && at + k - i <= |before|
    ensures Splice(Splice(before, at, stream[i..j]), at + j - i, stream[j..k]) == Splice(before, at, stream[i..k])
  {
    assert stream[i..j] + stream[j..k] == stream[i..k];
  }

  lemma SpliceNothing(before: seq<byte>, at: nat)
    requires at <= |before|
    ensures Splice(before, at, []) == before
  {
  }

  /** `recv`: the peer's bytes up to stream position `next`, stored from `buffer[at]` on. */
  method TakeBytes(wire: Wire, buffer: array<byte>, at: nat, next: nat)
    requires wire.Valid() && wire.taken <= next <= |wire.incoming| && at + next - wire.taken <= buffer.Length
    modifies wire`taken, buffer
    ensures wire.taken == next
    ensures buffer[..] == Splice(old(buffer[..]), at, wire.incoming[old(wire.taken)..next])
  {
    forall i | at <= i < at + next - wire.taken {
      buffer[i] := wire.incoming[wire.taken + (i - at)];
    }
    wire.taken := next;
  }

  /** `receive_exact` into `buffer[start .. start + length]`: the peer's next bytes, in order, and
      nothing outside the part that was filled. */
  method ReceiveExact(wire: Wire, buffer: array<byte>, start: nat, length: nat, deadline: nat)
    returns (error: MbError, systemError: int)
    requires wire.Valid() && start + length <= buffer.Length
    modifies wire`turn, wire`taken, buffer
    ensures wire.Valid()
    ensures var from := old(wire.taken);
      var m := Receive(wire.schedule, old(wire.turn), from, from + length, |wire.incoming|, deadline);
      && error == m.error && systemError == m.systemError
      && wire.turn == m.turn && wire.taken == m.position
      && buffer[..] == Splice(old(buffer[..]), start, wire.incoming[from..m.position])
  {
    hide Wait, Splice;
    var from, limit := wire.taken, |wire.incoming|;
    var end := from + length;
    ghost var before := buffer[..];
    SpliceNothing(before, start);
    assert wire.incoming[from..from] == [];
    while wire.taken < end
      invariant wire.Valid() && from <= wire.taken <= end
      invariant Receive(wire.schedule, old(wire.turn), from, end, limit, deadline)
             == Receive(wire.schedule, wire.turn, wire.taken, end, limit, deadline)
      invariant buffer[..] == Splice(before, start, wire.incoming[from..wire.taken])
      decreases |wire.schedule| - wire.turn
    {
      var transfer;
      ghost var filled := buffer[..];
      error, systemError, transfer := WaitReady(wire, deadline);
      assert buffer[..] == filled;
      if error != Ok {
        return;
      }
      match transfer {
        case Data(count) =>
          var next := Min(wire.taken + count, Min(end, limit));
          if next == wire.taken {
            return Truncated, 0;
          }
          SpliceTwice(before, start, wire.incoming, from, wire.taken, next);
          TakeBytes(wire, buffer, start + wire.taken - from, next);
        case Closed => return Truncated, 0;
        case Retry =>
        case Broken(errno) => return Io, errno;
      }
    }
    systemError := 0;
    error := CheckDeadline(wire, deadline);
  }

  // ----- mb_read_points -----

  /** Socket creation and connection, up to the first wait. */
  datatype Connection = Immediate | Refused(errno: int) | Pending(queryErrno: int, socketError: int)
  datatype Setup =
    | NoSocket(errno: int)
    | SetupFailed(errno: int) // descriptor too large, option or non-blocking mode refused
    | Opened(now: nat, connection: Connection)

  predicate TransportFailure(error: MbError) {
    error.Connect? || error.Io? || error.Timeout? || error.Truncated?
  }

  /** The outcome of one read; `used` counts the turns it took. */
  datatype Outcome = Outcome(error: MbError, exceptionCode: byte, systemError: int, words: seq<word>, used: nat)

  function Failure(error: MbError, systemError: int, used: nat): Outcome {
    Outcome(error, 0, systemError, [], used)
  }

  function FrameLength(header: seq<byte>): (n: nat)
    requires |header| == 7
  {
    6 + Be16(header[4], header[5])
  }

  /** Send the twelve request bytes, read seven header bytes, check them, read the rest, decode. */
  function Exchange(schedule: seq<Turn>, turn: nat, incoming: seq<byte>, deadline: nat,
                    tid: word, unit: byte, function_: byte, qty: word): (x: Outcome)
    requires turn <= |schedule|
    ensures turn <= x.used <= |schedule|
  {
    var sent := Send(schedule, turn, 0, REQUEST_SIZE, deadline);
    if !sent.error.Ok? then Failure(sent.error, sent.systemError, sent.turn) else
    var head := Receive(schedule, sent.turn, 0, 7, |incoming|, deadline);
    if !head.error.Ok? then Failure(head.error, head.systemError, head.turn) else
    var header := incoming[..7];
    if CheckHeader(header, tid, unit) != Ok then Failure(CheckHeader(header, tid, unit), 0, head.turn) else
    var body := Receive(schedule, head.turn, 7, FrameLength(header), |incoming|, deadline);
    if !body.error.Ok? then Failure(body.error, body.systemError, body.turn) else
    var d := Decode(incoming[..FrameLength(header)], tid, unit, function_, qty);
    Outcome(d.error, d.exceptionCode, 0, d.words, body.turn)
  }

  /** Outcome including argument checks and connection. `deadline` is the start time plus the timeout. */
  function Read(setup: Setup, schedule: seq<Turn>, incoming: seq<byte>, deadline: nat, addressValid: bool,
                tid: word, unit: byte, function_: byte, offset: word, qty: word): (x: Outcome)
    ensures x.used <= |schedule|
  {
    if !addressValid || !RequestAccepted(function_, offset, qty) then Failure(Argument, 0, 0)
    else match setup
      case NoSocket(errno) => Failure(MbError.Connect, errno, 0)
      case SetupFailed(errno) => Failure(Io, errno, 0)
      case Opened(now, connection) =>
        if now >= deadline then Failure(Timeout, 0, 0)
        else match connection
          case Immediate => Exchange(schedule, 0, incoming, deadline, tid, unit, function_, qty)
          case Refused(errno) => Failure(MbError.Connect, errno, 0)
          case Pending(queryErrno, socketError) =>
            var w := Wait(schedule, 0, deadline);
            if !w.error.Ok? then Failure(w.error, w.systemError, w.turn)
            else if queryErrno != 0 then Failure(MbError.Connect, queryErrno, w.turn)
            else if socketError != 0 then Failure(MbError.Connect, socketError, w.turn)
            else Exchange(schedule, w.turn, incoming, deadline, tid, unit, function_, qty)
  }

  lemma SplicedPrefix(before: seq<byte>, stream: seq<byte>, n: nat)
    requires n <= |before| && n <= |stream|
    ensures Splice(before, 0, stream[0..n])[..n] == stream[..n]
  {
  }

  /** The part of `mb_read_points` after the connection is up. The response buffer has exactly
      109 bytes and the method proves that no store falls outside it. */
  method RunExchange(wire: Wire, request: array<byte>, deadline: nat,
                     tid: word, unit: byte, function_: byte, qty: word, out: array<word>)
    returns (result: MbResult)
    requires wire.Valid() && wire.taken == 0
    requires request.Length == REQUEST_SIZE && out.Length == MB_MAX_REGISTERS
    modifies wire, out
    ensures wire.Valid()
    ensures var x := Exchange(wire.schedule, old(wire.turn), wire.incoming, deadline, tid, unit, function_, qty);
      && result == MbResult(x.error, x.exceptionCode, 0, x.systemError) && wire.turn == x.used
      && out[..] == x.words + old(out[..])[|x.words|..]
    ensures exists n: nat :: n <= REQUEST_SIZE && wire.sent == old(wire.sent) + old(request[..n])
                          && (n == REQUEST_SIZE || TransportFailure(result.error))
  {
    hide Send, Receive, Wait, Decode, Splice;
    var response := new byte[MAX_RESPONSE_SIZE];
    ghost var blank := response[..];
    var error, systemError := SendExact(wire, request, deadline);
    if error != Ok {
      return MbResult(error, 0, 0, systemError);
    }
    error, systemError := ReceiveExact(wire, response, 0, 7, deadline);
    if error != Ok {
      return MbResult(error, 0, 0, systemError);
    }
    SplicedPrefix(blank, wire.incoming, 7);
    error := CheckHeader(response[..7], tid, unit);
    if error != Ok {
      return MbResult(error, 0, 0, 0);
    }
    var length := 6 + Be16(response[4], response[5]);
    assert length == FrameLength(response[..7]);
    error, systemError := ReceiveExact(wire, response, 7, length - 7, deadline);
    if error != Ok {
      return MbResult(error, 0, 0, systemError);
    }
    SpliceTwice(blank, 0, wire.incoming, 0, 7, length);
    SplicedPrefix(blank, wire.incoming, length);
    result := DecodeReadResponse(response[..length], tid, unit, function_, qty, out);
  }

  /** `mb_read_points`. `addressValid` stands for a parsable host, a nonzero port and a nonzero timeout;
      `finished` is the clock when it returns. */
  method ReadPoints(wire: Wire, setup: Setup, addressValid: bool, started: nat, timeout: nat, finished: nat,
                    tid: word, unit: byte, function_: byte, offset: word, qty: word, out: array<word>)
    returns (result: MbResult)
    requires wire.Valid() && wire.turn == 0 && wire.taken == 0
    requires out.Length == MB_MAX_REGISTERS && started <= finished
    modifies wire, out
    ensures var x := Read(setup, wire.schedule, wire.incoming, started + timeout, addressValid,
                          tid, unit, function_, offset, qty);
      && result == MbResult(x.error, x.exceptionCode, Min(finished - started, U32_MAX), x.systemError)
      && wire.turn == x.used
      && out[..] == x.words + old(out[..])[|x.words|..]
    ensures !addressValid || !RequestAccepted(function_, offset, qty) ==> wire.sent == old(wire.sent)
    ensures exists n: nat ::
      n <= 12 && wire.sent == old(wire.sent) + RequestFrame(tid, unit, function_, offset, qty)[..n]
    ensures addressValid && RequestAccepted(function_, offset, qty) && !TransportFailure(result.error) ==>
      && |wire.sent| == |old(wire.sent)| + 12 && old(wire.sent) <= wire.sent
      && ParseRequest(wire.sent[|old(wire.sent)|..]) == Some((tid, unit, function_, offset, qty))
  {
    hide Exchange, Wait, RequestFrame, RequestAccepted;
    var deadline := started + timeout;
    var elapsed := Min(finished - started, U32_MAX);
    var request := new byte[REQUEST_SIZE];
    var size := BuildReadRequest(request, tid, unit, function_, offset, qty);
    ghost var frame := RequestFrame(tid, unit, function_, offset, qty);
    assert wire.sent == old(wire.sent) + frame[..0];
    if !addressValid || size == 0 {
      return MbResult(Argument, 0, elapsed, 0);
    }
    match setup {
      case NoSocket(errno) => return MbResult(MbError.Connect, 0, elapsed, errno);
      case SetupFailed(errno) => return MbResult(Io, 0, elapsed, errno);
      case Opened(now, connection) =>
        if now >= deadline {
          return MbResult(Timeout, 0, elapsed, 0);
        }
        match connection {
          case Immediate =>
          case Refused(errno) => return MbResult(MbError.Connect, 0, elapsed, errno);
          case Pending(queryErrno, socketError) =>
            var error, systemError, _ := WaitReady(wire, deadline);
            if error != Ok {
              return MbResult(error, 0, elapsed, systemError);
            }
            if queryErrno != 0 {
              return MbResult(MbError.Connect, 0, elapsed, queryErrno);
            }
            if socketError != 0 {
              return MbResult(MbError.Connect, 0, elapsed, socketError);
            }
        }
    }
    result := RunExchange(wire, request, deadline, tid, unit, function_, qty, out);
    result := result.(elapsedMs := elapsed);
  }

  // ----- the staged reader and the pure decoder agree -----

  /** The frame a peer's byte stream starts with: the header alone when the header is already
      unacceptable, otherwise the header and as many bytes as its length field announces. */
  function Assembled(incoming: seq<byte>, tid: word, unit: byte): seq<byte>
    requires |incoming| >= 7
  {
    var length := FrameLength(incoming[..7]);
    if CheckHeader(incoming[..7], tid, unit) != Ok || |incoming| < length then incoming[..7]
    else incoming[..length]
  }

  /** Whatever the schedule: a verdict that is not a transport failure is the pure decoder's verdict
      on the assembled frame, words and exception code included, and every turn it took
      began before the original deadline. */
  lemma StagedIsPure(schedule: seq<Turn>, turn: nat, incoming: seq<byte>, deadline: nat,
                     tid: word, unit: byte, function_: byte, qty: word)
    requires turn <= |schedule|
    requires ValidFunction(function_) && ValidQuantity(qty)
    ensures var x := Exchange(schedule, turn, incoming, deadline, tid, unit, function_, qty);
      !TransportFailure(x.error) ==>
        && |incoming| >= 7
        && (var d := Decode(Assembled(incoming, tid, unit), tid, unit, function_, qty);
            x == Outcome(d.error, d.exceptionCode, 0, d.words, x.used))
        && forall k :: turn <= k < x.used ==> schedule[k].now < deadline
  {
  }

  // ----- fragmentation independence -----

  /** From `turn` on, every turn happens in time and is at worst an interruption, a retry
      or a partial transfer. */
  predicate Timely(schedule: seq<Turn>, turn: nat, deadline: nat) {
    forall k :: turn <= k < |schedule| ==>
      && schedule[k].now < deadline && schedule[k].confirmed < deadline
      && (schedule[k].selected.Ready? || schedule[k].selected.Interrupted?)
      && (schedule[k].transfer.Retry? || (schedule[k].transfer.Data? && schedule[k].transfer.count >= 1))
  }

  /** How many turns from `turn` on move at least one byte. */
  function Productive(schedule: seq<Turn>, turn: nat): nat
    requires turn <= |schedule|
    decreases |schedule| - turn
  {
    if turn == |schedule| then 0
    else (if schedule[turn].selected.Ready? && schedule[turn].transfer.Data? then 1 else 0)
         + Productive(schedule, turn + 1)
  }

  lemma {:induction false} TimelyWait(schedule: seq<Turn>, turn: nat, deadline: nat)
    requires turn <= |schedule| && Timely(schedule, turn, deadline)
    ensures var w := Wait(schedule, turn, deadline);
      if w.error.Ok? then
        && (w.transfer.Retry? || (w.transfer.Data? && w.transfer.count >= 1))
        && Productive(schedule, w.turn) + (if w.transfer.Data? then 1 else 0) == Productive(schedule, turn)
      else w.error == Timeout && w.systemError == 0 && w.turn == |schedule| && Productive(schedule, turn) == 0
    decreases |schedule| - turn
  {
    if turn < |schedule| && schedule[turn].selected.Interrupted? {
      TimelyWait(schedule, turn + 1, deadline);
    }
  }

  /** A transfer loop ends well, having used at most `need` productive turns and the closing one, or it
      runs out of schedule with no more than `need` productive turns in it. */
  predicate MovedOrRanOut(schedule: seq<Turn>, turn: nat, need: nat, m: Moved)
    requires turn <= |schedule| && m.turn <= |schedule|
  {
    if m.error.Ok? then Productive(schedule, m.turn) + need + 1 >= Productive(schedule, turn)
    else m.error == Timeout && m.systemError == 0 && m.turn == |schedule| && Productive(schedule, turn) <= need
  }

  lemma {:induction false} TimelySend(schedule: seq<Turn>, turn: nat, position: nat, length: nat, deadline: nat)
    requires turn <= |schedule| && position <= length && Timely(schedule, turn, deadline)
    ensures MovedOrRanOut(schedule, turn, length - position, Send(schedule, turn, position, length, deadline))
    decreases |schedule| - turn
  {
    if position != length {
      TimelyWait(schedule, turn, deadline);
      var w := Wait(schedule, turn, deadline);
      if w.error.Ok? {
        var next := if w.transfer.Retry? then position else Min(position + w.transfer.count, length);
        TimelySend(schedule, w.turn, next, length, deadline);
      }
    }
  }

  lemma {:induction false} TimelyReceive(schedule: seq<Turn>, turn: nat, position: nat, end: nat, limit: nat,
                                         deadline: nat)
    requires turn <= |schedule| && position <= end <= limit && Timely(schedule, turn, deadline)
    ensures MovedOrRanOut(schedule, turn, end - position, Receive(schedule, turn, position, end, limit, deadline))
    decreases |schedule| - turn
  {
    if position != end {
      TimelyWait(schedule, turn, deadline);
      var w := Wait(schedule, turn, deadline);
      if w.error.Ok? {
        var next := if w.transfer.Retry? then position else Min(position + w.transfer.count, end);
        TimelyReceive(schedule, w.turn, next, end, limit, deadline);
      }
    }
  }

  /** Fragmentation independence: on every timely schedule, however the bytes are cut up, the staged reader
      returns the pure decoder's result on the assembled frame, unless the schedule runs out first. That
      ends in a timeout with every turn used, and cannot happen once 124 turns move bytes: enough for each of
      12 request and at most 109 response bytes on its own, and three closing deadline checks. */
  lemma FragmentationIndependence(schedule: seq<Turn>, turn: nat, incoming: seq<byte>, deadline: nat,
                                  tid: word, unit: byte, function_: byte, qty: word)
    requires turn <= |schedule|
    requires ValidFunction(function_) && ValidQuantity(qty) && Timely(schedule, turn, deadline)
    requires |incoming| >= 7
    requires CheckHeader(incoming[..7], tid, unit) == Ok ==> |incoming| >= FrameLength(incoming[..7])
    ensures var d := Decode(Assembled(incoming, tid, unit), tid, unit, function_, qty);
      var x := Exchange(schedule, turn, incoming, deadline, tid, unit, function_, qty);
      || x == Outcome(d.error, d.exceptionCode, 0, d.words, x.used)
      || (x == Failure(Timeout, 0, |schedule|) && Productive(schedule, turn) < 124)
  {
    hide Send, Receive, Decode, Productive;
    TimelySend(schedule, turn, 0, REQUEST_SIZE, deadline);
    var sent := Send(schedule, turn, 0, REQUEST_SIZE, deadline);
    TimelyReceive(schedule, sent.turn, 0, 7, |incoming|, deadline);
    var head := Receive(schedule, sent.turn, 0, 7, |incoming|, deadline);
    var header := incoming[..7];
    if CheckHeader(header, tid, unit) == Ok {
      TimelyReceive(schedule, head.turn, 7, FrameLength(header), |incoming|, deadline);
    }
    StagedIsPure(schedule, turn, incoming, deadline, tid, unit, function_, qty);
  }

  /** So on a timely schedule with enough turns the result is the pure decoder's, without exception. */
  lemma EnoughTurnsDecide(schedule: seq<Turn>, turn: nat, incoming: seq<byte>, deadline: nat,
                          tid: word, unit: byte, function_: byte, qty: word)
    requires turn <= |schedule|
    requires ValidFunction(function_) && ValidQuantity(qty) && Timely(schedule, turn, deadline)
    requires |incoming| >= 7 && Productive(schedule, turn) >= 124
    requires CheckHeader(incoming[..7], tid, unit) == Ok ==> |incoming| >= FrameLength(incoming[..7])
    ensures var d := Decode(Assembled(incoming, tid, unit), tid, unit, function_, qty);
      var x := Exchange(schedule, turn, incoming, deadline, tid, unit, function_, qty);
      x == Outcome(d.error, d.exceptionCode, 0, d.words, x.used)
  {
    hide Exchange, Decode, Productive;
    FragmentationIndependence(schedule, turn, incoming, deadline, tid, unit, function_, qty);
  }

  // ----- a whole read -----

  /** The socket is up before the deadline, at once or when the pending connection succeeds. */
  predicate Connects(setup: Setup, deadline: nat) {
    && setup.Opened? && setup.now < deadline
    && (setup.connection.Immediate? || setup.connection == Pending(0, 0))
  }

  /** A whole read on a timely schedule: refused for its arguments, or a transport failure because there is
      no connection, or the pure decoder's result on the assembled frame, however the bytes are cut up; the
      one exception is again a schedule that runs out. */
  lemma ReadIsDecoder(setup: Setup, schedule: seq<Turn>, incoming: seq<byte>, deadline: nat, addressValid: bool,
                      tid: word, unit: byte, function_: byte, offset: word, qty: word)
    requires Timely(schedule, 0, deadline)
    requires |incoming| >= 7
    requires CheckHeader(incoming[..7], tid, unit) == Ok ==> |incoming| >= FrameLength(incoming[..7])
    ensures var x := Read(setup, schedule, incoming, deadline, addressValid, tid, unit, function_, offset, qty);
      if !addressValid || !RequestAccepted(function_, offset, qty) then x == Failure(Argument, 0, 0)
      else if !Connects(setup, deadline) then x == Failure(x.error, x.systemError, x.used) && TransportFailure(x.error)
      else
        var d := Decode(Assembled(incoming, tid, unit), tid, unit, function_, qty);
        || x == Outcome(d.error, d.exceptionCode, 0, d.words, x.used)
        || (x == Failure(Timeout, 0, |schedule|) && Productive(schedule, 0) <= 124)
  {
    hide Exchange, Decode, Productive, Assembled;
    if addressValid && RequestAccepted(function_, offset, qty) && setup.Opened? && setup.now < deadline {
      TimelyWait(schedule, 0, deadline);
      var turn := if setup.connection.Pending? then Wait(schedule, 0, deadline).turn else 0;
      FragmentationIndependence(schedule, turn, incoming, deadline, tid, unit, function_, qty);
    }
  }

  // ----- every failure has its cause -----

  /** A wait is decided by the first turn that is not an interruption in time: late, on the clock before or after
      `select` or because `select` says so, it is a timeout; a failing `select` gives its error; otherwise the
      socket is ready. */
  lemma {:induction false} WaitEnds(schedule: seq<Turn>, turn: nat, k: nat, deadline: nat)
    requires turn <= k <= |schedule|
    requires forall j :: turn <= j < k ==> schedule[j].now < deadline && schedule[j].selected.Interrupted?
    requires k < |schedule| ==> schedule[k].now >= deadline || !schedule[k].selected.Interrupted?
    ensures var w := Wait(schedule, turn, deadline);
      if k == |schedule| then w.error == Timeout && w.systemError == 0 && w.turn == k
      else
        var t := schedule[k];
        && w.turn == k + 1
        && if t.now >= deadline || t.selected.Expired? || (t.selected.Ready? && t.confirmed >= deadline)
           then w.error == Timeout && w.systemError == 0
           else if t.selected.Failed? then w.error == Io && w.systemError == t.selected.errno
           else w.error == Ok && w.systemError == 0 && w.transfer == t.transfer
    decreases k - turn
  {
    if turn < k {
      WaitEnds(schedule, turn + 1, k, deadline);
    }
  }

  /** The turn was too late. */
  predicate Late(t: Turn, deadline: nat) {
    t.now >= deadline || t.selected.Expired? || t.confirmed >= deadline
  }

  /** The turn was in time and `select` failed with this error. */
  predicate SelectFailed(t: Turn, deadline: nat, errno: int) {
    t.now < deadline && t.selected == Selected.Failed(errno)
  }

  /** The turn was in time, the socket was ready and the transfer did this. */
  predicate Transferred(t: Turn, deadline: nat, transfer: Transfer) {
    t.now < deadline && t.confirmed < deadline && t.selected.Ready? && t.transfer == transfer
  }

  lemma {:induction false} WaitCause(schedule: seq<Turn>, turn: nat, deadline: nat)
    requires turn <= |schedule|
    ensures var w := Wait(schedule, turn, deadline);
      if w.error.Timeout? then
        w.systemError == 0 && (w.turn == |schedule| || (w.turn > turn && Late(schedule[w.turn - 1], deadline)))
      else if w.error.Io? then w.turn > turn && SelectFailed(schedule[w.turn - 1], deadline, w.systemError)
      else w.error.Ok? && w.turn > turn && Transferred(schedule[w.turn - 1], deadline, w.transfer)
    decreases |schedule| - turn
  {
    if turn < |schedule| && schedule[turn].now < deadline && schedule[turn].selected.Interrupted? {
      WaitCause(schedule, turn + 1, deadline);
    }
  }

  /** What the last turn of a transfer loop did that ended it. */
  predicate Explained(schedule: seq<Turn>, turn: nat, deadline: nat, m: Moved, sending: bool, limit: nat)
    requires turn <= m.turn <= |schedule|
  {
    match m.error
    case Ok => m.systemError == 0
    case Timeout =>
      m.systemError == 0 && (m.turn == |schedule| || (m.turn > turn && Late(schedule[m.turn - 1], deadline)))
    case Io =>
      && m.turn > turn
      && var t := schedule[m.turn - 1];
         || SelectFailed(t, deadline, m.systemError) || Transferred(t, deadline, Broken(m.systemError))
         || (sending && m.systemError == 0
             && (Transferred(t, deadline, Closed) || Transferred(t, deadline, Transfer.Data(0))))
    case Truncated =>
      && !sending && m.systemError == 0 && m.turn > turn
      && var t := schedule[m.turn - 1];
         || Transferred(t, deadline, Closed) || Transferred(t, deadline, Transfer.Data(0))
         || (m.position == limit && t.transfer.Data? && Transferred(t, deadline, t.transfer))
    case _ => false
  }

  lemma {:induction false} SendExplained(schedule: seq<Turn>, turn: nat, position: nat, length: nat, deadline: nat)
    requires turn <= |schedule| && position <= length
    ensures Explained(schedule, turn, deadline, Send(schedule, turn, position, length, deadline), true, 0)
    decreases |schedule| - turn
  {
    hide Wait;
    if position != length {
      WaitCause(schedule, turn, deadline);
      var w := Wait(schedule, turn, deadline);
      if w.error.Ok? && (w.transfer.Retry? || (w.transfer.Data? && w.transfer.count > 0)) {
        var next := if w.transfer.Retry? then position else Min(position + w.transfer.count, length);
        SendExplained(schedule, w.turn, next, length, deadline);
      }
    }
  }

  lemma {:induction false} ReceiveExplained(schedule: seq<Turn>, turn: nat, position: nat, end: nat, limit: nat,
                                            deadline: nat)
    requires turn <= |schedule| && position <= end && position <= limit
    ensures Explained(schedule, turn, deadline, Receive(schedule, turn, position, end, limit, deadline), false, limit)
    decreases |schedule| - turn
  {
    hide Wait;
    if position != end {
      WaitCause(schedule, turn, deadline);
      var w := Wait(schedule, turn, deadline);
      if w.error.Ok? {
        if w.transfer.Retry? {
          ReceiveExplained(schedule, w.turn, position, end, limit, deadline);
        } else if w.transfer.Data? {
          var next := Min(position + w.transfer.count, Min(end, limit));
          if next != position {
            ReceiveExplained(schedule, w.turn, next, end, limit, deadline);
          }
        }
      }
    }
  }

  /** How a call ends that never gets as far as the exchange. */
  lemma NoConnection(setup: Setup, schedule: seq<Turn>, incoming: seq<byte>, deadline: nat, tid: word, unit: byte,
                     function_: byte, offset: word, qty: word)
    requires RequestAccepted(function_, offset, qty)
    ensures var x := Read(setup, schedule, incoming, deadline, true, tid, unit, function_, offset, qty);
      match setup
      case NoSocket(errno) => x.error == MbError.Connect && x.systemError == errno && x.used == 0
      case SetupFailed(errno) => x.error == Io && x.systemError == errno && x.used == 0
      case Opened(now, connection) =>
        if now >= deadline then x.error == Timeout && x.systemError == 0 && x.used == 0
        else match connection
          case Immediate => true
          case Refused(errno) => x.error == MbError.Connect && x.systemError == errno && x.used == 0
          case Pending(queryErrno, socketError) =>
            var w := Wait(schedule, 0, deadline);
            if w.error != Ok then x.error == w.error && x.systemError == w.systemError && x.used == w.turn
            else if queryErrno != 0 || socketError != 0 then
              && x.error == MbError.Connect && x.used == w.turn
              && x.systemError == if queryErrno != 0 then queryErrno else socketError
            else true
  {
    hide Exchange, Wait;
  }
}
