/**
 Modbus TCP frames: the request builder and the pure response decoder of
 main/modbus_tcp.c, for the four read functions.
 */
module ModbusCodec {
  import opened Base

  const REQUEST_SIZE: nat := 12
  const MAX_RESPONSE_SIZE: nat := 9 + 2 * MB_MAX_REGISTERS

  function WriteBe16(value: word): seq<byte> { [value / 256, value % 256] }

  /** The two bytes of a word determine it, and it determines them. */
  lemma Be16Unique(high: byte, low: byte, value: word)
    ensures Be16(high, low) == value <==> WriteBe16(value) == [high, low]
  {
  }

  predicate ValidFunction(function_: int) { 1 <= function_ <= 4 }

  predicate ValidQuantity(qty: int) { 1 <= qty <= MB_MAX_REGISTERS }

  // ----- requests -----

  predicate RequestAccepted(function_: byte, offset: word, qty: word) {
    ValidFunction(function_) && ValidQuantity(qty) && offset + qty <= 0x1_0000
  }

  function RequestFrame(tid: word, unit: byte, function_: byte, offset: word, qty: word): seq<byte> {
    [tid / 256, tid % 256, 0, 0, 0, 6, unit, function_, offset / 256, offset % 256, qty / 256, qty % 256]
  }

  /** How a server reads a request ADU: transaction, unit, function, first address, quantity. */
  function ParseRequest(frame: seq<byte>): (r: Option<(word, byte, byte, word, word)>)
  {
    if |frame| == 12 && Be16(frame[2], frame[3]) == 0 && Be16(frame[4], frame[5]) == 6
    then Some((Be16(frame[0], frame[1]), frame[6], frame[7], Be16(frame[8], frame[9]), Be16(frame[10], frame[11])))
    else None
  }

  /** The server sees exactly the request that was asked for. */
  lemma RequestReachesServer(tid: word, unit: byte, function_: byte, offset: word, qty: word)
    ensures ParseRequest(RequestFrame(tid, unit, function_, offset, qty)) == Some((tid, unit, function_, offset, qty))
  {
    Be16Unique(tid / 256, tid % 256, tid);
    Be16Unique(offset / 256, offset % 256, offset);
    Be16Unique(qty / 256, qty % 256, qty);
  }

  /** `mb_build_read_request`: fills the whole buffer or leaves it alone. */
  method BuildReadRequest(request: array<byte>, tid: word, unit: byte, function_: byte, offset: word, qty: word)
    returns (size: nat)
    requires request.Length == REQUEST_SIZE
    modifies request
    ensures size == if RequestAccepted(function_, offset, qty) then REQUEST_SIZE else 0
    ensures RequestAccepted(function_, offset, qty) ==>
      ParseRequest(request[..]) == Some((tid, unit, function_, offset, qty))
    ensures RequestAccepted(function_, offset, qty) ==>
      request[..] == RequestFrame(tid, unit, function_, offset, qty)
    ensures !RequestAccepted(function_, offset, qty) ==> request[..] == old(request[..])
  {
    if function_ < 1 || function_ > 4 || !ValidQuantity(qty) || offset + qty > 65536 {
      return 0;
    }
    request[0], request[1] := tid / 256, tid % 256;
    request[2], request[3] := 0, 0;
    request[4], request[5] := 0, 6;
    request[6], request[7] := unit, function_;
    request[8], request[9] := offset / 256, offset % 256;
    request[10], request[11] := qty / 256, qty % 256;
    assert request[..] == RequestFrame(tid, unit, function_, offset, qty);
    RequestReachesServer(tid, unit, function_, offset, qty);
    return REQUEST_SIZE;
  }

  // ----- responses -----

  /** `check_header` on the seven MBAP bytes. */
  function CheckHeader(frame: seq<byte>, tid: word, unit: byte): (error: MbError)
    requires |frame| >= 7
  {
    var remaining := Be16(frame[4], frame[5]);
    if Be16(frame[0], frame[1]) != tid then Transaction
    else if Be16(frame[2], frame[3]) != 0 then Protocol
    else if frame[6] != unit then MbError.Unit
    else if remaining < 3 || remaining > 3 + 2 * MB_MAX_REGISTERS then Length
    else Ok
  }

  function ByteCountFor(function_: nat, qty: nat): nat {
    if function_ <= 2 then (qty + 7) / 8 else 2 * qty
  }

  function ShiftRight(b: nat, k: nat): nat { if k == 0 then b else ShiftRight(b / 2, k - 1) }

  function BitOf(b: byte, k: nat): (bit: word)
    ensures bit <= 1
  {
    ShiftRight(b, k) % 2
  }

  /** The value of point `i` in the bytes after the byte count. */
  function ItemAt(function_: nat, payload: seq<byte>, i: nat): word
    requires if function_ <= 2 then i / 8 < |payload| else 2 * i + 1 < |payload|
  {
    if function_ <= 2 then BitOf(payload[i / 8], i % 8) else Be16(payload[2 * i], payload[2 * i + 1])
  }

  /** Verdict, exception code and (on success) the decoded items. */
  datatype Decoded = Decoded(error: MbError, exceptionCode: byte, words: seq<word>)

  function Decode(frame: seq<byte>, tid: word, unit: byte, function_: byte, qty: word): (d: Decoded)
    ensures |d.words| == if d.error.Ok? then qty else 0
    ensures d.exceptionCode != 0 <==> d.error.Exception?
    ensures !d.error.Connect? && !d.error.Io? && !d.error.Timeout? && !d.error.Truncated?
  {
    if !ValidFunction(function_) || !ValidQuantity(qty) then Decoded(Argument, 0, [])
    else if |frame| < 7 || |frame| > MAX_RESPONSE_SIZE then Decoded(Length, 0, [])
    else if CheckHeader(frame, tid, unit) != Ok then
      Decoded(CheckHeader(frame, tid, unit), 0, [])
    else
      var remaining := Be16(frame[4], frame[5]);
      if |frame| != 6 + remaining then Decoded(Length, 0, [])
      else if frame[7] == function_ + 0x80 then
        if remaining != 3 || frame[8] == 0 then Decoded(Length, 0, [])
        else Decoded(Exception, frame[8], [])
      else if frame[7] != function_ then Decoded(Function, 0, [])
      else if frame[8] != ByteCountFor(function_, qty) then Decoded(ByteCount, 0, [])
      else if remaining != 3 + ByteCountFor(function_, qty) then Decoded(Length, 0, [])
      else Decoded(Ok, 0, seq(qty, i requires 0 <= i < qty => ItemAt(function_, frame[9..], i)))
  }

  /** `mb_decode_read_response`: same verdict as `Decode`; on any failure `out` keeps its contents,
      on success only its first `qty` words change. */
  method DecodeReadResponse(frame: seq<byte>, tid: word, unit: byte, function_: byte, qty: word, out: array<word>)
    returns (result: MbResult)
    requires out.Length == MB_MAX_REGISTERS
    modifies out
    ensures var d := Decode(frame, tid, unit, function_, qty);
      && result == MbResult(d.error, d.exceptionCode, 0, 0)
      && out[..] == d.words + old(out[..])[|d.words|..]
  {
    result := MbResult(Ok, 0, 0, 0);
    if function_ < 1 || function_ > 4 || !ValidQuantity(qty) {
      return result.(error := Argument);
    }
    if |frame| < 7 || |frame| > MAX_RESPONSE_SIZE {
      return result.(error := Length);
    }
    var error := CheckHeader(frame, tid, unit);
    if error != Ok {
      return result.(error := error);
    }
    var remaining := Be16(frame[4], frame[5]);
    if |frame| != 6 + remaining {
      return result.(error := Length);
    }
    if frame[7] == function_ + 0x80 {
      if remaining != 3 || frame[8] == 0 {
        return result.(error := Length);
      }
      return result.(error := Exception, exceptionCode := frame[8]);
    }
    if frame[7] != function_ {
      return result.(error := Function);
    }
    var byteCount := if function_ <= 2 then (qty + 7) / 8 else 2 * qty;
    if frame[8] != byteCount {
      return result.(error := ByteCount);
    }
    if remaining != 3 + byteCount {
      return result.(error := Length);
    }
    ghost var d := Decode(frame, tid, unit, function_, qty);
    var decoded := new word[MB_MAX_REGISTERS];
    for index := 0 to qty
      invariant forall k :: 0 <= k < index ==> decoded[k] == d.words[k]
      invariant out[..] == old(out[..])
    {
      decoded[index] := if function_ <= 2
        then BitOf(frame[9 + index / 8], index % 8)
        else Be16(frame[9 + 2 * index], frame[9 + 2 * index + 1]);
      assert decoded[index] == ItemAt(function_, frame[9..], index);
    }
    forall i | 0 <= i < qty {
      out[i] := decoded[i];
    }
  }

  // ----- what a server sends -----

  /** Up to eight bits in one byte, first bit lowest; unused high bits are zero. */
  function PackByte(bits: seq<word>): (b: byte)
    requires |bits| <= 8 && forall k :: 0 <= k < |bits| ==> bits[k] <= 1
    ensures |bits| < 8 ==> b < 128
    ensures |bits| < 7 ==> b < 64
    ensures |bits| < 6 ==> b < 32
    ensures |bits| < 5 ==> b < 16
    ensures |bits| < 4 ==> b < 8
    ensures |bits| < 3 ==> b < 4
    ensures |bits| < 2 ==> b < 2
    ensures |bits| < 1 ==> b < 1
  {
    if bits == [] then 0 else bits[0] + 2 * PackByte(bits[1..])
  }

  function PackBits(bits: seq<word>): (packed: seq<byte>)
    requires forall k :: 0 <= k < |bits| ==> bits[k] <= 1
    ensures |packed| == (|bits| + 7) / 8
  {
    if bits == [] then []
    else if |bits| <= 8 then [PackByte(bits)]
    else [PackByte(bits[..8])] + PackBits(bits[8..])
  }

  function PackRegisters(values: seq<word>): (packed: seq<byte>)
    ensures |packed| == 2 * |values|
    ensures forall i :: 0 <= i < |values| ==> packed[2 * i] == values[i] / 256 && packed[2 * i + 1] == values[i] % 256
  {
    seq(2 * |values|, k requires 0 <= k < 2 * |values| =>
      if k % 2 == 0 then values[k / 2] / 256 else values[k / 2] % 256)
  }

  predicate Encodable(function_: nat, values: seq<word>) {
    && ValidFunction(function_) && ValidQuantity(|values|)
    && (function_ <= 2 ==> forall k :: 0 <= k < |values| ==> values[k] <= 1)
  }

  function Payload(function_: nat, values: seq<word>): (payload: seq<byte>)
    requires Encodable(function_, values)
    ensures |payload| == ByteCountFor(function_, |values|)
  {
    if function_ <= 2 then PackBits(values) else PackRegisters(values)
  }

  function EncodeResponse(tid: word, unit: byte, function_: byte, values: seq<word>): seq<byte>
    requires Encodable(function_, values)
  {
    var payload := Payload(function_, values);
    WriteBe16(tid) + [0, 0] + WriteBe16(3 + |payload|) + [unit, function_, |payload|] + payload
  }

  function ExceptionFrame(tid: word, unit: byte, function_: byte, code: byte): seq<byte>
    requires ValidFunction(function_)
  {
    WriteBe16(tid) + [0, 0] + WriteBe16(3) + [unit, function_ + 0x80, code]
  }

  lemma {:induction false} PackedBit(bits: seq<word>, k: nat)
    requires k < |bits| <= 8 && forall j :: 0 <= j < |bits| ==> bits[j] <= 1
    ensures BitOf(PackByte(bits), k) == bits[k]
  {
    assert PackByte(bits) / 2 == PackByte(bits[1..]);
    if k != 0 {
      PackedBit(bits[1..], k - 1);
    }
  }

  lemma {:induction false} PackedBits(bits: seq<word>, i: nat)
    requires i < |bits| && forall j :: 0 <= j < |bits| ==> bits[j] <= 1
    ensures BitOf(PackBits(bits)[i / 8], i % 8) == bits[i]
  {
    if |bits| <= 8 {
      PackedBit(bits, i);
    } else if i < 8 {
      PackedBit(bits[..8], i);
    } else {
      PackedBits(bits[8..], i - 8);
      assert i / 8 == (i - 8) / 8 + 1 && i % 8 == (i - 8) % 8;
    }
  }

  lemma PayloadItems(function_: nat, values: seq<word>)
    requires Encodable(function_, values)
    ensures forall i :: 0 <= i < |values| ==> ItemAt(function_, Payload(function_, values), i) == values[i]
  {
    forall i | 0 <= i < |values| ensures ItemAt(function_, Payload(function_, values), i) == values[i] {
      if function_ <= 2 {
        PackedBits(values, i);
      }
    }
  }

  /** Decoding what a conforming server sends returns the values it sent. */
  lemma DecodeEncode(tid: word, unit: byte, function_: byte, values: seq<word>)
    requires Encodable(function_, values)
    ensures Decode(EncodeResponse(tid, unit, function_, values), tid, unit, function_, |values|)
         == Decoded(Ok, 0, values)
  {
    var payload := Payload(function_, values);
    var frame := EncodeResponse(tid, unit, function_, values);
    assert frame == [tid / 256, tid % 256, 0, 0, (3 + |payload|) / 256, (3 + |payload|) % 256,
                     unit, function_, |payload|] + payload;
    assert frame[9..] == payload;
    PayloadItems(function_, values);
  }

  /** The two payloads carry the same points: register payloads must be equal, bit payloads
      may differ only in the padding after the last requested bit. */
  predicate SamePoints(function_: nat, qty: nat, a: seq<byte>, b: seq<byte>)
    requires |a| == |b| == ByteCountFor(function_, qty)
  {
    if function_ <= 2 then forall i :: 0 <= i < qty ==> BitOf(a[i / 8], i % 8) == BitOf(b[i / 8], i % 8)
    else a == b
  }

  /** What the decoder has checked of a frame it accepts. */
  lemma AcceptedFields(frame: seq<byte>, tid: word, unit: byte, function_: byte, qty: word)
    requires Decode(frame, tid, unit, function_, qty).error.Ok?
    ensures |frame| == 9 + ByteCountFor(function_, qty)
    ensures Be16(frame[0], frame[1]) == tid && Be16(frame[2], frame[3]) == 0
    ensures Be16(frame[4], frame[5]) == 3 + ByteCountFor(function_, qty)
    ensures frame[6] == unit && frame[7] == function_ && frame[8] == ByteCountFor(function_, qty)
  {
    hide ItemAt;
  }

  lemma AcceptedHeader(frame: seq<byte>, tid: word, unit: byte, function_: byte, values: seq<word>)
    requires Encodable(function_, values)
    requires Decode(frame, tid, unit, function_, |values|).error.Ok?
    ensures |frame| == 9 + ByteCountFor(function_, |values|)
    ensures frame[..9] == EncodeResponse(tid, unit, function_, values)[..9]
  {
    hide Decode, Payload, Be16;
    var size := |Payload(function_, values)|;
    AcceptedFields(frame, tid, unit, function_, |values|);
    Be16Unique(frame[0], frame[1], tid);
    Be16Unique(frame[2], frame[3], 0);
    Be16Unique(frame[4], frame[5], 3 + size);
    assert frame[..9]
        == [frame[0], frame[1]] + [frame[2], frame[3]] + [frame[4], frame[5]] + [frame[6], frame[7], frame[8]];
    assert frame[..9] == WriteBe16(tid) + WriteBe16(0) + WriteBe16(3 + size) + [unit, function_, size];
  }

  lemma RegistersDetermineBytes(function_: nat, a: seq<byte>, b: seq<byte>, n: nat)
    requires function_ > 2 && |a| == |b| == 2 * n
    requires forall i :: 0 <= i < n ==> ItemAt(function_, a, i) == ItemAt(function_, b, i)
    ensures a == b
  {
    forall k | 0 <= k < 2 * n ensures a[k] == b[k] {
      assert ItemAt(function_, a, k / 2) == ItemAt(function_, b, k / 2);
    }
  }

  lemma AcceptedItems(frame: seq<byte>, tid: word, unit: byte, function_: byte, values: seq<word>)
    requires Encodable(function_, values)
    requires Decode(frame, tid, unit, function_, |values|) == Decoded(Ok, 0, values)
    requires |frame| == 9 + ByteCountFor(function_, |values|)
    ensures SamePoints(function_, |values|, frame[9..], Payload(function_, values))
  {
    var payload := Payload(function_, values);
    PayloadItems(function_, values);
    forall i | 0 <= i < |values| ensures ItemAt(function_, frame[9..], i) == ItemAt(function_, payload, i) {
      assert Decode(frame, tid, unit, function_, |values|).words[i] == ItemAt(function_, frame[9..], i);
    }
    if function_ > 2 {
      RegistersDetermineBytes(function_, frame[9..], payload, |values|);
    } else {
      forall i | 0 <= i < |values| ensures BitOf(frame[9..][i / 8], i % 8) == BitOf(payload[i / 8], i % 8) {
        assert ItemAt(function_, frame[9..], i) == ItemAt(function_, payload, i);
      }
    }
  }

  lemma AcceptedFrameIsEncoding(frame: seq<byte>, tid: word, unit: byte, function_: byte, values: seq<word>)
    requires Encodable(function_, values)
    requires Decode(frame, tid, unit, function_, |values|) == Decoded(Ok, 0, values)
    ensures |frame| == 9 + ByteCountFor(function_, |values|)
    ensures frame[..9] == EncodeResponse(tid, unit, function_, values)[..9]
    ensures SamePoints(function_, |values|, frame[9..], Payload(function_, values))
  {
    AcceptedHeader(frame, tid, unit, function_, values);
    AcceptedItems(frame, tid, unit, function_, values);
  }

  /** The converse: those checks are all there are. */
  lemma FieldsAccepted(frame: seq<byte>, tid: word, unit: byte, function_: byte, qty: word)
    requires ValidFunction(function_) && ValidQuantity(qty) && |frame| == 9 + ByteCountFor(function_, qty)
    requires Be16(frame[0], frame[1]) == tid && Be16(frame[2], frame[3]) == 0
    requires Be16(frame[4], frame[5]) == 3 + ByteCountFor(function_, qty)
    requires frame[6] == unit && frame[7] == function_ && frame[8] == ByteCountFor(function_, qty)
    ensures var d := Decode(frame, tid, unit, function_, qty);
      && d.error.Ok? && d.exceptionCode == 0 && |d.words| == qty
      && forall i :: 0 <= i < qty ==> d.words[i] == ItemAt(function_, frame[9..], i)
  {
    hide ItemAt;
  }

  lemma SameItems(function_: nat, values: seq<word>, payload: seq<byte>)
    requires Encodable(function_, values) && |payload| == ByteCountFor(function_, |values|)
    requires SamePoints(function_, |values|, payload, Payload(function_, values))
    ensures forall i :: 0 <= i < |values| ==> ItemAt(function_, payload, i) == values[i]
  {
    hide Payload;
    PayloadItems(function_, values);
    forall i | 0 <= i < |values| ensures ItemAt(function_, payload, i) == values[i] {
      assert ItemAt(function_, Payload(function_, values), i) == values[i];
    }
  }

  lemma EncodingIsAccepted(frame: seq<byte>, tid: word, unit: byte, function_: byte, values: seq<word>)
    requires Encodable(function_, values)
    requires |frame| == 9 + ByteCountFor(function_, |values|)
    requires frame[..9] == EncodeResponse(tid, unit, function_, values)[..9]
    requires SamePoints(function_, |values|, frame[9..], Payload(function_, values))
    ensures Decode(frame, tid, unit, function_, |values|) == Decoded(Ok, 0, values)
  {
    hide Payload, ItemAt, Be16, Decode;
    var payload := Payload(function_, values);
    var head := WriteBe16(tid) + [0, 0] + WriteBe16(3 + |payload|) + [unit, function_, |payload|];
    assert EncodeResponse(tid, unit, function_, values) == head + payload;
    assert frame[..9] == head;
    assert forall k :: 0 <= k < 9 ==> frame[k] == head[k];
    Be16Unique(frame[0], frame[1], tid);
    Be16Unique(frame[2], frame[3], 0);
    Be16Unique(frame[4], frame[5], 3 + |payload|);
    FieldsAccepted(frame, tid, unit, function_, |values|);
    var words := Decode(frame, tid, unit, function_, |values|).words;
    SameItems(function_, values, frame[9..]);
    assert words == values;
  }

  /** The decoder accepts a frame with result `values` exactly when the frame is the server's
      encoding of `values`, up to padding bits. */
  lemma DecodeExactness(frame: seq<byte>, tid: word, unit: byte, function_: byte, qty: word, values: seq<word>)
    requires ValidFunction(function_) && ValidQuantity(qty)
    ensures Decode(frame, tid, unit, function_, qty) == Decoded(Ok, 0, values) <==>
      && |values| == qty && Encodable(function_, values)
      && |frame| == 9 + ByteCountFor(function_, qty)
      && frame[..9] == EncodeResponse(tid, unit, function_, values)[..9]
      && SamePoints(function_, qty, frame[9..], Payload(function_, values))
  {
    var d := Decode(frame, tid, unit, function_, qty);
    if d == Decoded(Ok, 0, values) {
      forall k | 0 <= k < |values| && function_ <= 2 ensures values[k] <= 1 {
        assert d.words[k] == ItemAt(function_, frame[9..], k);
      }
      AcceptedFrameIsEncoding(frame, tid, unit, function_, values);
    }
    if && |values| == qty && Encodable(function_, values)
       && |frame| == 9 + ByteCountFor(function_, qty)
       && frame[..9] == EncodeResponse(tid, unit, function_, values)[..9]
       && SamePoints(function_, qty, frame[9..], Payload(function_, values)) {
      EncodingIsAccepted(frame, tid, unit, function_, values);
    }
  }

  /** An exception is reported exactly for the matching five-byte exception PDU. */
  lemma ExceptionExactness(frame: seq<byte>, tid: word, unit: byte, function_: byte, qty: word, code: byte)
    requires ValidFunction(function_) && ValidQuantity(qty)
    ensures Decode(frame, tid, unit, function_, qty) == Decoded(Exception, code, []) <==>
      code != 0 && frame == ExceptionFrame(tid, unit, function_, code)
  {
    var expected := ExceptionFrame(tid, unit, function_, code);
    assert expected == [tid / 256, tid % 256, 0, 0, 0, 3, unit, function_ + 0x80, code];
  }

  // ----- the verdicts, one by one -----

  /** What may be asked for: functions 1 to 4, at most 50 points, none past the last address. */
  lemma ArgumentsExactly(function_: byte, offset: word, qty: word)
    ensures RequestAccepted(function_, offset, qty) <==>
      function_ in {1, 2, 3, 4} && 1 <= qty <= 50 && offset + qty - 1 <= 65535
  {
  }

  /** A server reads a request out of the frame that was built for it, and out of no other. */
  lemma RequestFrameExactly(frame: seq<byte>, tid: word, unit: byte, function_: byte, offset: word, qty: word)
    ensures ParseRequest(frame) == Some((tid, unit, function_, offset, qty)) <==>
      frame == RequestFrame(tid, unit, function_, offset, qty)
  {
    RequestReachesServer(tid, unit, function_, offset, qty);
    if ParseRequest(frame) == Some((tid, unit, function_, offset, qty)) {
      assert frame == [frame[0], frame[1], frame[2], frame[3], frame[4], frame[5], frame[6], frame[7], frame[8],
                       frame[9], frame[10], frame[11]];
    }
  }

  /** The verdict on a frame of nine bytes or more, whose fields are these: the first thing that is wrong. */
  lemma VerdictExactly(transaction: word, protocol: word, remaining: word, from: byte, code: byte, count: byte,
                       payload: seq<byte>, tid: word, unit: byte, function_: byte, qty: word)
    requires 1 <= function_ <= 4 && 1 <= qty <= 50
    ensures var frame :=
        WriteBe16(transaction) + WriteBe16(protocol) + WriteBe16(remaining) + [from, code, count] + payload;
      var d, bytes := Decode(frame, tid, unit, function_, qty), if function_ <= 2 then (qty + 7) / 8 else 2 * qty;
      if |payload| > 100 then d.error == Length
      else if transaction != tid then d.error == Transaction
      else if protocol != 0 then d.error == Protocol
      else if from != unit then d.error == MbError.Unit
      else if remaining != 3 + |payload| then d.error == Length
      else if code == 128 + function_ then
        if payload != [] || count == 0 then d.error == Length else d.error == Exception && d.exceptionCode == count
      else if code != function_ then d.error == Function
      else if count != bytes then d.error == ByteCount
      else if |payload| != bytes then d.error == Length
      else d.error == Ok
  {
    hide ItemAt;
    var frame := WriteBe16(transaction) + WriteBe16(protocol) + WriteBe16(remaining) + [from, code, count] + payload;
    assert Be16(frame[0], frame[1]) == transaction && Be16(frame[2], frame[3]) == protocol;
    assert Be16(frame[4], frame[5]) == remaining && frame[6] == from && frame[7] == code && frame[8] == count;
    assert |frame| == 9 + |payload|;
  }

  /** A frame too short for that: the header is looked at if it is all there. Arguments come before everything. */
  lemma ShortVerdict(frame: seq<byte>, tid: word, unit: byte, function_: byte, qty: word)
    requires |frame| < 9
    ensures var error := Decode(frame, tid, unit, function_, qty).error;
      if !(1 <= function_ <= 4 && 1 <= qty <= 50) then error == Argument
      else if |frame| < 7 then error == Length
      else if Be16(frame[0], frame[1]) != tid then error == Transaction
      else if Be16(frame[2], frame[3]) != 0 then error == Protocol
      else if frame[6] != unit then error == MbError.Unit
      else error == Length
  {
    hide Be16, ItemAt, ByteCountFor;
  }
}
