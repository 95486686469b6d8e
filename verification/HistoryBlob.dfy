/**
 The flash image of the error history (main/error_history.c): the byte layout of the C structures,
 the checksum over it, and the validator that a boot runs before it trusts an image.
 */
module HistoryBlob {
  import opened Base
  import opened Crc32

  type Bytes = seq<bv8>

  const CAPACITY: nat := 32
  const MAGIC: nat := 0x4d424548
  const VERSION: nat := 1
  const HEADER_BYTES: nat := 40
  const EVENT_BYTES: nat := 128
  const BLOB_BYTES: nat := HEADER_BYTES + CAPACITY * EVENT_BYTES
  const CHECKSUM_AT: nat := 12
  const HOST_BYTES: nat := 16
  const PROFILE_BYTES: nat := 32
  const PHASE_BYTES: nat := 16

  // ----- the structures -----

  datatype Request = Request(host: Bytes, port: word, offset: word, quantity: word, tid: word,
                             unit: byte, function_: byte, revision: nat, profile: Bytes, phase: Bytes)

  /** `error` is the enumeration value of the transaction's outcome. */
  datatype Outcome = Outcome(error: int, exceptionCode: byte, elapsedMs: nat, systemError: int)

  datatype Event = Event(sequence: nat, uptimeMs: nat, utcMs: int, bootId: nat, request: Request, outcome: Outcome)

  datatype Blob = Blob(magic: nat, version: nat, size: nat, checksum: bv32, bootId: nat, count: nat, next: nat,
                       reserved: nat, total: nat, events: seq<Event>)

  // ----- little-endian fields -----

  function BitOr(isSet: bool, mask: bv8): bv8 { if isSet then mask else 0 }

  function Compose(b0: bool, b1: bool, b2: bool, b3: bool, b4: bool, b5: bool, b6: bool, b7: bool): bv8 {
    BitOr(b0, 1) | BitOr(b1, 2) | BitOr(b2, 4) | BitOr(b3, 8)
    | BitOr(b4, 16) | BitOr(b5, 32) | BitOr(b6, 64) | BitOr(b7, 128)
  }

  /** The byte with value `n`. */
  function Digit(n: nat): bv8
    requires n < 256
  {
    Compose(n % 2 == 1, n / 2 % 2 == 1, n / 4 % 2 == 1, n / 8 % 2 == 1,
            n / 16 % 2 == 1, n / 32 % 2 == 1, n / 64 % 2 == 1, n / 128 % 2 == 1)
  }

  predicate Has(b: bv8, mask: bv8) { b & mask != 0 }

  function Weight(b: bv8, mask: bv8, value: nat): nat { if Has(b, mask) then value else 0 }

  /** The value of the four bits with these masks. */
  function Nibble(b: bv8, m0: bv8, m1: bv8, m2: bv8, m3: bv8): (n: nat)
    ensures n < 16
  {
    Weight(b, m0, 1) + Weight(b, m1, 2) + Weight(b, m2, 4) + Weight(b, m3, 8)
  }

  /** The value of a byte. */
  function Value(b: bv8): (n: nat)
    ensures n < 256
  {
    Nibble(b, 1, 2, 4, 8) + 16 * Nibble(b, 16, 32, 64, 128)
  }

  lemma ComposedBits(b0: bool, b1: bool, b2: bool, b3: bool, b4: bool, b5: bool, b6: bool, b7: bool)
    ensures var b := Compose(b0, b1, b2, b3, b4, b5, b6, b7);
      && (Has(b, 1) <==> b0) && (Has(b, 2) <==> b1) && (Has(b, 4) <==> b2) && (Has(b, 8) <==> b3)
      && (Has(b, 16) <==> b4) && (Has(b, 32) <==> b5) && (Has(b, 64) <==> b6) && (Has(b, 128) <==> b7)
  {
  }

  lemma BinaryDigits(n: nat)
    requires n < 256
    ensures n == n % 2 + 2 * (n / 2 % 2) + 4 * (n / 4 % 2) + 8 * (n / 8 % 2)
               + 16 * (n / 16 % 2 + 2 * (n / 32 % 2) + 4 * (n / 64 % 2) + 8 * (n / 128 % 2))
  {
    assert n / 4 == n / 2 / 2 && n / 8 == n / 4 / 2 && n / 16 == n / 8 / 2;
    assert n / 32 == n / 16 / 2 && n / 64 == n / 32 / 2 && n / 128 == n / 64 / 2;
  }

  lemma NibbleOfBits(b: bv8, m0: bv8, m1: bv8, m2: bv8, m3: bv8, d0: nat, d1: nat, d2: nat, d3: nat)
    requires d0 <= 1 && d1 <= 1 && d2 <= 1 && d3 <= 1
    requires Has(b, m0) == (d0 == 1) && Has(b, m1) == (d1 == 1) && Has(b, m2) == (d2 == 1) && Has(b, m3) == (d3 == 1)
    ensures Nibble(b, m0, m1, m2, m3) == d0 + 2 * d1 + 4 * d2 + 8 * d3
  {
    hide Has;
  }

  lemma DigitValue(n: nat)
    requires n < 256
    ensures Value(Digit(n)) == n
  {
    hide Compose, Has, Nibble;
    var d0, d1, d2, d3 := n % 2, n / 2 % 2, n / 4 % 2, n / 8 % 2;
    var d4, d5, d6, d7 := n / 16 % 2, n / 32 % 2, n / 64 % 2, n / 128 % 2;
    ComposedBits(d0 == 1, d1 == 1, d2 == 1, d3 == 1, d4 == 1, d5 == 1, d6 == 1, d7 == 1);
    BinaryDigits(n);
    NibbleOfBits(Digit(n), 1, 2, 4, 8, d0, d1, d2, d3);
    NibbleOfBits(Digit(n), 16, 32, 64, 128, d4, d5, d6, d7);
  }

  function Range(k: nat): (r: nat)
    ensures r > 0
  {
    if k == 0 then 1 else 256 * Range(k - 1)
  }

  function Le(n: nat, k: nat): (bytes: Bytes)
    ensures |bytes| == k
    decreases k
  {
    if k == 0 then [] else [Digit(n % 256)] + Le(n / 256, k - 1)
  }

  function LeValue(bytes: Bytes): (n: nat)
  {
    if bytes == [] then 0 else Value(bytes[0]) + 256 * LeValue(bytes[1..])
  }

  lemma {:induction false} LeRoundTrip(n: nat, k: nat)
    requires n < Range(k)
    ensures LeValue(Le(n, k)) == n
    decreases k
  {
    if k != 0 {
      DigitValue(n % 256);
      assert Range(k) == 256 * Range(k - 1);
      assert n / 256 < Range(k - 1);
      LeRoundTrip(n / 256, k - 1);
      assert Le(n, k)[1..] == Le(n / 256, k - 1);
    }
  }

  predicate FitsSigned(n: int, k: nat) { 0 <= 2 * n + Range(k) && 2 * n < Range(k) }

  /** Two's complement in `k` bytes. */
  function Signed(n: int, k: nat): nat
    requires FitsSigned(n, k)
  {
    if n < 0 then n + Range(k) else n
  }

  function Unsigned(n: nat, k: nat): int { if 2 * n >= Range(k) then n - Range(k) else n }

  lemma Ranges()
    ensures Range(1) == 0x100 && Range(2) == 0x1_0000 && Range(4) == 0x1_0000_0000
    ensures Range(8) == 0x1_0000_0000_0000_0000
  {
    assert Range(3) == 0x100_0000;
    assert Range(5) == 0x100_0000_0000;
    assert Range(6) == 0x1_0000_0000_0000;
    assert Range(7) == 0x100_0000_0000_0000;
  }

  // ----- representable values -----

  predicate Fits(n: int, k: nat) { 0 <= n < Range(k) }

  predicate FitsRequest(r: Request) {
    && |r.host| == HOST_BYTES && |r.profile| == PROFILE_BYTES && |r.phase| == PHASE_BYTES
    && Fits(r.port, 2) && Fits(r.offset, 2) && Fits(r.quantity, 2) && Fits(r.tid, 2)
    && Fits(r.unit, 1) && Fits(r.function_, 1) && Fits(r.revision, 4)
  }

  predicate FitsOutcome(o: Outcome) {
    && FitsSigned(o.error, 4) && Fits(o.exceptionCode, 1)
    && Fits(o.elapsedMs, 4) && FitsSigned(o.systemError, 4)
  }

  predicate FitsEvent(e: Event) {
    && Fits(e.sequence, 8) && Fits(e.uptimeMs, 8) && FitsSigned(e.utcMs, 8)
    && Fits(e.bootId, 4) && FitsRequest(e.request) && FitsOutcome(e.outcome)
  }

  predicate FitsBlob(b: Blob) {
    && Fits(b.magic, 4) && Fits(b.version, 4) && Fits(b.size, 4)
    && Fits(b.bootId, 4) && Fits(b.count, 4) && Fits(b.next, 4) && Fits(b.reserved, 4) && Fits(b.total, 8)
    && |b.events| == CAPACITY && forall i :: 0 <= i < CAPACITY ==> FitsEvent(b.events[i])
  }

  // ----- layout -----

  /** `k` bytes at offset `at`. */
  function Slice(bytes: Bytes, at: nat, k: nat): (part: Bytes)
    requires at + k <= |bytes|
    ensures |part| == k
  {
    bytes[at..at + k]
  }

  /** The number in the `k` bytes at offset `at`. */
  function Field(bytes: Bytes, at: nat, k: nat): nat
    requires at + k <= |bytes|
  {
    LeValue(Slice(bytes, at, k))
  }

  function EncodeRequest(r: Request): (bytes: Bytes)
    requires FitsRequest(r)
    ensures |bytes| == 80
  {
    r.host + Le(r.port, 2) + Le(r.offset, 2) + Le(r.quantity, 2) + Le(r.tid, 2)
    + Le(r.unit, 1) + Le(r.function_, 1) + Le(0, 2) + Le(r.revision, 4) + r.profile + r.phase
  }

  function Word16(n: nat): word { n % 0x1_0000 }

  function Byte8(n: nat): byte { n % 0x100 }

  function DecodeRequest(b: Bytes): Request
    requires |b| == 80
  {
    Request(Slice(b, 0, 16),
            Word16(Field(b, 16, 2)), Word16(Field(b, 18, 2)), Word16(Field(b, 20, 2)), Word16(Field(b, 22, 2)),
            Byte8(Field(b, 24, 1)), Byte8(Field(b, 25, 1)), Field(b, 28, 4), Slice(b, 32, 32), Slice(b, 64, 16))
  }

  function EncodeOutcome(o: Outcome): (bytes: Bytes)
    requires FitsOutcome(o)
    ensures |bytes| == 16
  {
    Le(Signed(o.error, 4), 4) + Le(o.exceptionCode, 1) + Le(0, 3) + Le(o.elapsedMs, 4) + Le(Signed(o.systemError, 4), 4)
  }

  function DecodeOutcome(b: Bytes): Outcome
    requires |b| == 16
  {
    Outcome(Unsigned(Field(b, 0, 4), 4), Byte8(Field(b, 4, 1)), Field(b, 8, 4), Unsigned(Field(b, 12, 4), 4))
  }

  function EncodeEvent(e: Event): (bytes: Bytes)
    requires FitsEvent(e)
    ensures |bytes| == EVENT_BYTES
  {
    Le(e.sequence, 8) + Le(e.uptimeMs, 8) + Le(Signed(e.utcMs, 8), 8) + Le(e.bootId, 4)
    + EncodeRequest(e.request) + EncodeOutcome(e.outcome) + Le(0, 4)
  }

  function DecodeEvent(b: Bytes): Event
    requires |b| == EVENT_BYTES
  {
    Event(Field(b, 0, 8), Field(b, 8, 8), Unsigned(Field(b, 16, 8), 8), Field(b, 24, 4),
          DecodeRequest(Slice(b, 28, 80)), DecodeOutcome(Slice(b, 108, 16)))
  }

  function EncodeEvents(events: seq<Event>): (bytes: Bytes)
    requires forall i :: 0 <= i < |events| ==> FitsEvent(events[i])
    ensures |bytes| == EVENT_BYTES * |events|
  {
    if events == [] then [] else EncodeEvents(events[..|events| - 1]) + EncodeEvent(events[|events| - 1])
  }

  /** The checksum register in memory order. */
  function EncodeChecksum(crc: bv32): (bytes: Bytes)
    ensures |bytes| == 4
  {
    [(crc & 0xff) as bv8, ((crc >> 8) & 0xff) as bv8, ((crc >> 16) & 0xff) as bv8, ((crc >> 24) & 0xff) as bv8]
  }

  function Join(a: bv8, b: bv8, c: bv8, d: bv8): bv32 {
    (a as bv32) | ((b as bv32) << 8) | ((c as bv32) << 16) | ((d as bv32) << 24)
  }

  function DecodeChecksum(bytes: Bytes): bv32
    requires |bytes| == 4
  {
    Join(bytes[0], bytes[1], bytes[2], bytes[3])
  }

  function EncodeHeader(b: Blob): (bytes: Bytes)
    requires FitsBlob(b)
    ensures |bytes| == HEADER_BYTES
  {
    Le(b.magic, 4) + Le(b.version, 4) + Le(b.size, 4) + EncodeChecksum(b.checksum)
    + Le(b.bootId, 4) + Le(b.count, 4) + Le(b.next, 4) + Le(b.reserved, 4) + Le(b.total, 8)
  }

  /** The structure as the bytes that are written to flash; padding is zero. */
  function Encode(b: Blob): (bytes: Bytes)
    requires FitsBlob(b)
    ensures |bytes| == BLOB_BYTES
  {
    EncodeHeader(b) + EncodeEvents(b.events)
  }

  function EventAt(bytes: Bytes, i: nat): Event
    requires |bytes| == BLOB_BYTES && i < CAPACITY
  {
    DecodeEvent(Slice(bytes, HEADER_BYTES + EVENT_BYTES * i, EVENT_BYTES))
  }

  /** Any image read as the structure. */
  function Decode(bytes: Bytes): (b: Blob)
    requires |bytes| == BLOB_BYTES
  {
    Blob(Field(bytes, 0, 4), Field(bytes, 4, 4), Field(bytes, 8, 4), DecodeChecksum(Slice(bytes, CHECKSUM_AT, 4)),
         Field(bytes, 16, 4), Field(bytes, 20, 4), Field(bytes, 24, 4), Field(bytes, 28, 4), Field(bytes, 32, 8),
         seq(CAPACITY, i requires 0 <= i < CAPACITY => EventAt(bytes, i)))
  }

  // ----- what is written can be read -----

  /** Appending `y` puts it at the end and moves nothing that was there. */
  lemma Append(x: Bytes, y: Bytes)
    ensures Slice(x + y, |x|, |y|) == y
    ensures forall at, k {:trigger Slice(x + y, at, k)} ::
      0 <= at && 0 <= k && at + k <= |x| ==> Slice(x + y, at, k) == Slice(x, at, k)
  {
  }

  lemma AppendNumber(x: Bytes, n: nat, k: nat)
    requires n < Range(k)
    ensures Field(x + Le(n, k), |x|, k) == n
    ensures forall at, j {:trigger Slice(x + Le(n, k), at, j)} ::
      0 <= at && 0 <= j && at + j <= |x| ==> Slice(x + Le(n, k), at, j) == Slice(x, at, j)
  {
    Append(x, Le(n, k));
    LeRoundTrip(n, k);
  }

  lemma RequestRoundTrip(r: Request)
    requires FitsRequest(r)
    ensures DecodeRequest(EncodeRequest(r)) == r
  {
    hide Le, LeValue, Range, Slice;
    Ranges();
    Append([], r.host);
    assert [] + r.host == r.host;
    var x := r.host;
    AppendNumber(x, r.port, 2);
    x := x + Le(r.port, 2);
    AppendNumber(x, r.offset, 2);
    x := x + Le(r.offset, 2);
    AppendNumber(x, r.quantity, 2);
    x := x + Le(r.quantity, 2);
    AppendNumber(x, r.tid, 2);
    x := x + Le(r.tid, 2);
    AppendNumber(x, r.unit, 1);
    x := x + Le(r.unit, 1);
    AppendNumber(x, r.function_, 1);
    x := x + Le(r.function_, 1);
    AppendNumber(x, 0, 2);
    x := x + Le(0, 2);
    AppendNumber(x, r.revision, 4);
    x := x + Le(r.revision, 4);
    Append(x, r.profile);
    x := x + r.profile;
    Append(x, r.phase);
    assert x + r.phase == EncodeRequest(r);
  }

  lemma OutcomeRoundTrip(o: Outcome)
    requires FitsOutcome(o)
    ensures DecodeOutcome(EncodeOutcome(o)) == o
  {
    hide Le, LeValue, Range, Slice;
    Ranges();
    var error, systemError := Signed(o.error, 4), Signed(o.systemError, 4);
    AppendNumber([], error, 4);
    assert [] + Le(error, 4) == Le(error, 4);
    var x := Le(error, 4);
    AppendNumber(x, o.exceptionCode, 1);
    x := x + Le(o.exceptionCode, 1);
    AppendNumber(x, 0, 3);
    x := x + Le(0, 3);
    AppendNumber(x, o.elapsedMs, 4);
    x := x + Le(o.elapsedMs, 4);
    AppendNumber(x, systemError, 4);
    assert x + Le(systemError, 4) == EncodeOutcome(o);
  }

  lemma EventRoundTrip(e: Event)
    requires FitsEvent(e)
    ensures DecodeEvent(EncodeEvent(e)) == e
  {
    hide Le, LeValue, Range, Slice, EncodeRequest, DecodeRequest, EncodeOutcome, DecodeOutcome;
    hide FitsRequest, FitsOutcome;
    Ranges();
    var utc := Signed(e.utcMs, 8);
    AppendNumber([], e.sequence, 8);
    assert [] + Le(e.sequence, 8) == Le(e.sequence, 8);
    var x := Le(e.sequence, 8);
    AppendNumber(x, e.uptimeMs, 8);
    x := x + Le(e.uptimeMs, 8);
    AppendNumber(x, utc, 8);
    x := x + Le(utc, 8);
    AppendNumber(x, e.bootId, 4);
    x := x + Le(e.bootId, 4);
    Append(x, EncodeRequest(e.request));
    x := x + EncodeRequest(e.request);
    Append(x, EncodeOutcome(e.outcome));
    x := x + EncodeOutcome(e.outcome);
    Append(x, Le(0, 4));
    assert x + Le(0, 4) == EncodeEvent(e);
    RequestRoundTrip(e.request);
    OutcomeRoundTrip(e.outcome);
  }

  lemma {:induction false} EventsAt(events: seq<Event>, i: nat)
    requires i < |events| && forall k :: 0 <= k < |events| ==> FitsEvent(events[k])
    ensures Slice(EncodeEvents(events), EVENT_BYTES * i, EVENT_BYTES) == EncodeEvent(events[i])
  {
    hide EncodeEvent, FitsEvent, Slice;
    var last := |events| - 1;
    Append(EncodeEvents(events[..last]), EncodeEvent(events[last]));
    if i < last {
      EventsAt(events[..last], i);
      assert events[..last][i] == events[i];
    }
  }

  lemma ChecksumRoundTrip(crc: bv32)
    ensures DecodeChecksum(EncodeChecksum(crc)) == crc
  {
  }

  lemma ChecksumDigits(a: bv8, b: bv8, c: bv8, d: bv8, a': bv8, b': bv8, c': bv8, d': bv8)
    requires Join(a, b, c, d) == Join(a', b', c', d')
    ensures a == a' && b == b' && c == c' && d == d'
  {
  }

  /** Different register contents are stored as different bytes, and the other way round. */
  lemma ChecksumBytesDetermined(x: Bytes, y: Bytes)
    requires |x| == |y| == 4 && DecodeChecksum(x) == DecodeChecksum(y)
    ensures x == y
  {
    hide Join;
    ChecksumDigits(x[0], x[1], x[2], x[3], y[0], y[1], y[2], y[3]);
  }

  lemma HeaderRoundTrip(b: Blob)
    requires FitsBlob(b)
    ensures var h := EncodeHeader(b);
      && Field(h, 0, 4) == b.magic && Field(h, 4, 4) == b.version && Field(h, 8, 4) == b.size
      && DecodeChecksum(Slice(h, 12, 4)) == b.checksum && Field(h, 16, 4) == b.bootId && Field(h, 20, 4) == b.count
      && Field(h, 24, 4) == b.next && Field(h, 28, 4) == b.reserved && Field(h, 32, 8) == b.total
  {
    hide Le, LeValue, Range, Slice, FitsEvent, EncodeChecksum, DecodeChecksum;
    AppendNumber([], b.magic, 4);
    assert [] + Le(b.magic, 4) == Le(b.magic, 4);
    var x := Le(b.magic, 4);
    AppendNumber(x, b.version, 4);
    x := x + Le(b.version, 4);
    AppendNumber(x, b.size, 4);
    x := x + Le(b.size, 4);
    Append(x, EncodeChecksum(b.checksum));
    ChecksumRoundTrip(b.checksum);
    x := x + EncodeChecksum(b.checksum);
    AppendNumber(x, b.bootId, 4);
    x := x + Le(b.bootId, 4);
    AppendNumber(x, b.count, 4);
    x := x + Le(b.count, 4);
    AppendNumber(x, b.next, 4);
    x := x + Le(b.next, 4);
    AppendNumber(x, b.reserved, 4);
    x := x + Le(b.reserved, 4);
    AppendNumber(x, b.total, 8);
    assert x + Le(b.total, 8) == EncodeHeader(b);
  }

  lemma SliceOfSecond(x: Bytes, y: Bytes, at: nat, k: nat)
    requires at + k <= |y|
    ensures Slice(x + y, |x| + at, k) == Slice(y, at, k)
  {
  }

  /** Reading an image back gives the structure it was written from. */
  lemma BlobRoundTrip(b: Blob)
    requires FitsBlob(b)
    ensures Decode(Encode(b)) == b
  {
    hide EncodeHeader, EncodeEvents, EncodeEvent, DecodeEvent, LeValue, Slice, FitsEvent, Range, DecodeChecksum;
    var bytes, h, es := Encode(b), EncodeHeader(b), EncodeEvents(b.events);
    HeaderRoundTrip(b);
    Append(h, es);
    forall i | 0 <= i < CAPACITY ensures EventAt(bytes, i) == b.events[i] {
      EventsAt(b.events, i);
      SliceOfSecond(h, es, EVENT_BYTES * i, EVENT_BYTES);
      EventRoundTrip(b.events[i]);
    }
    assert Decode(bytes).events == b.events;
  }

  // ----- checksum -----

  /** The image with its checksum field cleared, as the checksum sees it. */
  function Cleared(bytes: Bytes): (c: Bytes)
    requires |bytes| == BLOB_BYTES
    ensures |c| == BLOB_BYTES
  {
    bytes[..CHECKSUM_AT] + [0, 0, 0, 0] + bytes[CHECKSUM_AT + 4..]
  }

  function Inverted(crc: bv32): bv32 { !crc }

  /** The checksum is CRC-32/ISO-HDLC: its check value, of "123456789", is 0xcbf43926. */
  lemma CheckValue()
    ensures Inverted(Crc(0xffff_ffff, [0x31, 0x32, 0x33, 0x34, 0x35, 0x36, 0x37, 0x38, 0x39])) == 0xcbf4_3926
  {
    NineDigits();
  }

  function Checksum(bytes: Bytes): bv32
    requires |bytes| == BLOB_BYTES
  {
    Inverted(Crc(0xffff_ffff, Cleared(bytes)))
  }

  /** `n` more bits. */
  function Shifts(crc: bv32, n: nat): bv32
    decreases n
  {
    if n == 0 then crc else Shifts(Shift(crc), n - 1)
  }

  lemma EightShifts(crc: bv32)
    ensures Shift8(crc) == Shifts(crc, 8)
  {
    hide Shift;
    var c1 := Shift(crc);
    var c2 := Shift(c1);
    var c3 := Shift(c2);
    var c4 := Shift(c3);
    assert Shifts(crc, 8) == Shifts(c1, 7) == Shifts(c2, 6) == Shifts(c3, 5) == Shifts(c4, 4);
    var c5 := Shift(c4);
    var c6 := Shift(c5);
    var c7 := Shift(c6);
    assert Shifts(c4, 4) == Shifts(c5, 3) == Shifts(c6, 2) == Shifts(c7, 1);
  }

  /** The bit loop of `blob_checksum`. */
  method FeedBits(crc: bv32, b: bv8) returns (next: bv32)
    ensures next == Feed(crc, b)
  {
    hide Shift, Xor;
    next := Xor(crc, Wide(b));
    ghost var start := next;
    EightShifts(start);
    for bit := 0 to 8
      invariant Shift8(start) == Shifts(next, 8 - bit)
    {
      next := Shift(next);
    }
  }

  /** `blob_checksum`. */
  method BlobChecksum(bytes: Bytes) returns (checksum: bv32)
    requires |bytes| == BLOB_BYTES
    ensures checksum == Checksum(bytes)
  {
    hide Feed, Shift8;
    var crc: bv32 := 0xffff_ffff;
    ghost var cleared := Cleared(bytes);
    assert cleared[0..] == cleared;
    for i := 0 to BLOB_BYTES
      invariant Crc(0xffff_ffff, cleared) == Crc(crc, cleared[i..])
    {
      var b := if CHECKSUM_AT <= i < CHECKSUM_AT + 4 then 0 else bytes[i];
      assert b == cleared[i];
      assert cleared[i..][0] == cleared[i] && cleared[i..][1..] == cleared[i + 1..];
      crc := FeedBits(crc, b);
    }
    return Inverted(crc);
  }

  // ----- the validator -----

  /** The event `age` places before the newest. */
  function Newest(b: Blob, age: nat): Event
    requires |b.events| == CAPACITY && age < CAPACITY
  {
    b.events[(b.next + CAPACITY - 1 - age) % CAPACITY]
  }

  predicate Ends0(text: Bytes) { text != [] && text[|text| - 1] == 0 }

  /** What the validator demands of the event `age` places back. */
  predicate ValidEvent(b: Blob, age: nat)
    requires |b.events| == CAPACITY && age < CAPACITY
  {
    var e := Newest(b, age);
    && e.sequence == b.total - age && e.bootId != 0 && e.bootId <= b.bootId && e.utcMs >= 0
    && Ends0(e.request.host) && Ends0(e.request.profile) && Ends0(e.request.phase)
    && 1 <= e.outcome.error <= 12
  }

  predicate ValidHeader(b: Blob) {
    && b.magic == MAGIC && b.version == VERSION && b.size == BLOB_BYTES
    && b.count <= CAPACITY && b.next < CAPACITY && b.total >= b.count
    && b.count == (if b.total < CAPACITY then b.total else CAPACITY)
    && b.next == b.total % CAPACITY
  }

  /** `valid_blob`, on the bytes as they were read. */
  predicate ValidImage(bytes: Bytes) {
    && |bytes| == BLOB_BYTES
    && var b := Decode(bytes);
       && b.checksum == Checksum(bytes) && ValidHeader(b)
       && forall age :: 0 <= age < b.count ==> ValidEvent(b, age)
  }

  method IsValidImage(bytes: Bytes) returns (ok: bool)
    requires |bytes| == BLOB_BYTES
    ensures ok <==> ValidImage(bytes)
  {
    hide Checksum, ValidEvent, EventAt, Field, DecodeChecksum;
    var b := Decode(bytes);
    var checksum := BlobChecksum(bytes);
    if !ValidHeader(b) || b.checksum != checksum {
      return false;
    }
    for age := 0 to b.count
      invariant forall a :: 0 <= a < age ==> ValidEvent(b, a)
    {
      if !ValidEvent(b, age) {
        return false;
      }
    }
    return true;
  }

  // ----- corruption is detected -----

  lemma NotInjective(a: bv32, b: bv32)
    requires Inverted(a) == Inverted(b)
    ensures a == b
  {
  }

  /** Clearing the checksum field and replacing bytes outside it are independent. */
  lemma ClearedSplice(bytes: Bytes, i: nat, w: Bytes)
    requires |bytes| == BLOB_BYTES && |w| == 4 && i + 4 <= BLOB_BYTES
    requires i + 4 <= CHECKSUM_AT || i >= CHECKSUM_AT + 4
    ensures Cleared(Splice(bytes, i, w)) == Splice(Cleared(bytes), i, w)
  {
  }

  lemma OwnSplice(bytes: Bytes, i: nat)
    requires i + 4 <= |bytes|
    ensures Splice(bytes, i, bytes[i..i + 4]) == bytes
  {
  }

  /** Replacing four adjacent bytes outside the checksum field changes the checksum. */
  lemma ChecksumOfChange(bytes: Bytes, i: nat, w: Bytes)
    requires |bytes| == BLOB_BYTES && |w| == 4 && i + 4 <= BLOB_BYTES
    requires i + 4 <= CHECKSUM_AT || i >= CHECKSUM_AT + 4
    requires Checksum(Splice(bytes, i, w)) == Checksum(bytes)
    ensures w == bytes[i..i + 4]
  {
    hide Crc, Cleared, Inverted;
    var c := Cleared(bytes);
    ClearedSplice(bytes, i, w);
    OwnSplice(bytes, i);
    ClearedSplice(bytes, i, bytes[i..i + 4]);
    NotInjective(Crc(0xffff_ffff, Splice(c, i, w)), Crc(0xffff_ffff, Splice(c, i, bytes[i..i + 4])));
    WordChangeDetected(0xffff_ffff, c[..i], w, bytes[i..i + 4], c[i + 4..]);
  }

  lemma SameBits(a: bv8, b: bv8)
    requires Has(a, 1) == Has(b, 1) && Has(a, 2) == Has(b, 2) && Has(a, 4) == Has(b, 4) && Has(a, 8) == Has(b, 8)
    requires Has(a, 16) == Has(b, 16) && Has(a, 32) == Has(b, 32)
    requires Has(a, 64) == Has(b, 64) && Has(a, 128) == Has(b, 128)
    ensures a == b
  {
  }

  lemma NibbleInjective(a: bv8, b: bv8, m0: bv8, m1: bv8, m2: bv8, m3: bv8)
    requires Nibble(a, m0, m1, m2, m3) == Nibble(b, m0, m1, m2, m3)
    ensures Has(a, m0) == Has(b, m0) && Has(a, m1) == Has(b, m1) && Has(a, m2) == Has(b, m2) && Has(a, m3) == Has(b, m3)
  {
    hide Has;
  }

  lemma ValueInjective(a: bv8, b: bv8)
    requires Value(a) == Value(b)
    ensures a == b
  {
    hide Has, Nibble;
    NibbleInjective(a, b, 1, 2, 4, 8);
    NibbleInjective(a, b, 16, 32, 64, 128);
    SameBits(a, b);
  }

  lemma LowByte(d: nat, m: nat, e: nat, n: nat)
    requires d < 256 && e < 256 && d + 256 * m == e + 256 * n
    ensures d == e && m == n
  {
  }

  /** A little-endian number determines its bytes. */
  lemma {:induction false} LeValueInjective(x: Bytes, y: Bytes)
    requires |x| == |y| && LeValue(x) == LeValue(y)
    ensures x == y
    decreases |x|
  {
    hide Value;
    if x != [] {
      LowByte(Value(x[0]), LeValue(x[1..]), Value(y[0]), LeValue(y[1..]));
      ValueInjective(x[0], y[0]);
      LeValueInjective(x[1..], y[1..]);
      assert x == [x[0]] + x[1..] && y == [y[0]] + y[1..];
    }
  }

  /** A change within the checksum field alone. */
  lemma OtherChecksumDetected(bytes: Bytes, changed: Bytes)
    requires ValidImage(bytes) && |changed| == BLOB_BYTES && changed != bytes
    requires changed[..CHECKSUM_AT] == bytes[..CHECKSUM_AT] && changed[CHECKSUM_AT + 4..] == bytes[CHECKSUM_AT + 4..]
    ensures !ValidImage(changed)
  {
    hide Crc, Field, DecodeChecksum, EventAt, ValidEvent, ValidHeader;
    assert Cleared(changed) == Cleared(bytes);
    var x, y := Slice(changed, CHECKSUM_AT, 4), Slice(bytes, CHECKSUM_AT, 4);
    assert changed == changed[..CHECKSUM_AT] + x + changed[CHECKSUM_AT + 4..];
    assert bytes == bytes[..CHECKSUM_AT] + y + bytes[CHECKSUM_AT + 4..];
    if DecodeChecksum(x) == DecodeChecksum(y) {
      ChecksumBytesDetermined(x, y);
    }
  }

  /** The size field, which stands just before the checksum, has only one valid content. */
  lemma OtherSizeDetected(bytes: Bytes, changed: Bytes)
    requires ValidImage(bytes) && |changed| == BLOB_BYTES
    requires Slice(changed, 8, 4) != Slice(bytes, 8, 4)
    ensures !ValidImage(changed)
  {
    hide Checksum, DecodeChecksum, EventAt, ValidEvent, LeValue, Slice;
    if ValidImage(changed) {
      assert Field(changed, 8, 4) == BLOB_BYTES == Field(bytes, 8, 4);
      LeValueInjective(Slice(changed, 8, 4), Slice(bytes, 8, 4));
    }
  }

  lemma SameUpToChecksum(bytes: Bytes, changed: Bytes, i: nat)
    requires |bytes| == |changed| == BLOB_BYTES && CHECKSUM_AT - 4 < i <= CHECKSUM_AT
    requires changed[..i] == bytes[..i] && changed[i + 4..] == bytes[i + 4..]
    requires Slice(changed, 8, 4) == Slice(bytes, 8, 4)
    ensures changed[..CHECKSUM_AT] == bytes[..CHECKSUM_AT]
    ensures changed[CHECKSUM_AT + 4..] == bytes[CHECKSUM_AT + 4..]
  {
    forall k | 0 <= k < CHECKSUM_AT ensures changed[k] == bytes[k] {
      if k < i {
        assert changed[k] == changed[..i][k] && bytes[k] == bytes[..i][k];
      } else {
        assert changed[k] == Slice(changed, 8, 4)[k - 8] && bytes[k] == Slice(bytes, 8, 4)[k - 8];
      }
    }
    forall k | CHECKSUM_AT + 4 <= k < BLOB_BYTES ensures changed[k] == bytes[k] {
      assert changed[k] == changed[i + 4..][k - i - 4] && bytes[k] == bytes[i + 4..][k - i - 4];
    }
  }

  /** Corruption detection: a valid image stays valid under no change of four adjacent bytes, as long
      as they do not run over the end of the checksum field. */
  lemma WordCorruptionDetected(bytes: Bytes, i: nat, w: Bytes)
    requires ValidImage(bytes) && |w| == 4 && i + 4 <= BLOB_BYTES && w != bytes[i..i + 4]
    requires i <= CHECKSUM_AT || i >= CHECKSUM_AT + 4
    ensures !ValidImage(Splice(bytes, i, w))
  {
    hide Crc, Field, DecodeChecksum, EventAt, ValidEvent, ValidHeader;
    var changed := Splice(bytes, i, w);
    assert changed[i..i + 4] == w;
    if CHECKSUM_AT - 4 < i <= CHECKSUM_AT {
      if Slice(changed, 8, 4) == Slice(bytes, 8, 4) {
        SameUpToChecksum(bytes, changed, i);
        OtherChecksumDetected(bytes, changed);
      } else {
        OtherSizeDetected(bytes, changed);
      }
    } else {
      assert Slice(changed, CHECKSUM_AT, 4) == Slice(bytes, CHECKSUM_AT, 4);
      if Checksum(changed) == Checksum(bytes) {
        ChecksumOfChange(bytes, i, w);
      }
    }
  }

  lemma ByteIsSplice(bytes: Bytes, i: nat, b: bv8, at: nat)
    requires at <= i < at + 4 <= |bytes|
    ensures bytes[i := b] == Splice(bytes, at, bytes[i := b][at..at + 4])
  {
  }

  /** Changing any single byte of a valid image makes it invalid. */
  lemma ByteCorruptionDetected(bytes: Bytes, i: nat, b: bv8)
    requires ValidImage(bytes) && i < BLOB_BYTES && b != bytes[i]
    ensures !ValidImage(bytes[i := b])
  {
    hide Decode, Checksum, ValidHeader, ValidEvent;
    // a window of four bytes around i that does not straddle the checksum field
    assert |bytes| == BLOB_BYTES;
    var at: nat := if i < CHECKSUM_AT then Min(i, CHECKSUM_AT - 4)
              else if i < CHECKSUM_AT + 4 then CHECKSUM_AT else Min(i, BLOB_BYTES - 4);
    var w := bytes[i := b][at..at + 4];
    assert w[i - at] == b && bytes[at..at + 4][i - at] == bytes[i];
    ByteIsSplice(bytes, i, b, at);
    WordCorruptionDetected(bytes, at, w);
  }

  // ----- the structures of the C program -----

  /** The number in bytes `from` to `to` of an image, as a little-endian processor reads it. */
  function Number(bytes: Bytes, from: nat, to: nat): nat
    requires from <= to <= |bytes|
  {
    LeValue(bytes[from..to])
  }

  /** A number of `k` bytes as a signed one. */
  function Negated(n: nat, k: nat): int { if n >= Range(k) / 2 then n - Range(k) else n }

  /** Where each field of the 4136-byte structure lies. */
  lemma ImageLayout(bytes: Bytes)
    requires |bytes| == 4136
    ensures var b := Decode(bytes);
      && b.magic == Number(bytes, 0, 4) && b.version == Number(bytes, 4, 8) && b.size == Number(bytes, 8, 12)
      && b.checksum == Join(bytes[12], bytes[13], bytes[14], bytes[15]) && b.bootId == Number(bytes, 16, 20)
      && b.count == Number(bytes, 20, 24) && b.next == Number(bytes, 24, 28) && b.reserved == Number(bytes, 28, 32)
      && b.total == Number(bytes, 32, 40) && |b.events| == 32
  {
  }

  lemma ShortNumbers(b: Bytes, at: nat)
    requires at < |b|
    ensures Number(b, at, at + 1) < 0x100
    ensures at + 2 <= |b| ==> Number(b, at, at + 2) < 0x1_0000
  {
    assert LeValue([]) == 0;
    assert b[at..at + 1][1..] == [];
    if at + 2 <= |b| {
      assert b[at..at + 2][1..] == [b[at + 1]] && [b[at + 1]][1..] == [];
      assert LeValue([b[at + 1]]) == Value(b[at + 1]);
    }
  }

  /** The request of an event, 80 bytes. */
  lemma RequestLayout(b: Bytes)
    requires |b| == 80
    ensures var r := DecodeRequest(b);
      && r.host == b[0..16] && r.port == Number(b, 16, 18) && r.offset == Number(b, 18, 20)
      && r.quantity == Number(b, 20, 22) && r.tid == Number(b, 22, 24) && r.unit == Number(b, 24, 25)
      && r.function_ == Number(b, 25, 26) && r.revision == Number(b, 28, 32)
      && r.profile == b[32..64] && r.phase == b[64..80]
  {
    hide LeValue, Value;
    ShortNumbers(b, 16);
    ShortNumbers(b, 18);
    ShortNumbers(b, 20);
    ShortNumbers(b, 22);
    ShortNumbers(b, 24);
    ShortNumbers(b, 25);
  }

  /** Its outcome, 16 bytes. */
  lemma OutcomeLayout(b: Bytes)
    requires |b| == 16
    ensures var o := DecodeOutcome(b);
      && o.error == Negated(Number(b, 0, 4), 4) && o.exceptionCode == Number(b, 4, 5)
      && o.elapsedMs == Number(b, 8, 12) && o.systemError == Negated(Number(b, 12, 16), 4)
  {
    Ranges();
    hide LeValue, Value, Range;
    ShortNumbers(b, 4);
  }

  /** And event `i`, 128 bytes. */
  lemma EventLayout(bytes: Bytes, i: nat)
    requires |bytes| == 4136 && i < 32
    ensures var at := 40 + 128 * i;
      var e, b := Decode(bytes).events[i], bytes[at..at + 128];
      && e.sequence == Number(b, 0, 8) && e.uptimeMs == Number(b, 8, 16)
      && e.utcMs == Negated(Number(b, 16, 24), 8) && e.bootId == Number(b, 24, 28)
      && e.request == DecodeRequest(b[28..108]) && e.outcome == DecodeOutcome(b[108..124])
  {
    Ranges();
    hide LeValue, Range, DecodeRequest, DecodeOutcome;
  }

  /** What `valid_blob` asks of the event `age` places back. */
  predicate EventRules(b: Blob, age: nat)
    requires |b.events| == 32 && b.next < 32 && age < 32
  {
    var e := b.events[if age < b.next then b.next - 1 - age else b.next + 31 - age];
    && e.sequence == b.total - age && 1 <= e.bootId <= b.bootId && e.utcMs >= 0
    && (|e.request.host| > 0 && e.request.host[|e.request.host| - 1] == 0)
    && (|e.request.profile| > 0 && e.request.profile[|e.request.profile| - 1] == 0)
    && (|e.request.phase| > 0 && e.request.phase[|e.request.phase| - 1] == 0)
    && 1 <= e.outcome.error <= 12
  }

  lemma EventRulesExactly(b: Blob, age: nat)
    requires |b.events| == 32 && b.next < 32 && age < 32
    ensures ValidEvent(b, age) <==> EventRules(b, age)
  {
    assert (b.next + CAPACITY - 1 - age) % CAPACITY == if age < b.next then b.next - 1 - age else b.next + 31 - age;
  }

  /** And of the whole image. */
  lemma ImageRules(bytes: Bytes)
    ensures ValidImage(bytes) <==>
      && |bytes| == 4136
      && var b := Decode(bytes);
         && b.magic == 0x4d424548 && b.version == 1 && b.size == 4136
         && b.checksum == Inverted(Crc(0xffff_ffff, bytes[..12] + [0, 0, 0, 0] + bytes[16..]))
         && b.count == Min(b.total, 32) && b.next == b.total % 32
         && forall age :: 0 <= age < b.count ==> EventRules(b, age)
  {
    if |bytes| == 4136 {
      var b := Decode(bytes);
      hide Decode, Crc, ValidEvent, EventRules;
      if b.next < 32 {
        forall age | 0 <= age < 32 ensures ValidEvent(b, age) <==> EventRules(b, age) {
          EventRulesExactly(b, age);
        }
      }
    }
  }
}
