/**
 The in-memory error history of main/error_history.c: a ring of the last 32 failures, the lock
 sections of its background flush, and the start-up that reloads it.
 */
module ErrorHistory {
  import opened Base
  import opened HistoryBlob

  const FLUSH_INTERVAL_MS: nat := 30000

  // ----- values -----

  /** `history_runtime_t`, apart from the handle and the error text. */
  datatype Ram = Ram(locked: bool, writable: bool, attempted: bool, lastAttempt: nat,
                     generation: nat, saved: nat, blob: Blob)

  function Zeros(n: nat): (z: Bytes)
    ensures |z| == n && forall i :: 0 <= i < n ==> z[i] == 0
  {
    seq(n, i => 0)
  }

  function BlankEvent(): Event {
    Event(0, 0, 0, 0, Request(Zeros(HOST_BYTES), 0, 0, 0, 0, 0, 0, 0, Zeros(PROFILE_BYTES), Zeros(PHASE_BYTES)),
          Outcome(0, 0, 0, 0))
  }

  function BlankBlob(): Blob {
    Blob(MAGIC, VERSION, BLOB_BYTES, 0, 0, 0, 0, 0, 0, seq(CAPACITY, i => BlankEvent()))
  }

  /** Zeroed static storage. */
  function PoweredOff(): Ram {
    Ram(false, false, false, 0, 0, 0, BlankBlob().(magic := 0, version := 0, size := 0))
  }

  /** Length of a C string in a buffer, at most `limit`. */
  function TextLength(source: Bytes, limit: nat): (n: nat)
    requires limit <= |source|
    ensures n <= limit && (n < limit ==> source[n] == 0) && forall i :: 0 <= i < n ==> source[i] != 0
  {
    if limit == 0 then 0
    else
      var n := TextLength(source, limit - 1);
      if n < limit - 1 || source[n] == 0 then n else limit
  }

  /** A text as it is stored: cut to leave room for the NUL, zero after it. */
  function StoredText(source: Bytes): (text: Bytes)
    requires source != []
    ensures |text| == |source| && Ends0(text)
  {
    var n := TextLength(source, |source| - 1);
    source[..n] + Zeros(|source| - n)
  }

  /** `copy_text` into a zeroed buffer of the size of the source buffer. */
  method CopyText(source: Bytes) returns (text: Bytes)
    requires source != []
    ensures text == StoredText(source)
  {
    var destination := new bv8[|source|](i => 0);
    var i := 0;
    while i + 1 < |source| && source[i] != 0
      invariant 0 <= i < |source|
      invariant forall k :: 0 <= k < i ==> source[k] != 0
      invariant destination[..] == source[..i] + Zeros(|source| - i)
    {
      destination[i] := source[i];
      i := i + 1;
      assert destination[..] == source[..i] + Zeros(|source| - i);
    }
    destination[i] := 0;
    assert TextLength(source, |source| - 1) == i;
    assert destination[..] == source[..i] + Zeros(|source| - i);
    return destination[..];
  }

  // ----- recording -----

  predicate Recordable(ram: Ram, outcome: Outcome) {
    1 <= outcome.error <= 12 && ram.locked
  }

  function NewEvent(b: Blob, request: Request, outcome: Outcome, uptimeMs: nat, utcMs: int): Event
    requires FitsRequest(request)
  {
    Event(b.total + 1, uptimeMs, Max(utcMs, 0), b.bootId,
          request.(host := StoredText(request.host), profile := StoredText(request.profile),
                   phase := StoredText(request.phase)),
          outcome)
  }

  function Pushed(b: Blob, e: Event): Blob
    requires |b.events| == CAPACITY && b.next < CAPACITY
  {
    b.(events := b.events[b.next := e], total := b.total + 1,
       next := (b.next + 1) % CAPACITY, count := if b.count < CAPACITY then b.count + 1 else b.count)
  }

  /** `error_history_record`. */
  function Recorded(ram: Ram, request: Request, outcome: Outcome, uptimeMs: nat, utcMs: int): Ram
    requires |ram.blob.events| == CAPACITY && ram.blob.next < CAPACITY && FitsRequest(request)
  {
    if !Recordable(ram, outcome) then ram
    else ram.(blob := Pushed(ram.blob, NewEvent(ram.blob, request, outcome, uptimeMs, utcMs)),
              generation := ram.generation + 1)
  }

  // ----- flushing: three sections under the lock -----

  predicate MayFlush(ram: Ram, now: nat)
    requires ram.attempted ==> ram.lastAttempt <= now
  {
    && ram.writable && ram.saved != ram.generation
    && !(ram.attempted && now - ram.lastAttempt < FLUSH_INTERVAL_MS)
  }

  /** First section: decide, and remember the attempt. */
  function FlushBegun(ram: Ram, now: nat): Ram
    requires ram.attempted ==> ram.lastAttempt <= now
  {
    if MayFlush(ram, now) then ram.(attempted := true, lastAttempt := now) else ram
  }

  /** A snapshot with its checksum filled in. */
  function Sealed(b: Blob): (sealed: Blob)
    requires FitsBlob(b)
    ensures FitsBlob(sealed)
  {
    b.(checksum := Checksum(Encode(b)))
  }

  /** The bytes a flush writes. */
  function Image(b: Blob): (bytes: Bytes)
    requires FitsBlob(b)
    ensures |bytes| == BLOB_BYTES
  {
    Encode(Sealed(b))
  }

  /** Last section: what was written counts as saved. */
  function FlushEnded(ram: Ram, ok: bool, generation: nat): Ram {
    if ok then ram.(saved := generation) else ram
  }

  // ----- start-up -----

  /** What start-up meets apart from the stored image. */
  datatype Start = Start(mutexFails: bool, openFails: bool, sizeFails: bool, allocationFails: bool, readFails: bool,
                         taskFails: bool)

  predicate Loadable(flash: Option<Bytes>) { flash.Some? && ValidImage(flash.value) }

  /** The stored image is taken over. */
  predicate Loads(flash: Option<Bytes>, start: Start) {
    && !start.mutexFails && !start.openFails && !start.sizeFails && Loadable(flash)
    && !start.allocationFails && !start.readFails
  }

  /** The store may be written: it was seen to be empty, or its image was taken over. */
  predicate MayWrite(flash: Option<Bytes>, start: Start) {
    && !start.mutexFails && !start.openFails && !start.sizeFails
    && (flash.Some? ==> Loads(flash, start))
  }

  /** After the stored image has been looked at. */
  function Opened(flash: Option<Bytes>, start: Start): Ram {
    Ram(true, MayWrite(flash, start), false, 0, 0, 0, if Loads(flash, start) then Decode(flash.value) else BlankBlob())
  }

  /** Counting the boot, and starting the flush worker. */
  function Started(ram: Ram, taskFails: bool): Ram {
    var exhausted := ram.blob.bootId == U32_MAX;
    ram.(writable := ram.writable && !exhausted && !taskFails, generation := ram.generation + 1,
         blob := if exhausted then ram.blob else ram.blob.(bootId := ram.blob.bootId + 1))
  }

  /** `error_history_init`, from zeroed static storage. */
  function Initialized(flash: Option<Bytes>, start: Start): (ram: Ram)
    ensures |ram.blob.events| == CAPACITY
  {
    if start.mutexFails then Ram(false, false, false, 0, 0, 0, BlankBlob())
    else Started(Opened(flash, start), start.taskFails)
  }

  // ----- what start-up and a flush come to -----

  /** An empty ring. */
  lemma BlankExactly()
    ensures var b := BlankBlob();
      && b.magic == 0x4d424548 && b.version == 1 && b.size == 4136 && b.checksum == 0
      && b.bootId == b.count == b.next == b.reserved == b.total == 0 && |b.events| == 32
      && forall i :: 0 <= i < 32 ==>
           var e := b.events[i];
           && e.sequence == e.uptimeMs == e.bootId == 0 && e.utcMs == 0 && e.outcome == Outcome(0, 0, 0, 0)
           && (forall k :: 0 <= k < |e.request.host| ==> e.request.host[k] == 0)
           && (forall k :: 0 <= k < |e.request.profile| ==> e.request.profile[k] == 0)
           && (forall k :: 0 <= k < |e.request.phase| ==> e.request.phase[k] == 0)
           && e.request.port == e.request.offset == e.request.quantity == e.request.tid == 0
           && e.request.unit == e.request.function_ == 0 && e.request.revision == 0
  {
  }

  /** After start-up. Without the lock there is nothing. With it the ring is the stored one if start-up could read
      an acceptable image, and else empty; this boot has the next number, and has to be saved. The store may be
      written exactly if it was seen to be empty or its image was taken over, boots can still be counted and the
      worker runs. */
  lemma StartExactly(flash: Option<Bytes>, start: Start)
    ensures var ram := Initialized(flash, start);
      var taken := flash.Some? && ValidImage(flash.value) && !start.openFails && !start.sizeFails
                   && !start.allocationFails && !start.readFails;
      var before := if taken then Decode(flash.value) else BlankBlob();
      && !ram.attempted && ram.lastAttempt == 0 && ram.saved == 0
      && if start.mutexFails then !ram.locked && !ram.writable && ram.generation == 0 && ram.blob == BlankBlob()
         else
           && ram.locked && ram.generation == 1
           && ram.blob == before.(bootId := if before.bootId != 0xffff_ffff then before.bootId + 1 else before.bootId)
           && (ram.writable <==>
                 && !start.openFails && !start.sizeFails && (flash.None? || taken)
                 && before.bootId != 0xffff_ffff && !start.taskFails)
  {
    hide ValidImage, Decode;
  }

  /** A flush begins when the store may be written, something is unsaved, and the last attempt was 30 s ago. */
  lemma FlushExactly(ram: Ram, now: nat)
    requires ram.attempted ==> ram.lastAttempt <= now
    ensures MayFlush(ram, now) <==>
      ram.writable && ram.saved != ram.generation && (ram.attempted ==> now >= ram.lastAttempt + 30000)
    ensures FlushBegun(ram, now) == if MayFlush(ram, now) then ram.(attempted := true, lastAttempt := now) else ram
  {
  }

  lemma ValidShape(image: Bytes)
    ensures ValidImage(image) ==>
      |image| == BLOB_BYTES && Decode(image).next < CAPACITY && |Decode(image).events| == CAPACITY
  {
    hide EventAt, Field, DecodeChecksum, ValidEvent, Checksum;
  }

  // ----- the code -----

  class History {
    const events: array<Event>
    var initialized: bool
    var locked: bool
    var writable: bool
    var attempted: bool
    var lastAttempt: nat
    var generation: nat
    var saved: nat
    var magic: nat
    var version: nat
    var size: nat
    var checksum: bv32
    var bootId: nat
    var count: nat
    var next: nat
    var reserved: nat
    var total: nat

    ghost predicate Valid()
      reads this, events
    {
      events.Length == CAPACITY && next < CAPACITY
    }

    /** `history.blob` as it is copied into a snapshot. */
    function Contents(): Blob
      reads this, events
    {
      Blob(magic, version, size, checksum, bootId, count, next, reserved, total, events[..])
    }

    ghost function View(): Ram
      reads this, events
    {
      Ram(locked, writable, attempted, lastAttempt, generation, saved, Contents())
    }

    /** Zeroed static storage. */
    constructor ()
      ensures Valid() && fresh(events) && !initialized && View() == PoweredOff()
    {
      events := new Event[CAPACITY](i => BlankEvent());
      initialized, locked, writable, attempted, lastAttempt := false, false, false, false, 0;
      generation, saved := 0, 0;
      magic, version, size, checksum, bootId, count, next, reserved, total := 0, 0, 0, 0, 0, 0, 0, 0, 0;
      new;
      assert events[..] == BlankBlob().events;
    }

    /** `error_history_init`: only the first call does anything. */
    method Init(flash: Option<Bytes>, start: Start)
      requires Valid() && (!initialized ==> View() == PoweredOff())
      modifies this, events
      ensures Valid() && initialized
      ensures View() == if old(initialized) then old(View()) else Initialized(flash, start)
    {
      hide Opened, Started;
      if initialized {
        return;
      }
      initialized, magic, version, size := true, MAGIC, VERSION, BLOB_BYTES;
      if start.mutexFails {
        return;
      }
      locked := true;
      Open(flash, start);
      StartWorker(start.taskFails);
    }

    /** The end of `error_history_init`. */
    method StartWorker(taskFails: bool)
      modifies this`bootId, this`writable, this`generation
      ensures View() == Started(old(View()), taskFails)
    {
      if bootId == U32_MAX {
        writable := false;
      } else {
        bootId := bootId + 1;
      }
      generation := generation + 1;
      if writable && taskFails {
        writable := false;
      }
    }

    /** Opening the store and taking over what it holds. */
    method Open(flash: Option<Bytes>, start: Start)
      requires Valid() && !start.mutexFails && View() == Ram(true, false, false, 0, 0, 0, BlankBlob())
      modifies events, this`writable, this`magic, this`version, this`size, this`checksum, this`bootId, this`count,
               this`next, this`reserved, this`total
      ensures Valid() && View() == Opened(flash, start)
    {
      hide ValidImage, Decode, ValidHeader;
      if !start.openFails && !start.sizeFails {
        if flash.None? {
          writable := true;
        } else {
          ValidShape(flash.value);
          if |flash.value| == BLOB_BYTES && !start.allocationFails && !start.readFails {
            var ok := IsValidImage(flash.value);
            if ok {
              Load(Decode(flash.value));
              writable := true;
            }
          }
        }
      }
    }

    /** `history.blob = *stored`. */
    method Load(b: Blob)
      requires Valid() && |b.events| == CAPACITY && b.next < CAPACITY
      modifies events, this`magic, this`version, this`size, this`checksum, this`bootId, this`count, this`next,
               this`reserved, this`total
      ensures Valid() && Contents() == b
    {
      forall i | 0 <= i < CAPACITY {
        events[i] := b.events[i];
      }
      magic, version, size, checksum, bootId := b.magic, b.version, b.size, b.checksum, b.bootId;
      count, next, reserved, total := b.count, b.next, b.reserved, b.total;
      assert events[..] == b.events;
    }

    /** `error_history_record`, under the lock. */
    method Record(request: Request, outcome: Outcome, uptimeMs: nat, utcMs: int)
      requires Valid() && FitsRequest(request)
      modifies events, this`total, this`next, this`count, this`generation
      ensures Valid() && View() == Recorded(old(View()), request, outcome, uptimeMs, utcMs)
    {
      hide StoredText, Pushed;
      if outcome.error <= 0 || outcome.error > 12 || !locked {
        return;
      }
      var host := CopyText(request.host);
      var profile := CopyText(request.profile);
      var phase := CopyText(request.phase);
      Store(Event(total + 1, uptimeMs, if utcMs > 0 then utcMs else 0, bootId,
                  request.(host := host, profile := profile, phase := phase), outcome));
      generation := generation + 1;
    }

    /** The event goes over the oldest one. */
    method Store(e: Event)
      requires Valid()
      modifies events, this`total, this`next, this`count
      ensures Valid() && Contents() == Pushed(old(Contents()), e)
    {
      total := total + 1;
      events[next] := e;
      assert events[..] == old(events[..])[next := e];
      next := (next + 1) % CAPACITY;
      if count < CAPACITY {
        count := count + 1;
      }
    }

    /** First lock section of `flush_pending`. */
    method BeginFlush(now: nat) returns (go: bool)
      requires attempted ==> lastAttempt <= now // the timer is monotonic
      modifies this`attempted, this`lastAttempt
      ensures View() == FlushBegun(old(View()), now) && go == MayFlush(old(View()), now)
    {
      if !writable || saved == generation || (attempted && now - lastAttempt < FLUSH_INTERVAL_MS) {
        return false;
      }
      attempted, lastAttempt := true, now;
      return true;
    }

    /** Second lock section, and the checksum of the private copy. */
    method TakeSnapshot() returns (image: Bytes, taken: nat)
      requires FitsBlob(Contents())
      ensures image == Image(Contents()) && taken == generation
    {
      hide Encode, Checksum, FitsBlob;
      var snapshot := Contents();
      taken := generation;
      var sum := BlobChecksum(Encode(snapshot));
      assert snapshot.(checksum := sum) == Sealed(snapshot);
      image := Encode(snapshot.(checksum := sum));
    }

    /** Third lock section. */
    method EndFlush(ok: bool, taken: nat)
      modifies this`saved
      ensures View() == FlushEnded(old(View()), ok, taken)
    {
      if ok {
        saved := taken;
      }
    }
  }

  // ----- the ring holds the last 32 events -----

  /** An event as `error_history_record` makes them, in or before boot `bootId`. */
  predicate GoodEvent(e: Event, bootId: nat) {
    && FitsEvent(e) && 1 <= e.bootId <= bootId && e.utcMs >= 0
    && Ends0(e.request.host) && Ends0(e.request.profile) && Ends0(e.request.phase)
    && 1 <= e.outcome.error <= 12
  }

  predicate GoodLog(log: seq<Event>, bootId: nat) {
    forall k :: 0 <= k < |log| ==> GoodEvent(log[k], bootId) && log[k].sequence == k + 1
  }

  /** Read newest first, the ring is the last min(|log|, 32) events of `log`. */
  predicate Holds(b: Blob, log: seq<Event>) {
    && |b.events| == CAPACITY && ValidHeader(b) && b.total == |log|
    && forall age :: 0 <= age < b.count ==> Newest(b, age) == log[|log| - 1 - age]
  }

  /** The ring is well formed and holds the end of `log`. */
  predicate RingOk(b: Blob, log: seq<Event>) {
    FitsBlob(b) && Holds(b, log) && GoodLog(log, b.bootId)
  }

  /** A new event becomes the newest, every other one moves back by one place. */
  lemma PushedNewest(b: Blob, e: Event, age: nat)
    requires |b.events| == CAPACITY && b.next < CAPACITY && age < CAPACITY
    ensures Newest(Pushed(b, e), age) == if age == 0 then e else Newest(b, age - 1)
  {
    var next := (b.next + 1) % CAPACITY;
    assert next == if b.next == CAPACITY - 1 then 0 else b.next + 1;
    var at := (next + CAPACITY - 1 - age) % CAPACITY;
    assert at == if age <= b.next then b.next - age else b.next + CAPACITY - age;
  }

  lemma PushedHeader(b: Blob, e: Event)
    requires |b.events| == CAPACITY && ValidHeader(b)
    ensures var after := Pushed(b, e);
      && ValidHeader(after) && |after.events| == CAPACITY && after.total == b.total + 1
      && b.count <= after.count <= Min(b.count + 1, CAPACITY)
  {
  }

  lemma HoldsPushed(b: Blob, log: seq<Event>, e: Event)
    requires Holds(b, log)
    ensures Holds(Pushed(b, e), log + [e])
  {
    hide Newest, Pushed;
    var after := Pushed(b, e);
    PushedHeader(b, e);
    forall age | 0 <= age < after.count ensures Newest(after, age) == (log + [e])[|log| - age] {
      PushedNewest(b, e, age);
    }
  }

  lemma PushedFits(b: Blob, e: Event)
    requires FitsBlob(b) && FitsEvent(e) && ValidHeader(b) && b.total < U64_MAX
    ensures FitsBlob(Pushed(b, e))
  {
    hide FitsEvent;
    Ranges();
  }

  lemma NewEventIsGood(b: Blob, request: Request, outcome: Outcome, uptimeMs: nat, utcMs: int)
    requires FitsBlob(b) && b.bootId >= 1 && b.total < U64_MAX
    requires FitsRequest(request) && FitsOutcome(outcome) && Fits(uptimeMs, 8) && FitsSigned(utcMs, 8)
    requires 1 <= outcome.error <= 12
    ensures GoodEvent(NewEvent(b, request, outcome, uptimeMs, utcMs), b.bootId)
  {
    hide StoredText;
    Ranges();
  }

  lemma GoodFits(e: Event, bootId: nat)
    requires GoodEvent(e, bootId)
    ensures FitsEvent(e)
  {
  }

  /** Recording keeps the ring in step with the log of everything recorded. */
  lemma RecordKeepsRing(b: Blob, log: seq<Event>, request: Request, outcome: Outcome, uptimeMs: nat, utcMs: int)
    requires RingOk(b, log) && b.bootId >= 1 && b.total < U64_MAX
    requires FitsRequest(request) && FitsOutcome(outcome) && Fits(uptimeMs, 8) && FitsSigned(utcMs, 8)
    requires 1 <= outcome.error <= 12
    ensures var e := NewEvent(b, request, outcome, uptimeMs, utcMs);
      RingOk(Pushed(b, e), log + [e])
  {
    hide FitsBlob, GoodEvent, FitsEvent;
    var e := NewEvent(b, request, outcome, uptimeMs, utcMs);
    NewEventIsGood(b, request, outcome, uptimeMs, utcMs);
    HoldsPushed(b, log, e);
    GoodFits(e, b.bootId);
    PushedFits(b, e);
  }

  lemma BlankRing(bootId: nat)
    requires bootId <= U32_MAX
    ensures RingOk(BlankBlob().(bootId := bootId), [])
  {
    Ranges();
    assert FitsEvent(BlankEvent());
  }

  // ----- what a flush writes is accepted at the next boot -----

  /** The checksum sees only what follows and precedes its own field. */
  lemma ClearedAgrees(h: Bytes, g: Bytes, rest: Bytes)
    requires |h| == |g| == HEADER_BYTES && |rest| == BLOB_BYTES - HEADER_BYTES
    requires h[..CHECKSUM_AT] == g[..CHECKSUM_AT] && h[CHECKSUM_AT + 4..] == g[CHECKSUM_AT + 4..]
    ensures Cleared(h + rest) == Cleared(g + rest)
  {
    var x, y := h + rest, g + rest;
    assert x[..CHECKSUM_AT] == h[..CHECKSUM_AT] && y[..CHECKSUM_AT] == g[..CHECKSUM_AT];
    assert x[CHECKSUM_AT + 4..] == h[CHECKSUM_AT + 4..] + rest && y[CHECKSUM_AT + 4..] == g[CHECKSUM_AT + 4..] + rest;
  }

  lemma HeadersAgree(b: Blob, c: bv32)
    requires FitsBlob(b) && FitsBlob(b.(checksum := c))
    ensures var h, g := EncodeHeader(b), EncodeHeader(b.(checksum := c));
      h[..CHECKSUM_AT] == g[..CHECKSUM_AT] && h[CHECKSUM_AT + 4..] == g[CHECKSUM_AT + 4..]
  {
    hide FitsEvent, Le, EncodeChecksum;
    var first := Le(b.magic, 4) + Le(b.version, 4) + Le(b.size, 4);
    var last := Le(b.bootId, 4) + Le(b.count, 4) + Le(b.next, 4) + Le(b.reserved, 4) + Le(b.total, 8);
    assert EncodeHeader(b) == first + EncodeChecksum(b.checksum) + last;
    assert EncodeHeader(b.(checksum := c)) == first + EncodeChecksum(c) + last;
  }

  lemma ChecksumIgnoresItself(b: Blob, c: bv32)
    requires FitsBlob(b) && FitsBlob(b.(checksum := c))
    ensures Checksum(Encode(b.(checksum := c))) == Checksum(Encode(b))
  {
    hide EncodeHeader, EncodeEvents, FitsEvent, Inverted, Cleared;
    HeadersAgree(b, c);
    ClearedAgrees(EncodeHeader(b), EncodeHeader(b.(checksum := c)), EncodeEvents(b.events));
  }

  lemma SealedImage(b: Blob)
    requires FitsBlob(b)
    ensures Decode(Image(b)) == Sealed(b) && Sealed(b).checksum == Checksum(Image(b))
  {
    hide FitsBlob, Checksum;
    var s := Sealed(b);
    BlobRoundTrip(s);
    ChecksumIgnoresItself(b, s.checksum);
  }

  /** Self-acceptance: the image of a well-formed ring passes the validator and reads back as the ring. */
  lemma SealedIsValid(b: Blob, log: seq<Event>)
    requires RingOk(b, log)
    ensures ValidImage(Image(b)) && Decode(Image(b)) == Sealed(b) && RingOk(Sealed(b), log)
  {
    hide FitsBlob, FitsEvent, Checksum, Encode, Decode;
    SealedImage(b);
    var s := Sealed(b);
    forall age | 0 <= age < s.count
      ensures ValidEvent(s, age) && Newest(s, age) == log[|log| - 1 - age]
    {
      assert Newest(s, age) == Newest(b, age) == log[|log| - 1 - age];
      assert GoodEvent(log[|log| - 1 - age], b.bootId);
    }
    assert Holds(s, log);
  }
}
