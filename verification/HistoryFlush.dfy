/**
 The background flush of main/error_history.c against concurrent recording, store errors, power cuts
 and reboots. Every lock section is one step; recordings may fall between any two of them.
 */
module HistoryFlush {
  import opened Base
  import opened HistoryBlob
  import opened ErrorHistory
  import opened HistoryImage

  /** The ring at one generation, and the events recorded into it so far. */
  datatype Moment = Moment(blob: Blob, log: seq<Event>)

  /** Where the one flush worker is in `flush_pending`. */
  datatype Flusher =
    | Idle
    | Claimed
    | Holding(snapshot: Blob, taken: nat)
    | Written(ok: bool, generation: nat)

  /** The device. What follows `flash` is history that the firmware does not keep: the events in the
      ring since it was last empty, the ring at every generation of every boot, how many of those moments
      precede this boot, how many there were when the stored image was taken (0: there is none that a boot
      would accept), the timer, and the times at which this boot began to flush. */
  datatype World = World(ram: Ram, flusher: Flusher, flash: Option<Bytes>, log: seq<Event>, moments: seq<Moment>,
                         base: nat, stored: nat, clock: nat, attempts: seq<nat>)

  datatype Action =
    | Record(request: Request, outcome: Outcome, uptimeMs: nat, utcMs: int)
    | Claim(now: nat)
    | AllocationFails
    | TakeSnapshot
    | Write(ok: bool, persisted: bool)
    | Finish
    | Reboot(persisted: bool, start: Start)

  /** Start-up on what the store holds. */
  function Booted(flash: Option<Bytes>, start: Start, moments: seq<Moment>, stored: nat): World {
    var ram := Initialized(flash, start);
    var log := if Loads(flash, start) && 1 <= stored <= |moments| then moments[stored - 1].log else [];
    World(ram, Idle, flash, log, if ram.locked then moments + [Moment(ram.blob, log)] else moments,
          |moments|, stored, 0, [])
  }

  /** How the life of a device begins: what its store holds at the first boot and, if a boot would accept
      that, a log that ends with the events in it. */
  datatype Origin = Origin(flash: Option<Bytes>, log: seq<Event>)
  {
    ghost predicate Valid() { Loadable(flash) ==> RingOk(Decode(flash.value), log) }

    /** The store holds an image that a boot would not accept. */
    predicate Refused() { flash.Some? && !Loadable(flash) }

    /** An acceptable image counts as a moment before the first boot. */
    function Moments(): seq<Moment> {
      if Loadable(flash) then [Moment(Decode(flash.value), log)] else []
    }
  }

  function FirstBoot(origin: Origin, start: Start): World {
    Booted(origin.flash, start, origin.Moments(), |origin.Moments()|)
  }

  /** There is such a log for whatever the store holds. */
  lemma EveryStoreIsAnOrigin(flash: Option<Bytes>) returns (origin: Origin)
    ensures origin.Valid() && origin.flash == flash
  {
    hide RingOk, FitsBlob, Decode, Checksum, ValidHeader, ValidEvent;
    origin := Origin(flash, []);
    if Loadable(flash) {
      AcceptedExactly(flash.value);
      var log: seq<Event> :| RingOk(Decode(flash.value), log);
      origin := Origin(flash, log);
    }
  }

  predicate Enabled(w: World, action: Action) {
    match action
    case Record(request, outcome, uptimeMs, utcMs) =>
      && FitsRequest(request) && FitsOutcome(outcome) && Fits(uptimeMs, 8) && FitsSigned(utcMs, 8)
      && w.ram.blob.total < U64_MAX && |w.ram.blob.events| == CAPACITY && w.ram.blob.next < CAPACITY
    case Claim(now) => w.flusher.Idle? && w.clock <= now && (w.ram.attempted ==> w.ram.lastAttempt <= now)
    case AllocationFails => w.flusher.Claimed?
    case TakeSnapshot => w.flusher.Claimed?
    case Write(ok, persisted) => w.flusher.Holding? && FitsBlob(w.flusher.snapshot) && (ok ==> persisted)
    case Finish => w.flusher.Written?
    case Reboot(persisted, _) => persisted ==> w.flusher.Holding? && FitsBlob(w.flusher.snapshot)
  }

  /** The store after the snapshot has reached it. */
  function Persist(w: World): World
    requires w.flusher.Holding? && FitsBlob(w.flusher.snapshot)
  {
    w.(flash := Some(Image(w.flusher.snapshot)), stored := w.base + w.flusher.taken)
  }

  function Next(w: World, action: Action): World
    requires Enabled(w, action)
  {
    match action
    case Record(request, outcome, uptimeMs, utcMs) =>
      var ram := Recorded(w.ram, request, outcome, uptimeMs, utcMs);
      if !Recordable(w.ram, outcome) then w
      else
        var log := w.log + [NewEvent(w.ram.blob, request, outcome, uptimeMs, utcMs)];
        w.(ram := ram, log := log, moments := w.moments + [Moment(ram.blob, log)])
    case Claim(now) =>
      w.(ram := FlushBegun(w.ram, now), clock := now,
         flusher := if MayFlush(w.ram, now) then Claimed else Idle,
         attempts := if MayFlush(w.ram, now) then w.attempts + [now] else w.attempts)
    case AllocationFails => w.(flusher := Idle)
    case TakeSnapshot => w.(flusher := Holding(w.ram.blob, w.ram.generation))
    case Write(ok, persisted) =>
      (if persisted then Persist(w) else w).(flusher := Written(ok, w.flusher.taken))
    case Finish => w.(flusher := Idle, ram := FlushEnded(w.ram, w.flusher.ok, w.flusher.generation))
    case Reboot(persisted, start) =>
      var v := if persisted then Persist(w) else w;
      Booted(v.flash, start, v.moments, v.stored)
  }

  predicate Step(before: World, action: Action, after: World) {
    Enabled(before, action) && after == Next(before, action)
  }

  // ----- invariant -----

  /** The ring of every moment is well formed and holds the end of its log. */
  ghost predicate Sound(moments: seq<Moment>) {
    forall i :: 0 <= i < |moments| ==> RingOk(moments[i].blob, moments[i].log)
  }

  /** From the first boot on, the boot is counted. */
  ghost predicate Counted(moments: seq<Moment>, first: nat) {
    forall i :: first <= i < |moments| ==> moments[i].blob.bootId >= 1
  }

  /** Within one boot the log only grows. */
  ghost predicate Growing(moments: seq<Moment>, base: nat) {
    forall i, j :: base <= i <= j < |moments| ==> moments[i].log <= moments[j].log
  }

  /** The RAM is the last of the moments. */
  ghost predicate Current(w: World) {
    && |w.moments| == w.base + w.ram.generation && w.ram.saved <= w.ram.generation
    && if w.ram.locked then w.ram.generation >= 1 && w.moments[|w.moments| - 1] == Moment(w.ram.blob, w.log)
       else w.ram.generation == 0 && w.log == [] && w.ram.blob == BlankBlob() && !w.ram.writable
  }

  /** A boot would accept the stored image and read back the ring of `m`, apart from the checksum. */
  ghost predicate Restores(flash: Option<Bytes>, m: Moment) {
    Loadable(flash) && Decode(flash.value).(checksum := m.blob.checksum) == m.blob
  }

  /** The store restores the moment it was taken at, or still holds what was there at the first boot. */
  ghost predicate Stores(flash: Option<Bytes>, moments: seq<Moment>, stored: nat, origin: Origin) {
    var first := |origin.Moments()|;
    && first <= stored <= |moments|
    && (stored == first ==> flash == origin.flash)
    && (stored > 0 ==> Restores(flash, moments[stored - 1]))
    && (stored > first ==> FitsBlob(moments[stored - 1].blob) && flash == Some(Image(moments[stored - 1].blob)))
  }

  /** What counts as saved is not newer than what is stored. */
  ghost predicate SavedOk(w: World) {
    w.ram.saved >= 1 ==> w.stored >= w.base + w.ram.saved
  }

  /** The worker holds a moment of this boot, not older than what is saved. */
  ghost predicate FlusherOk(w: World) {
    match w.flusher
    case Idle => true
    case Claimed => w.ram.writable
    case Holding(snapshot, taken) =>
      && w.ram.writable && 1 <= taken && w.ram.saved <= taken <= w.ram.generation
      && w.base + taken <= |w.moments| && snapshot == w.moments[w.base + taken - 1].blob
    case Written(ok, taken) =>
      && 1 <= taken && w.ram.saved <= taken <= w.ram.generation
      && (ok ==> w.stored == w.base + taken)
  }

  ghost predicate Spaced(attempts: seq<nat>) {
    forall i :: 0 <= i < |attempts| - 1 ==> attempts[i + 1] >= attempts[i] + FLUSH_INTERVAL_MS
  }

  ghost predicate TimesOk(w: World) {
    && Spaced(w.attempts) && (w.ram.attempted <==> w.attempts != [])
    && (w.ram.attempted ==> w.attempts[|w.attempts| - 1] == w.ram.lastAttempt <= w.clock)
  }

  ghost predicate Inv(w: World, origin: Origin) {
    && Sound(w.moments) && Counted(w.moments, |origin.Moments()|) && |origin.Moments()| <= w.base
    && Growing(w.moments, w.base) && Current(w) && Stores(w.flash, w.moments, w.stored, origin) && SavedOk(w)
    && FlusherOk(w) && TimesOk(w)
    && (origin.Refused() ==> w.stored == 0 && !w.ram.writable)
  }

  // ----- preservation -----

  /** The events of a ring do not depend on its checksum, nor on later boots. */
  lemma HeaderIrrelevant(b: Blob, log: seq<Event>, checksum: bv32, bootId: nat)
    requires RingOk(b, log) && b.bootId <= bootId <= U32_MAX
    ensures RingOk(b.(checksum := checksum, bootId := bootId), log)
  {
    hide FitsEvent;
    var c := b.(checksum := checksum, bootId := bootId);
    Ranges();
    forall age | 0 <= age < c.count ensures Newest(c, age) == log[|log| - 1 - age] {
      assert Newest(c, age) == Newest(b, age);
    }
    forall k | 0 <= k < |log| ensures GoodEvent(log[k], c.bootId) {
      assert GoodEvent(log[k], b.bootId);
    }
  }

  lemma BootIdFits(b: Blob, log: seq<Event>)
    requires RingOk(b, log)
    ensures b.bootId <= U32_MAX
  {
    Ranges();
  }

  lemma RestoredBlob(b: Blob, m: Moment)
    requires RingOk(m.blob, m.log) && b.(checksum := m.blob.checksum) == m.blob
    ensures RingOk(b, m.log) && b.bootId <= U32_MAX
    ensures b.bootId < U32_MAX ==> RingOk(b.(bootId := b.bootId + 1), m.log)
  {
    hide RingOk;
    assert b == m.blob.(checksum := b.checksum, bootId := m.blob.bootId);
    BootIdFits(m.blob, m.log);
    HeaderIrrelevant(m.blob, m.log, b.checksum, m.blob.bootId);
    if m.blob.bootId < U32_MAX {
      HeaderIrrelevant(m.blob, m.log, b.checksum, m.blob.bootId + 1);
    }
  }

  lemma RestoredRing(flash: Option<Bytes>, m: Moment)
    requires Restores(flash, m) && RingOk(m.blob, m.log)
    ensures var b := Decode(flash.value);
      && RingOk(b, m.log) && b.bootId <= U32_MAX
      && (b.bootId < U32_MAX ==> RingOk(b.(bootId := b.bootId + 1), m.log))
  {
    hide RingOk, Decode;
    RestoredBlob(Decode(flash.value), m);
  }

  /** A flushed image restores the ring it was taken from. */
  lemma ImageRestores(m: Moment)
    requires RingOk(m.blob, m.log)
    ensures FitsBlob(m.blob) && Restores(Some(Image(m.blob)), m) && Decode(Image(m.blob)) == Sealed(m.blob)
  {
    hide FitsBlob, Decode, Checksum, Encode, ValidImage;
    SealedIsValid(m.blob, m.log);
  }

  /** What start-up makes of a store that restores a sound ring, or one it does not accept. */
  lemma BootedRing(flash: Option<Bytes>, start: Start, m: Moment)
    requires RingOk(m.blob, m.log) && (Restores(flash, m) || !Loadable(flash))
    ensures var ram := Initialized(flash, start);
      ram.locked ==> RingOk(ram.blob, if Loads(flash, start) then m.log else []) && ram.blob.bootId >= 1
  {
    hide RingOk, Image, ValidImage, Decode;
    if Loads(flash, start) {
      RestoredRing(flash, m);
    } else {
      BlankRing(1);
    }
  }

  /** A boot, after whatever happened before, re-establishes the invariant. */
  lemma BootKeeps(flash: Option<Bytes>, start: Start, moments: seq<Moment>, stored: nat, origin: Origin)
    requires Sound(moments) && Counted(moments, |origin.Moments()|) && Stores(flash, moments, stored, origin)
    requires origin.Refused() ==> stored == 0
    ensures Inv(Booted(flash, start, moments, stored), origin)
  {
    hide RingOk, FitsBlob, Image, ValidImage, Decode;
    BlankRing(1);
    var m := if stored == 0 then Moment(BlankBlob().(bootId := 1), []) else moments[stored - 1];
    BootedRing(flash, start, m);
    var w := Booted(flash, start, moments, stored);
    assert Current(w);
    assert forall i :: 0 <= i < |moments| ==> w.moments[i] == moments[i];
  }

  lemma RingFits(b: Blob, log: seq<Event>)
    requires RingOk(b, log)
    ensures FitsBlob(b) && |b.events| == CAPACITY && b.next < CAPACITY
  {
    hide FitsEvent;
  }

  lemma CurrentRing(w: World, origin: Origin)
    requires Inv(w, origin) && w.ram.locked
    ensures RingOk(w.ram.blob, w.log) && w.ram.blob.bootId >= 1
  {
    hide RingOk, FitsBlob, Image, ValidImage, Spaced, Stores, Growing;
  }

  lemma MomentAdded(moments: seq<Moment>, m: Moment, origin: Origin, flash: Option<Bytes>, stored: nat)
    requires Sound(moments) && Counted(moments, |origin.Moments()|) && Stores(flash, moments, stored, origin)
    requires RingOk(m.blob, m.log) && m.blob.bootId >= 1
    ensures var longer := moments + [m];
      Sound(longer) && Counted(longer, |origin.Moments()|) && Stores(flash, longer, stored, origin)
  {
    hide RingOk, FitsBlob, Image, Loadable, Restores;
    assert forall i :: 0 <= i < |moments| ==> (moments + [m])[i] == moments[i];
  }

  lemma BootIdKept(b: Blob, e: Event)
    requires |b.events| == CAPACITY && b.next < CAPACITY
    ensures Pushed(b, e).bootId == b.bootId
  {
  }

  lemma GrowingBy(moments: seq<Moment>, base: nat, m: Moment)
    requires Growing(moments, base) && moments != [] && moments[|moments| - 1].log <= m.log
    requires base < |moments|
    ensures Growing(moments + [m], base)
  {
    var longer := moments + [m];
    forall i, j | base <= i <= j < |longer| ensures longer[i].log <= longer[j].log {
      if j == |moments| && i < j {
        assert moments[i].log <= moments[|moments| - 1].log;
      }
    }
  }

  lemma RecordKeeps(w: World, origin: Origin, request: Request, outcome: Outcome, uptimeMs: nat, utcMs: int)
    requires Inv(w, origin) && Enabled(w, Record(request, outcome, uptimeMs, utcMs))
    ensures Inv(Next(w, Record(request, outcome, uptimeMs, utcMs)), origin)
  {
    hide RingOk, FitsBlob, Image, Loadable, FitsRequest, FitsOutcome, NewEvent, Pushed, Sound, Growing, Counted, Stores;
    if Recordable(w.ram, outcome) {
      var e := NewEvent(w.ram.blob, request, outcome, uptimeMs, utcMs);
      CurrentRing(w, origin);
      RecordKeepsRing(w.ram.blob, w.log, request, outcome, uptimeMs, utcMs);
      BootIdKept(w.ram.blob, e);
      var m := Moment(Pushed(w.ram.blob, e), w.log + [e]);
      MomentAdded(w.moments, m, origin, w.flash, w.stored);
      GrowingBy(w.moments, w.base, m);
    }
  }

  lemma ClaimKeeps(w: World, origin: Origin, now: nat)
    requires Inv(w, origin) && Enabled(w, Claim(now))
    ensures Inv(Next(w, Claim(now)), origin)
  {
    hide Sound, Growing, Counted, Stores, Image, Loadable;
    if MayFlush(w.ram, now) {
      var longer := w.attempts + [now];
      forall i | 0 <= i < |longer| - 1 ensures longer[i + 1] >= longer[i] + FLUSH_INTERVAL_MS {
        if i + 1 < |w.attempts| {
          assert w.attempts[i + 1] >= w.attempts[i] + FLUSH_INTERVAL_MS;
        }
      }
    }
  }

  lemma SnapshotStores(w: World, origin: Origin)
    requires Inv(w, origin) && w.flusher.Holding? && FitsBlob(w.flusher.snapshot)
    ensures Stores(Some(Image(w.flusher.snapshot)), w.moments, w.base + w.flusher.taken, origin)
  {
    hide RingOk, FitsBlob, Image, Loadable, Restores, Growing, Counted, Spaced, Decode, Current, TimesOk, SavedOk;
    var m := w.moments[w.base + w.flusher.taken - 1];
    assert RingOk(m.blob, m.log);
    ImageRestores(m);
  }

  /** The snapshot reaching the store. */
  lemma PersistKeeps(w: World, origin: Origin)
    requires Inv(w, origin) && w.flusher.Holding? && FitsBlob(w.flusher.snapshot)
    ensures Inv(Persist(w), origin)
  {
    hide Sound, Growing, Counted, Stores, Spaced, FitsBlob, Image, Loadable;
    SnapshotStores(w, origin);
  }

  lemma RebootKeeps(w: World, origin: Origin, persisted: bool, start: Start)
    requires Inv(w, origin) && Enabled(w, Reboot(persisted, start))
    ensures Inv(Next(w, Reboot(persisted, start)), origin)
  {
    hide Sound, Growing, Counted, Stores, Spaced, FitsBlob, Image, Loadable, Initialized, Current, Booted;
    if persisted {
      PersistKeeps(w, origin);
    }
    var v := if persisted then Persist(w) else w;
    BootKeeps(v.flash, start, v.moments, v.stored, origin);
  }

  lemma WrittenKeeps(w: World, origin: Origin, ok: bool, taken: nat)
    requires Inv(w, origin) && w.flusher.Holding? && w.flusher.taken == taken
    requires ok ==> w.stored == w.base + taken
    ensures Inv(w.(flusher := Written(ok, taken)), origin)
  {
    hide Sound, Growing, Counted, Stores, Spaced, FitsBlob, Image, Loadable;
  }

  lemma WriteKeeps(w: World, origin: Origin, ok: bool, persisted: bool)
    requires Inv(w, origin) && Enabled(w, Write(ok, persisted))
    ensures Inv(Next(w, Write(ok, persisted)), origin)
  {
    hide Sound, Growing, Counted, Stores, Spaced, FitsBlob, Image, Loadable, Current, TimesOk;
    if persisted {
      PersistKeeps(w, origin);
    }
    WrittenKeeps(if persisted then Persist(w) else w, origin, ok, w.flusher.taken);
  }

  /** The rest of the worker's steps. */
  lemma WorkerKeeps(w: World, origin: Origin, action: Action)
    requires Inv(w, origin) && Enabled(w, action)
    requires action.AllocationFails? || action.TakeSnapshot? || action.Finish?
    ensures Inv(Next(w, action), origin)
  {
    hide Sound, Growing, Counted, Stores, Spaced, FitsBlob, Image, Loadable, BlankBlob, Origin.Moments;
    hide MayFlush, Initialized;
  }

  lemma NextKeeps(w: World, origin: Origin, action: Action)
    requires Inv(w, origin) && Enabled(w, action)
    ensures Inv(Next(w, action), origin)
  {
    hide Inv, Enabled, Next;
    match action {
      case Record(request, outcome, uptimeMs, utcMs) => RecordKeeps(w, origin, request, outcome, uptimeMs, utcMs);
      case Claim(now) => ClaimKeeps(w, origin, now);
      case Reboot(persisted, start) => RebootKeeps(w, origin, persisted, start);
      case Write(ok, persisted) => WriteKeeps(w, origin, ok, persisted);
      case _ => WorkerKeeps(w, origin, action);
    }
  }

  // ----- every run -----

  function Last(actions: seq<Action>): Action
    requires actions != []
  {
    actions[|actions| - 1]
  }

  /** `w` is reached from the first boot by the listed actions. */
  ghost predicate Reaches(origin: Origin, start0: Start, actions: seq<Action>, w: World) {
    if actions == [] then origin.Valid() && w == FirstBoot(origin, start0)
    else
      exists before: World ::
        && Reaches(origin, start0, actions[..|actions| - 1], before)
        && Step(before, Last(actions), w)
  }

  lemma FirstBootHolds(origin: Origin, start0: Start)
    requires origin.Valid()
    ensures Inv(FirstBoot(origin, start0), origin)
  {
    BootKeeps(origin.flash, start0, origin.Moments(), |origin.Moments()|, origin);
  }

  lemma {:induction false} ReachedHolds(origin: Origin, start0: Start, actions: seq<Action>, w: World)
    requires Reaches(origin, start0, actions, w)
    ensures Inv(w, origin)
    decreases |actions|
  {
    hide Inv, Enabled, Next;
    if actions == [] {
      FirstBootHolds(origin, start0);
    } else {
      var before :| && Reaches(origin, start0, actions[..|actions| - 1], before)
                    && Step(before, Last(actions), w);
      ReachedHolds(origin, start0, actions[..|actions| - 1], before);
      NextKeeps(before, origin, Last(actions));
    }
  }

  /** No guard of `Enabled` stands in the way of what the firmware does: in every reachable state the
      snapshot can be written, the ring has its shape and the timer has not run backwards. */
  lemma NothingIsBlocked(origin: Origin, start0: Start, actions: seq<Action>, w: World)
    requires Reaches(origin, start0, actions, w)
    ensures w.flusher.Holding? ==> FitsBlob(w.flusher.snapshot)
    ensures |w.ram.blob.events| == CAPACITY && w.ram.blob.next < CAPACITY
    ensures w.ram.attempted ==> w.ram.lastAttempt <= w.clock
  {
    hide RingOk, FitsBlob, Image, Loadable, Reaches, Growing, Counted, Stores, Spaced, Next, Enabled;
    ReachedHolds(origin, start0, actions, w);
    var m := w.moments;
    if w.flusher.Holding? {
      RingFits(w.flusher.snapshot, m[w.base + w.flusher.taken - 1].log);
    }
    if w.ram.locked {
      RingFits(w.ram.blob, w.log);
    }
  }

  lemma RingMeaning(b: Blob, log: seq<Event>)
    requires RingOk(b, log)
    ensures |b.events| == CAPACITY && b.total == |log| && b.count == Min(|log|, CAPACITY)
    ensures forall age :: 0 <= age < b.count ==> Newest(b, age) == log[|log| - 1 - age]
    ensures forall k :: 0 <= k < |log| ==> log[k].sequence == k + 1
  {
    hide FitsBlob, GoodEvent;
  }

  /** Ring refinement over all runs: read newest first, the ring is the end of the event log, and the
      log is numbered without a gap. */
  lemma RingIsEndOfLog(origin: Origin, start0: Start, actions: seq<Action>, w: World)
    requires Reaches(origin, start0, actions, w) && w.ram.locked
    ensures |w.ram.blob.events| == CAPACITY && w.ram.blob.total == |w.log|
    ensures w.ram.blob.count == Min(|w.log|, CAPACITY)
    ensures forall age :: 0 <= age < w.ram.blob.count ==> Newest(w.ram.blob, age) == w.log[|w.log| - 1 - age]
    ensures forall k :: 0 <= k < |w.log| ==> w.log[k].sequence == k + 1
  {
    hide RingOk, Newest, Inv, Reaches;
    ReachedHolds(origin, start0, actions, w);
    CurrentRing(w, origin);
    RingMeaning(w.ram.blob, w.log);
  }

  /** What counts as saved is in the store: the stored image is a well-formed ring over a log that
      includes every event of the saved generation and nothing that was never recorded. */
  lemma SavedIsStored(origin: Origin, start0: Start, actions: seq<Action>, w: World)
    requires Reaches(origin, start0, actions, w) && w.ram.saved >= 1
    ensures w.base + w.ram.saved <= w.stored <= |w.moments|
    ensures Loadable(w.flash) && RingOk(Decode(w.flash.value), w.moments[w.stored - 1].log)
    ensures w.moments[w.base + w.ram.saved - 1].log <= w.moments[w.stored - 1].log <= w.log
  {
    hide RingOk, FitsBlob, Image, ValidImage, Decode, Sealed, Reaches;
    ReachedHolds(origin, start0, actions, w);
    var m := w.moments[w.stored - 1];
    SealedIsValid(m.blob, m.log);
  }

  lemma LockedNotPending(w: World, origin: Origin)
    requires Inv(w, origin) && w.ram.locked && w.ram.saved == w.ram.generation
    ensures FitsBlob(w.ram.blob) && w.flash == Some(Image(w.ram.blob))
  {
    hide RingOk, FitsBlob, Image, Loadable, Spaced, Growing;
  }

  /** The blank ring would be accepted, and is not the image of any ring that has seen a boot. */
  lemma BlankIsNotStored(b: Blob, log: seq<Event>)
    requires RingOk(b, log) && b.bootId >= 1
    ensures FitsBlob(BlankBlob()) && FitsBlob(b) && Image(BlankBlob()) != Image(b) && ValidImage(Image(BlankBlob()))
  {
    hide RingOk, Image, ValidImage, Decode, Checksum, Encode;
    BlankRing(0);
    var blank := BlankBlob();
    assert blank.(bootId := 0) == blank;
    RingFits(b, log);
    RingFits(blank, []);
    SealedIsValid(b, log);
    SealedIsValid(blank, []);
  }

  lemma UnlockedStore(w: World, origin: Origin)
    requires Inv(w, origin) && !w.ram.locked
    ensures FitsBlob(w.ram.blob) && w.ram.blob == BlankBlob()
    ensures w.flash == Some(Image(w.ram.blob)) <==>
      w.stored == |origin.Moments()| && origin.flash == Some(Image(BlankBlob()))
  {
    hide RingOk, FitsBlob, Image, ValidImage, BlankBlob, Decode, Spaced, Growing;
    if w.stored > |origin.Moments()| {
      var m := w.moments[w.stored - 1];
      BlankIsNotStored(m.blob, m.log);
    } else {
      BlankRing(1);
      BlankIsNotStored(BlankBlob().(bootId := 1), []);
    }
  }

  /** "Not pending" means that the store holds the ring in memory, exactly if the lock exists. Without it the
      ring in memory is blank, and so is the stored one only if it was at the first boot and was never written. */
  lemma NotPendingExactness(origin: Origin, start0: Start, actions: seq<Action>, w: World)
    requires Reaches(origin, start0, actions, w) && w.ram.saved == w.ram.generation
    ensures FitsBlob(w.ram.blob) && FitsBlob(BlankBlob())
    ensures w.flash == Some(Image(w.ram.blob)) <==>
      w.ram.locked || (w.stored == |origin.Moments()| && origin.flash == Some(Image(BlankBlob())))
  {
    hide FitsBlob, Image, Inv, Reaches;
    ReachedHolds(origin, start0, actions, w);
    BlankRing(0);
    assert BlankBlob().(bootId := 0) == BlankBlob();
    RingFits(BlankBlob(), []);
    if w.ram.locked {
      LockedNotPending(w, origin);
    } else {
      UnlockedStore(w, origin);
    }
  }

  /** The case without the lock is real: a first boot on an empty store on which the mutex cannot be created
      has nothing pending, and nothing stored. */
  lemma NotPendingWithoutLock(start0: Start) returns (w: World)
    requires start0.mutexFails
    ensures Reaches(Origin(None, []), start0, [], w) && w.ram.saved == w.ram.generation
    ensures !w.ram.locked && w.flash == None
  {
    w := FirstBoot(Origin(None, []), start0);
  }

  /** Reload, after any crash: a store that holds an acceptable image from the first boot, or was ever
      written, is accepted unless start-up itself meets a fault, and gives back the ring as it stood at an
      earlier moment. What a flush wrote, it gives back with the checksum that was written. */
  lemma ReloadIsEarlierMoment(origin: Origin, start0: Start, actions: seq<Action>, w: World, start: Start)
    requires Reaches(origin, start0, actions, w)
    ensures Loads(w.flash, start) <==> w.stored > 0 && !start.mutexFails && !start.openFails && !start.sizeFails
                                       && !start.allocationFails && !start.readFails
    ensures w.stored > 0 ==>
      && w.stored <= |w.moments|
      && var m := w.moments[w.stored - 1];
         Restores(w.flash, m) && RingOk(m.blob, m.log) && RingOk(Decode(w.flash.value), m.log)
    ensures w.stored > |origin.Moments()| ==>
      && w.stored <= |w.moments| && Loadable(w.flash)
      && var b := w.moments[w.stored - 1].blob;
         FitsBlob(b) && Decode(w.flash.value) == Sealed(b)
  {
    hide RingOk, FitsBlob, Image, ValidImage, Decode, Sealed, Reaches;
    ReachedHolds(origin, start0, actions, w);
    if w.stored > 0 {
      var m := w.moments[w.stored - 1];
      RestoredRing(w.flash, m);
      ImageRestores(m);
    }
  }

  lemma PersistedHistory(w: World)
    requires w.flusher.Holding? && FitsBlob(w.flusher.snapshot)
    ensures var v := Persist(w);
      v.ram == w.ram && v.moments == w.moments && v.base == w.base && v.log == w.log
  {
  }

  lemma SavedStore(w: World, origin: Origin)
    requires Inv(w, origin) && w.ram.saved >= 1
    ensures w.base + w.ram.saved <= w.stored <= |w.moments|
    ensures var m := w.moments[w.stored - 1];
      && FitsBlob(m.blob) && w.flash == Some(Image(m.blob)) && RingOk(m.blob, m.log)
      && w.moments[w.base + w.ram.saved - 1].log <= m.log <= w.log
  {
    hide RingOk, FitsBlob, Image, ValidImage, Spaced;
  }

  lemma BootedOn(flash: Option<Bytes>, start: Start, moments: seq<Moment>, stored: nat)
    requires Loads(flash, start) && 1 <= stored <= |moments|
    ensures var w := Booted(flash, start, moments, stored);
      w.ram.locked && w.log == moments[stored - 1].log
  {
    hide ValidImage, Decode;
  }

  /** A power cut at any point loses nothing that counts as saved, and invents nothing. */
  lemma CrashKeepsSaved(origin: Origin, start0: Start, actions: seq<Action>, w: World,
                        persisted: bool, start: Start)
    requires Reaches(origin, start0, actions, w) && w.ram.saved >= 1
    requires Enabled(w, Reboot(persisted, start))
    requires !start.mutexFails && !start.openFails && !start.sizeFails && !start.allocationFails && !start.readFails
    ensures var after := Next(w, Reboot(persisted, start));
      && after.ram.locked && 1 <= w.base + w.ram.saved <= |w.moments|
      && w.moments[w.base + w.ram.saved - 1].log <= after.log <= w.log
      && RingOk(after.ram.blob, after.log)
  {
    hide RingOk, FitsBlob, Image, ValidImage, Decode, Sealed, Initialized, Inv, Booted, Reaches, Persist;
    ReachedHolds(origin, start0, actions, w);
    var v := if persisted then Persist(w) else w;
    if persisted {
      PersistKeeps(w, origin);
      PersistedHistory(w);
    }
    SavedStore(v, origin);
    var m := v.moments[v.stored - 1];
    SealedIsValid(m.blob, m.log);
    RebootKeeps(w, origin, persisted, start);
    BootedOn(v.flash, start, v.moments, v.stored);
    CurrentRing(Next(w, Reboot(persisted, start)), origin);
  }

  /** The four sections of one undisturbed flush, from a state in which the worker is idle. */
  function Flushed(w: World, now: nat): (after: World)
    requires Enabled(w, Claim(now)) && MayFlush(w.ram, now) && FitsBlob(w.ram.blob)
  {
    var claimed := Next(w, Claim(now));
    var holding := Next(claimed, TakeSnapshot);
    Next(Next(holding, Write(true, true)), Finish)
  }

  /** What is recorded gets saved: in every reachable state in which the worker is idle, the store may be written
      and something is unsaved, a flush can begin 30 s after the last one; undisturbed it ends with the ring in
      the store and nothing pending. */
  lemma FlushSaves(origin: Origin, start0: Start, actions: seq<Action>, w: World, now: nat)
    requires Reaches(origin, start0, actions, w) && w.flusher.Idle? && w.ram.writable && w.clock <= now
    requires w.ram.saved != w.ram.generation && (w.ram.attempted ==> now >= w.ram.lastAttempt + 30000)
    ensures Enabled(w, Claim(now)) && MayFlush(w.ram, now) && FitsBlob(w.ram.blob)
    ensures var after := Flushed(w, now);
      && after.ram == w.ram.(attempted := true, lastAttempt := now, saved := w.ram.generation)
      && after.flusher.Idle? && after.flash == Some(Image(w.ram.blob)) && after.log == w.log
      && after.stored == |after.moments| && after.moments == w.moments
  {
    hide RingOk, FitsBlob, Image, Loadable, Reaches, Growing, Counted, Stores, Spaced;
    ReachedHolds(origin, start0, actions, w);
    assert w.ram.locked;
    CurrentRing(w, origin);
    RingFits(w.ram.blob, w.log);
  }

  /** The sections of a flush that cannot get memory for its snapshot. */
  function Starved(w: World, now: nat): World
    requires Enabled(w, Claim(now)) && MayFlush(w.ram, now)
  {
    Next(Next(w, Claim(now)), AllocationFails)
  }

  /** The sections of a flush whose write does not succeed, whether or not it reached the store. */
  function Unwritten(w: World, now: nat, persisted: bool): World
    requires Enabled(w, Claim(now)) && MayFlush(w.ram, now) && FitsBlob(w.ram.blob)
  {
    var holding := Next(Next(w, Claim(now)), TakeSnapshot);
    Next(Next(holding, Write(false, persisted)), Finish)
  }

  /** A flush that fails, for want of memory or because the write does not succeed, costs nothing but the attempt:
      everything is as unsaved as before, and 30 s later, and not earlier, a flush begins again. */
  lemma FailedFlushIsRepeated(origin: Origin, start0: Start, actions: seq<Action>, w: World, now: nat, persisted: bool)
    requires Reaches(origin, start0, actions, w) && Enabled(w, Claim(now)) && MayFlush(w.ram, now)
    ensures FitsBlob(w.ram.blob)
    ensures var noMemory, unwritten := Starved(w, now), Unwritten(w, now, persisted);
      && noMemory.flusher.Idle? && unwritten.flusher.Idle?
      && noMemory.ram == unwritten.ram == w.ram.(attempted := true, lastAttempt := now)
      && noMemory.log == unwritten.log == w.log
      && noMemory.flash == w.flash && unwritten.flash == (if persisted then Some(Image(w.ram.blob)) else w.flash)
      && forall later: nat :: later >= now ==> (MayFlush(noMemory.ram, later) <==> later >= now + 30000)
  {
    hide RingOk, FitsBlob, Image, Loadable, Reaches, Growing, Counted, Stores, Spaced;
    ReachedHolds(origin, start0, actions, w);
    assert w.ram.locked;
    CurrentRing(w, origin);
    RingFits(w.ram.blob, w.log);
  }

  /** Attempts of one boot are at least 30 s apart. */
  lemma AttemptsAreSpaced(origin: Origin, start0: Start, actions: seq<Action>, w: World, i: nat, j: nat)
    requires Reaches(origin, start0, actions, w) && i < j < |w.attempts|
    ensures w.attempts[j] >= w.attempts[i] + (j - i) * 30000
    decreases j
  {
    hide RingOk, FitsBlob, Image, Loadable, Reaches;
    ReachedHolds(origin, start0, actions, w);
    if i < j - 1 {
      AttemptsAreSpaced(origin, start0, actions, w, i, j - 1);
    }
    assert w.attempts[j - 1 + 1] >= w.attempts[j - 1] + FLUSH_INTERVAL_MS;
  }

  /** A stored image that the validator does not accept is never overwritten. */
  lemma UnacceptedImageIsPreserved(origin: Origin, start0: Start, actions: seq<Action>, w: World)
    requires Reaches(origin, start0, actions, w) && origin.Refused()
    ensures w.flash == origin.flash && !w.ram.writable
  {
    hide RingOk, FitsBlob, Image, Loadable, Reaches;
    ReachedHolds(origin, start0, actions, w);
  }
}
