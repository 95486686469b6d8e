/**
 Where the configuration lives (main/gateway_storage.c). On boards with the two-slot update layout
 the region is outside the partition table; it is claimed once, when it is seen to be blank, by a
 marker in the default NVS, and registered in RAM at every boot. Flash, NVS and power are oracles.
 */
module GatewayStorage {
  import opened Base

  const MAX_PRIMARY_PARTITIONS: nat := 32
  const SECTOR_SIZE: nat := 4096
  const FACTORY_ADDRESS: nat := 0x410000
  const OTA_ADDRESS: nat := 0x820000
  const REGION_SIZE: nat := 0x40000
  const CHUNK: nat := 512
  const LABEL: string := "gateway_cfg"

  /** GWCF, schema 1, little-endian offset and size. */
  const OWNERSHIP: seq<byte> := [0x47, 0x57, 0x43, 0x46, 1, 0, 0, 0, 0, 0, 0x82, 0, 0, 0, 4, 0]

  datatype EspError = EspOk | InvalidState | InvalidSize | NotSupported | OtherError(code: int)

  /** Partition type and subtype. */
  datatype Kind = AppFactory | AppOta0 | AppOta1 | DataNvs | DataOta | DataPhy | OtherKind(code: int)

  datatype Partition = Partition(name: string, kind: Kind, primary: bool, address: nat, size: nat,
                                 readonly: bool, encrypted: bool)

  /** `layout_t`: the partitions of the primary chip, and the one labelled for the gateway. */
  datatype Layout = Layout(items: seq<Partition>, gateway: Option<Partition>)

  predicate Overlap(a: nat, aSize: nat, b: nat, bSize: nat) {
    a < b + bSize && b < a + aSize
  }

  predicate Covers(start: nat, size: nat, x: nat) { start <= x < start + size }

  ghost predicate SharesByte(a: nat, aSize: nat, b: nat, bSize: nat) {
    exists x: nat :: Covers(a, aSize, x) && Covers(b, bSize, x)
  }

  /** The comparison finds overlap exactly when some byte belongs to both ranges. */
  lemma OverlapIsSharedByte(a: nat, aSize: nat, b: nat, bSize: nat)
    requires aSize > 0 && bSize > 0
    ensures Overlap(a, aSize, b, bSize) <==> SharesByte(a, aSize, b, bSize)
  {
    if Overlap(a, aSize, b, bSize) {
      assert Covers(a, aSize, Max(a, b)) && Covers(b, bSize, Max(a, b));
    }
  }

  // ----- inventory -----

  /** The verdict on the next listed partition; the iterator may yield none. */
  function RowError(layout: Layout, row: Option<Partition>, flashSize: nat): EspError {
    if row.None? then InvalidState
    else
      var p := row.value;
      if p.name == LABEL && (layout.gateway.Some? || !p.primary) then InvalidState
      else if p.primary &&
              (p.size == 0 || p.address % SECTOR_SIZE != 0 || p.size % SECTOR_SIZE != 0
               || p.address + p.size > flashSize || |layout.items| == MAX_PRIMARY_PARTITIONS) then InvalidSize
      else if p.primary &&
              (exists i :: 0 <= i < |layout.items| &&
                 Overlap(p.address, p.size, layout.items[i].address, layout.items[i].size)) then InvalidState
      else EspOk
  }

  function AddRow(layout: Layout, p: Partition): Layout {
    Layout(if p.primary then layout.items + [p] else layout.items,
           if p.name == LABEL then Some(p) else layout.gateway)
  }

  /** First error of the listing, and the layout up to there. */
  function Inventory(found: seq<Option<Partition>>, flashSize: nat): (EspError, Layout) {
    if found == [] then (EspOk, Layout([], None))
    else
      var (error, layout) := Inventory(found[..|found| - 1], flashSize);
      if error != EspOk then (error, layout)
      else
        var row := found[|found| - 1];
        var rowError := RowError(layout, row, flashSize);
        (rowError, if rowError == EspOk then AddRow(layout, row.value) else layout)
  }

  lemma {:induction false} InventoryStops(found: seq<Option<Partition>>, flashSize: nat, n: nat)
    requires n <= |found| && Inventory(found[..n], flashSize).0 != EspOk
    ensures Inventory(found, flashSize).0 == Inventory(found[..n], flashSize).0
  {
    if n == |found| {
      assert found[..n] == found;
    } else {
      assert found[..|found| - 1][..n] == found[..n];
      InventoryStops(found[..|found| - 1], flashSize, n);
    }
  }

  method CheckRow(layout: Layout, row: Option<Partition>, flashSize: nat) returns (error: EspError)
    ensures error == RowError(layout, row, flashSize)
  {
    if row.None? {
      return InvalidState;
    }
    var p := row.value;
    if p.name == LABEL && (layout.gateway.Some? || !p.primary) {
      return InvalidState;
    }
    if p.primary {
      if p.size == 0 || p.address % SECTOR_SIZE != 0 || p.size % SECTOR_SIZE != 0
         || p.address + p.size > flashSize || |layout.items| == MAX_PRIMARY_PARTITIONS {
        return InvalidSize;
      }
      for i := 0 to |layout.items|
        invariant forall k :: 0 <= k < i ==> !Overlap(p.address, p.size, layout.items[k].address, layout.items[k].size)
      {
        if Overlap(p.address, p.size, layout.items[i].address, layout.items[i].size) {
          return InvalidState;
        }
      }
    }
    return EspOk;
  }

  method TakeInventory(found: seq<Option<Partition>>, flashSize: nat) returns (error: EspError, layout: Layout)
    ensures error == Inventory(found, flashSize).0
    ensures error == EspOk ==> layout == Inventory(found, flashSize).1
  {
    layout := Layout([], None);
    for n := 0 to |found|
      invariant Inventory(found[..n], flashSize) == (EspOk, layout)
    {
      assert found[..n + 1][..n] == found[..n];
      var verdict := CheckRow(layout, found[n], flashSize);
      if verdict != EspOk {
        InventoryStops(found, flashSize, n + 1);
        return verdict, layout;
      }
      layout := AddRow(layout, found[n].value);
    }
    assert found[..|found|] == found;
    return EspOk, layout;
  }

  /** What an accepted inventory guarantees of the primary chip. */
  predicate Sound(layout: Layout, flashSize: nat) {
    && |layout.items| <= MAX_PRIMARY_PARTITIONS
    && (forall i :: 0 <= i < |layout.items| ==>
          && layout.items[i].primary && layout.items[i].size > 0
          && layout.items[i].address + layout.items[i].size <= flashSize)
    && (forall i, j :: 0 <= i < j < |layout.items| ==>
          !Overlap(layout.items[i].address, layout.items[i].size, layout.items[j].address, layout.items[j].size))
  }

  /** An accepted listing was accepted row by row. */
  lemma AcceptedRow(found: seq<Option<Partition>>, flashSize: nat)
    requires found != [] && Inventory(found, flashSize).0 == EspOk
    ensures var (error, before) := Inventory(found[..|found| - 1], flashSize);
      var last := found[|found| - 1];
      && error == EspOk && last.Some? && RowError(before, last, flashSize) == EspOk
      && Inventory(found, flashSize).1 == AddRow(before, last.value)
  {
  }

  lemma SoundRow(before: Layout, p: Partition, flashSize: nat)
    requires Sound(before, flashSize) && RowError(before, Some(p), flashSize) == EspOk
    ensures Sound(AddRow(before, p), flashSize)
  {
  }

  /** The partitions of a listing are all there, and the primary ones are in the layout. */
  ghost predicate Listed(found: seq<Option<Partition>>, layout: Layout) {
    && (forall k :: 0 <= k < |found| ==> found[k].Some?)
    && (forall k :: 0 <= k < |found| && found[k].value.primary ==> found[k].value in layout.items)
    && (layout.gateway.None? <==> forall k :: 0 <= k < |found| ==> found[k].value.name != LABEL)
  }

  lemma ListedRow(found: seq<Option<Partition>>, before: Layout, p: Partition)
    requires Listed(found, before)
    ensures Listed(found + [Some(p)], AddRow(before, p))
  {
    var longer, layout := found + [Some(p)], AddRow(before, p);
    assert forall q :: q in before.items ==> q in layout.items;
    assert p.primary ==> layout.items[|before.items|] == p;
    assert forall k :: 0 <= k < |found| ==> longer[k] == found[k];
    assert longer[|found|] == Some(p);
  }

  lemma {:induction false} InventorySound(found: seq<Option<Partition>>, flashSize: nat)
    requires Inventory(found, flashSize).0 == EspOk
    ensures var layout := Inventory(found, flashSize).1; Sound(layout, flashSize) && Listed(found, layout)
  {
    hide RowError, AddRow;
    if found != [] {
      var prefix, last := found[..|found| - 1], found[|found| - 1];
      AcceptedRow(found, flashSize);
      InventorySound(prefix, flashSize);
      var before := Inventory(prefix, flashSize).1;
      SoundRow(before, last.value, flashSize);
      ListedRow(prefix, before, last.value);
      assert prefix + [Some(last.value)] == found;
    }
  }

  // ----- recognizing a layout -----

  predicate Candidate(p: Partition, kind: Kind, name: Option<string>) {
    p.kind == kind && (name.Some? ==> p.name == name.value)
  }

  /** Exactly one partition of this kind (and label), writable and at this place. */
  ghost predicate Exact(layout: Layout, kind: Kind, address: nat, size: nat, name: Option<string>) {
    exists i :: 0 <= i < |layout.items|
      && Candidate(layout.items[i], kind, name)
      && layout.items[i].address == address && layout.items[i].size == size && !layout.items[i].readonly
      && forall j :: 0 <= j < |layout.items| && Candidate(layout.items[j], kind, name) ==> j == i
  }

  lemma MatchIsCandidate(p: Partition, kind: Kind, name: Option<string>)
    ensures Candidate(p, kind, name) <==> p.kind == kind && (name.None? || p.name == name.value)
  {
  }

  method IsExact(layout: Layout, kind: Kind, address: nat, size: nat, name: Option<string>) returns (yes: bool)
    ensures yes <==> Exact(layout, kind, address, size, name)
  {
    hide Candidate;
    var matches := 0;
    ghost var at := 0;
    for i := 0 to |layout.items|
      invariant matches == 0 ==> forall k :: 0 <= k < i ==> !Candidate(layout.items[k], kind, name)
      invariant matches == 1 ==>
        && 0 <= at < i && Candidate(layout.items[at], kind, name)
        && forall k :: 0 <= k < i && Candidate(layout.items[k], kind, name) ==> k == at
      invariant matches >= 2 ==> exists a, b ::
        0 <= a < b < i && Candidate(layout.items[a], kind, name) && Candidate(layout.items[b], kind, name)
      invariant matches >= 0
      invariant forall k :: 0 <= k < i && Candidate(layout.items[k], kind, name) ==>
        layout.items[k].address == address && layout.items[k].size == size && !layout.items[k].readonly
    {
      var p := layout.items[i];
      MatchIsCandidate(p, kind, name);
      if p.kind == kind {
        if name.None? || p.name == name.value {
          if p.address != address || p.size != size || p.readonly {
            return false;
          }
          matches := matches + 1;
          if matches == 1 {
            at := i;
          }
        }
      }
    }
    return matches == 1;
  }

  ghost predicate FactoryLayout(layout: Layout) {
    && Exact(layout, AppFactory, 0x10000, 0x400000, None)
    && Exact(layout, DataNvs, 0x9000, 0x6000, Some("nvs"))
    && Exact(layout, DataPhy, 0xf000, 0x1000, None)
  }

  ghost predicate OtaLayout(layout: Layout) {
    && Exact(layout, AppOta0, 0x20000, 0x400000, None)
    && Exact(layout, AppOta1, 0x420000, 0x400000, None)
    && Exact(layout, DataNvs, 0x9000, 0x6000, Some("nvs"))
    && Exact(layout, DataOta, 0xf000, 0x2000, None)
    && Exact(layout, DataPhy, 0x11000, 0x1000, None)
  }

  method IsFactoryLayout(layout: Layout) returns (yes: bool)
    ensures yes <==> FactoryLayout(layout)
  {
    yes := IsExact(layout, AppFactory, 0x10000, 0x400000, None);
    if yes {
      yes := IsExact(layout, DataNvs, 0x9000, 0x6000, Some("nvs"));
    }
    if yes {
      yes := IsExact(layout, DataPhy, 0xf000, 0x1000, None);
    }
  }

  method IsOtaLayout(layout: Layout) returns (yes: bool)
    ensures yes <==> OtaLayout(layout)
  {
    yes := IsExact(layout, AppOta0, 0x20000, 0x400000, None);
    if yes {
      yes := IsExact(layout, AppOta1, 0x420000, 0x400000, None);
    }
    if yes {
      yes := IsExact(layout, DataNvs, 0x9000, 0x6000, Some("nvs"));
    }
    if yes {
      yes := IsExact(layout, DataOta, 0xf000, 0x2000, None);
    }
    if yes {
      yes := IsExact(layout, DataPhy, 0x11000, 0x1000, None);
    }
  }

  // ----- one boot -----

  /** How the marker write ends: what the firmware sees, and whether the marker is in flash. */
  datatype MarkerWrite =
    | OpenFails(code: int)
    | WriteFails(code: int, persisted: bool)
    | Committed
    | PowerLost(persisted: bool)

  /** When power fails, apart from during the marker write. */
  datatype PowerCut = Never | BeforeMarkerCheck | BeforeClaim | BeforeRegistration

  /** Everything one boot meets. `region` is what the off-table flash holds. */
  datatype Boot = Boot(
    chipPresent: bool, sizeError: EspError, flashSize: nat, found: seq<Option<Partition>>,
    markerError: EspError, region: seq<byte>, badChunks: set<nat>, write: MarkerWrite,
    powerCut: PowerCut, registerError: EspError, registered: Option<Partition>)

  datatype Outcome = Crashed | Finished(error: EspError)

  /** Result of a boot: the committed marker, whether the off-table region was registered. */
  datatype Booted = Booted(outcome: Outcome, marker: Option<seq<byte>>, registerCalled: bool)

  predicate GoodGateway(p: Partition) {
    p.kind.DataNvs? && p.size == REGION_SIZE && !p.readonly && !p.encrypted
  }

  predicate ClearOfAll(layout: Layout) {
    forall i :: 0 <= i < |layout.items| ==>
      !Overlap(OTA_ADDRESS, REGION_SIZE, layout.items[i].address, layout.items[i].size)
  }

  /** `check_marker`: an absent marker is not an error, a different one is. */
  function MarkerCheck(marker: Option<seq<byte>>, nvsError: EspError): (EspError, bool) {
    if nvsError != EspOk then (nvsError, false)
    else if marker.None? then (EspOk, false)
    else if marker.value != OWNERSHIP then (InvalidState, false)
    else (EspOk, true)
  }

  /** Every byte of the region was read and is erased. */
  predicate SeenBlank(boot: Boot) {
    && |boot.region| == REGION_SIZE
    && (forall c: nat :: c < REGION_SIZE / CHUNK ==> c !in boot.badChunks)
    && forall i :: 0 <= i < REGION_SIZE ==> boot.region[i] == 0xff
  }

  predicate RegistrationMatches(p: Option<Partition>) {
    && p.Some? && p.value.address == OTA_ADDRESS && p.value.size == REGION_SIZE && p.value.primary
    && p.value.kind.DataNvs? && !p.value.readonly && !p.value.encrypted && p.value.name == LABEL
  }

  function Persist(marker: Option<seq<byte>>, persisted: bool): Option<seq<byte>> {
    if persisted then Some(OWNERSHIP) else marker
  }

  /** The board that a listing describes can carry the off-table region. */
  ghost predicate OffTable(boot: Boot, layout: Layout) {
    && boot.chipPresent && boot.sizeError == EspOk
    && Inventory(boot.found, boot.flashSize) == (EspOk, layout)
    && layout.gateway.None? && OtaLayout(layout)
    && OTA_ADDRESS + REGION_SIZE <= boot.flashSize && ClearOfAll(layout)
  }

  /** `claim_blank_region`: what the firmware sees, and the marker it leaves. */
  function Claimed(marker: Option<seq<byte>>, boot: Boot): (Outcome, Option<seq<byte>>)
    requires SeenBlank(boot)
  {
    match boot.write
    case OpenFails(code) => (Finished(OtherError(code)), marker)
    case WriteFails(code, persisted) => (Finished(OtherError(code)), Persist(marker, persisted))
    case Committed => (Finished(EspOk), Some(OWNERSHIP))
    case PowerLost(persisted) => (Crashed, Persist(marker, persisted))
  }

  /** The error of the first byte that is not blank, or of the first chunk that cannot be read. */
  function BlankError(boot: Boot, chunk: nat): EspError
    requires |boot.region| == REGION_SIZE && chunk <= REGION_SIZE / CHUNK
    decreases REGION_SIZE / CHUNK - chunk
  {
    if chunk == REGION_SIZE / CHUNK then EspOk
    else if chunk in boot.badChunks then OtherError(chunk)
    else if exists i :: chunk * CHUNK <= i < (chunk + 1) * CHUNK && boot.region[i] != 0xff then InvalidState
    else BlankError(boot, chunk + 1)
  }

  lemma {:induction false} BlankErrorExact(boot: Boot, chunk: nat)
    requires |boot.region| == REGION_SIZE && chunk <= REGION_SIZE / CHUNK
    requires forall c: nat :: c < chunk ==> c !in boot.badChunks
    requires forall i :: 0 <= i < chunk * CHUNK ==> boot.region[i] == 0xff
    ensures BlankError(boot, chunk) == EspOk <==> SeenBlank(boot)
    decreases REGION_SIZE / CHUNK - chunk
  {
    if chunk < REGION_SIZE / CHUNK && chunk !in boot.badChunks
       && forall i :: chunk * CHUNK <= i < (chunk + 1) * CHUNK ==> boot.region[i] == 0xff {
      BlankErrorExact(boot, chunk + 1);
    }
  }

  function Registered(boot: Boot): EspError {
    if boot.registerError != EspOk then boot.registerError
    else if RegistrationMatches(boot.registered) then EspOk else InvalidState
  }

  /** Storage listed in the partition table is validated and used as it is. */
  ghost function TableStorage(layout: Layout): EspError
    requires layout.gateway.Some?
  {
    var p := layout.gateway.value;
    if && GoodGateway(p)
       && ((p.address == FACTORY_ADDRESS && FactoryLayout(layout)) || (p.address == OTA_ADDRESS && OtaLayout(layout)))
    then EspOk else InvalidState
  }

  /** The off-table part of a boot, once the layout has been recognized. */
  ghost function OffTableStorage(marker: Option<seq<byte>>, boot: Boot): Booted
    requires |boot.region| == REGION_SIZE
  {
    var (markerError, owned) := MarkerCheck(marker, boot.markerError);
    if boot.powerCut.BeforeMarkerCheck? then Booted(Crashed, marker, false)
    else if markerError != EspOk then Booted(Finished(markerError), marker, false)
    else if !owned && boot.powerCut.BeforeClaim? then Booted(Crashed, marker, false)
    else if !owned && BlankError(boot, 0) != EspOk then Booted(Finished(BlankError(boot, 0)), marker, false)
    else
      BlankErrorExact(boot, 0);
      var (claim, after) := if owned then (Finished(EspOk), marker) else Claimed(marker, boot);
      if claim != Finished(EspOk) then Booted(claim, after, false)
      else if boot.powerCut.BeforeRegistration? then Booted(Crashed, after, false)
      else Booted(Finished(Registered(boot)), after, true)
  }

  /** `gateway_storage_prepare`. */
  ghost function Prepared(marker: Option<seq<byte>>, boot: Boot): Booted
    requires |boot.region| == REGION_SIZE
  {
    var (error, layout) := Inventory(boot.found, boot.flashSize);
    var verdict :=
      if !boot.chipPresent then InvalidState
      else if boot.sizeError != EspOk then boot.sizeError
      else if error != EspOk then error
      else if layout.gateway.Some? then TableStorage(layout)
      else if !OtaLayout(layout) then NotSupported
      else if OTA_ADDRESS + REGION_SIZE > boot.flashSize then InvalidSize
      else if !ClearOfAll(layout) then InvalidState
      else EspOk;
    if boot.chipPresent && verdict == EspOk && layout.gateway.None? then OffTableStorage(marker, boot)
    else Booted(Finished(verdict), marker, false)
  }

  /** The durable store and the RAM registration. */
  class Board {
    var marker: Option<seq<byte>>
    var registerCalled: bool

    constructor (marker: Option<seq<byte>>)
      ensures this.marker == marker && !registerCalled
    {
      this.marker, registerCalled := marker, false;
    }

    /** `claim_blank_region`. */
    method ClaimBlankRegion(boot: Boot) returns (outcome: Outcome)
      requires |boot.region| == REGION_SIZE
      modifies this`marker
      ensures !SeenBlank(boot) ==> marker == old(marker) && outcome == Finished(BlankError(boot, 0))
      ensures SeenBlank(boot) ==> (outcome, marker) == Claimed(old(marker), boot)
    {
      BlankErrorExact(boot, 0);
      for chunk := 0 to REGION_SIZE / CHUNK
        invariant forall c: nat :: c < chunk ==> c !in boot.badChunks
        invariant forall i :: 0 <= i < chunk * CHUNK ==> boot.region[i] == 0xff
        invariant BlankError(boot, 0) == BlankError(boot, chunk)
      {
        if chunk in boot.badChunks {
          return Finished(OtherError(chunk));
        }
        for i := chunk * CHUNK to (chunk + 1) * CHUNK
          invariant forall k :: 0 <= k < i ==> boot.region[k] == 0xff
        {
          if boot.region[i] != 0xff {
            return Finished(InvalidState);
          }
        }
      }
      match boot.write {
        case OpenFails(code) => return Finished(OtherError(code));
        case WriteFails(code, persisted) =>
          marker := Persist(marker, persisted);
          return Finished(OtherError(code));
        case Committed =>
          marker := Some(OWNERSHIP);
          return Finished(EspOk);
        case PowerLost(persisted) =>
          marker := Persist(marker, persisted);
          return Crashed;
      }
    }

    /** `gateway_storage_prepare`. */
    method Prepare(boot: Boot) returns (outcome: Outcome)
      requires |boot.region| == REGION_SIZE && !registerCalled
      modifies this
      ensures Booted(outcome, marker, registerCalled) == Prepared(old(marker), boot)
    {
      if !boot.chipPresent {
        return Finished(InvalidState);
      }
      if boot.sizeError != EspOk {
        return Finished(boot.sizeError);
      }
      var error, layout := TakeInventory(boot.found, boot.flashSize);
      if error != EspOk {
        return Finished(error);
      }
      if layout.gateway.Some? {
        var p := layout.gateway.value;
        if !GoodGateway(p) {
          return Finished(InvalidState);
        }
        if p.address == FACTORY_ADDRESS {
          var yes := IsFactoryLayout(layout);
          return Finished(if yes then EspOk else InvalidState);
        }
        if p.address == OTA_ADDRESS {
          var yes := IsOtaLayout(layout);
          return Finished(if yes then EspOk else InvalidState);
        }
        return Finished(InvalidState);
      }
      var ota := IsOtaLayout(layout);
      if !ota {
        return Finished(NotSupported);
      }
      if OTA_ADDRESS + REGION_SIZE > boot.flashSize {
        return Finished(InvalidSize);
      }
      for i := 0 to |layout.items|
        invariant forall k :: 0 <= k < i ==>
          !Overlap(OTA_ADDRESS, REGION_SIZE, layout.items[k].address, layout.items[k].size)
      {
        if Overlap(OTA_ADDRESS, REGION_SIZE, layout.items[i].address, layout.items[i].size) {
          return Finished(InvalidState);
        }
      }
      BlankErrorExact(boot, 0);
      if boot.powerCut.BeforeMarkerCheck? {
        return Crashed;
      }
      var (markerError, owned) := MarkerCheck(marker, boot.markerError);
      if markerError != EspOk {
        return Finished(markerError);
      }
      if !owned {
        if boot.powerCut.BeforeClaim? {
          return Crashed;
        }
        var claim := ClaimBlankRegion(boot);
        if claim != Finished(EspOk) {
          return claim;
        }
      }
      if boot.powerCut.BeforeRegistration? {
        return Crashed;
      }
      registerCalled := true;
      if boot.registerError != EspOk {
        return Finished(boot.registerError);
      }
      return Finished(if RegistrationMatches(boot.registered) then EspOk else InvalidState);
    }
  }

  // ----- what every boot keeps -----

  /** A boot with no fault and no power cut after the layout was recognized. */
  predicate Undisturbed(boot: Boot) {
    && boot.markerError == EspOk && boot.write.Committed? && boot.powerCut.Never?
    && boot.registerError == EspOk && RegistrationMatches(boot.registered)
  }

  /** What one boot may do, given the committed marker it starts from. */
  ghost predicate Boots(marker: Option<seq<byte>>, boot: Boot, after: Booted) {
    // the marker changes only to the ownership marker, and only after the whole region was seen blank
    && (after.marker == marker || (after.marker == Some(OWNERSHIP) && SeenBlank(boot)))
    // registration needs a qualifying layout and a committed ownership marker
    && (after.registerCalled ==>
          && after.marker == Some(OWNERSHIP)
          && exists layout :: OffTable(boot, layout))
    // a foreign marker is never replaced
    && (marker.Some? ==> after.marker == marker)
    // off the table, an undisturbed boot registers the region exactly when it is owned or blank
    && (forall layout :: OffTable(boot, layout) && Undisturbed(boot) ==>
          (after.registerCalled <==> marker == Some(OWNERSHIP) || (marker.None? && SeenBlank(boot))))
    // success means storage that was listed and validated, or registered
    && (after.outcome == Finished(EspOk) ==>
          after.registerCalled ||
          (&& Inventory(boot.found, boot.flashSize).0 == EspOk
           && var layout := Inventory(boot.found, boot.flashSize).1;
              && layout.gateway.Some? && GoodGateway(layout.gateway.value)
              && ((layout.gateway.value.address == FACTORY_ADDRESS && FactoryLayout(layout))
                  || (layout.gateway.value.address == OTA_ADDRESS && OtaLayout(layout)))))
  }

  lemma PrepareKeeps(marker: Option<seq<byte>>, boot: Boot)
    requires |boot.region| == REGION_SIZE
    ensures Boots(marker, boot, Prepared(marker, boot))
  {
    hide OtaLayout, FactoryLayout, ClearOfAll, BlankError, GoodGateway;
    BlankErrorExact(boot, 0);
    var (error, layout) := Inventory(boot.found, boot.flashSize);
    if Prepared(marker, boot).registerCalled {
      assert OffTable(boot, layout);
    }
  }

  /** The marker that boot `k` finds. */
  function MarkerBefore(first: Option<seq<byte>>, results: seq<Booted>, k: nat): Option<seq<byte>>
    requires k <= |results|
  {
    if k == 0 then first else results[k - 1].marker
  }

  /** A history of boots, each starting from the marker the one before left. */
  ghost predicate History(first: Option<seq<byte>>, boots: seq<Boot>, results: seq<Booted>) {
    && |results| == |boots|
    && forall k :: 0 <= k < |boots| ==>
      |boots[k].region| == REGION_SIZE && results[k] == Prepared(MarkerBefore(first, results, k), boots[k])
  }

  lemma {:induction false} MarkerNeedsBlank(first: Option<seq<byte>>, boots: seq<Boot>, results: seq<Booted>, k: nat)
    requires History(first, boots, results) && first != Some(OWNERSHIP) && k < |boots|
    requires results[k].marker == Some(OWNERSHIP)
    ensures exists j :: 0 <= j <= k && SeenBlank(boots[j])
    decreases k
  {
    PrepareKeeps(MarkerBefore(first, results, k), boots[k]);
    if !SeenBlank(boots[k]) {
      MarkerNeedsBlank(first, boots, results, k - 1);
    }
  }

  /** Claim safety over any number of boots, with power cuts and flash or NVS errors anywhere: the
      off-table region is registered only with the ownership marker committed, after some boot saw all
      of it blank; it is then inside the flash and shares no byte with any listed primary partition,
      and no two of those share a byte. */
  lemma ClaimSafety(first: Option<seq<byte>>, boots: seq<Boot>, results: seq<Booted>, k: nat)
    requires History(first, boots, results) && first != Some(OWNERSHIP)
    requires k < |boots| && results[k].registerCalled
    ensures results[k].marker == Some(OWNERSHIP)
    ensures exists j :: 0 <= j <= k && SeenBlank(boots[j])
    ensures OTA_ADDRESS + REGION_SIZE <= boots[k].flashSize
    ensures forall i :: 0 <= i < |boots[k].found| && boots[k].found[i].Some? && boots[k].found[i].value.primary ==>
      var p := boots[k].found[i].value;
      !SharesByte(OTA_ADDRESS, REGION_SIZE, p.address, p.size)
    ensures Sound(Inventory(boots[k].found, boots[k].flashSize).1, boots[k].flashSize)
  {
    PrepareKeeps(MarkerBefore(first, results, k), boots[k]);
    MarkerNeedsBlank(first, boots, results, k);
    var layout :| OffTable(boots[k], layout);
    InventorySound(boots[k].found, boots[k].flashSize);
    forall i | 0 <= i < |boots[k].found| && boots[k].found[i].Some? && boots[k].found[i].value.primary
      ensures var p := boots[k].found[i].value;
        !SharesByte(OTA_ADDRESS, REGION_SIZE, p.address, p.size)
    {
      var p := boots[k].found[i].value;
      assert p in layout.items;
      OverlapIsSharedByte(OTA_ADDRESS, REGION_SIZE, p.address, p.size);
    }
  }

  // ----- exactly which boards and boots succeed -----

  /** The rows of partitions.csv as the partition iterator lists them. */
  function FactoryTable(): seq<Partition> {
    [Partition("nvs", DataNvs, true, 0x9000, 0x6000, false, false),
     Partition("phy_init", DataPhy, true, 0xf000, 0x1000, false, false),
     Partition("factory", AppFactory, true, 0x10000, 0x400000, false, false),
     Partition("gateway_cfg", DataNvs, true, 0x410000, 0x40000, false, false)]
  }

  /** The rows of partitions.ota.csv, the last of which older boards do not have. */
  function OtaTable(listed: bool): seq<Partition> {
    [Partition("nvs", DataNvs, true, 0x9000, 0x6000, false, false),
     Partition("otadata", DataOta, true, 0xf000, 0x2000, false, false),
     Partition("phy_init", DataPhy, true, 0x11000, 0x1000, false, false),
     Partition("ota_0", AppOta0, true, 0x20000, 0x400000, false, false),
     Partition("ota_1", AppOta1, true, 0x420000, 0x400000, false, false)]
    + if listed then [Partition("gateway_cfg", DataNvs, true, 0x820000, 0x40000, false, false)] else []
  }

  /** The ownership marker: four letters, schema 1, place and size of the region, little-endian. */
  lemma MarkerBytes()
    ensures OWNERSHIP == [0x47, 0x57, 0x43, 0x46] + [1, 0, 0, 0] + [0x00, 0x00, 0x82, 0x00] + [0x00, 0x00, 0x04, 0x00]
    ensures ['G' as byte, 'W' as byte, 'C' as byte, 'F' as byte] == OWNERSHIP[..4]
    ensures OTA_ADDRESS == 0x82 * 0x10000 && REGION_SIZE == 0x04 * 0x10000
    ensures FACTORY_ADDRESS == 0x410000 && LABEL == "gateway_cfg"
  {
  }

  lemma InventoryGrows(found: seq<Option<Partition>>, p: Partition, flashSize: nat)
    requires Inventory(found, flashSize).0 == EspOk
    ensures var before := Inventory(found, flashSize).1;
      var error := RowError(before, Some(p), flashSize);
      Inventory(found + [Some(p)], flashSize) == (error, if error == EspOk then AddRow(before, p) else before)
  {
    assert (found + [Some(p)])[..|found|] == found;
  }

  /** A row is refused for the first of these reasons. */
  lemma RowCodes(layout: Layout, row: Option<Partition>, flashSize: nat)
    ensures RowError(layout, row, flashSize) ==
      if row.None? then InvalidState
      else if row.value.name == "gateway_cfg" && layout.gateway.Some? then InvalidState
      else if row.value.name == "gateway_cfg" && !row.value.primary then InvalidState
      else if !row.value.primary then EspOk
      else if row.value.size == 0 || row.value.address % 4096 != 0 || row.value.size % 4096 != 0 then InvalidSize
      else if row.value.address + row.value.size > flashSize || |layout.items| == 32 then InvalidSize
      else if exists p :: p in layout.items && Overlap(row.value.address, row.value.size, p.address, p.size)
      then InvalidState
      else EspOk
  {
    if row.Some? {
      var q := row.value;
      if p :| p in layout.items && Overlap(q.address, q.size, p.address, p.size) {
        var i :| 0 <= i < |layout.items| && layout.items[i] == p;
      }
    }
  }

  /** The error of a listing is that of its first refused row. */
  lemma FirstRefused(found: seq<Option<Partition>>, flashSize: nat, k: nat)
    requires k < |found| && Inventory(found[..k], flashSize).0 == EspOk
    requires RowError(Inventory(found[..k], flashSize).1, found[k], flashSize) != EspOk
    ensures Inventory(found, flashSize).0 == RowError(Inventory(found[..k], flashSize).1, found[k], flashSize)
  {
    assert found[..k + 1][..k] == found[..k];
    InventoryStops(found, flashSize, k + 1);
  }

  /** How a boot ends. Its error is the first thing that is wrong, in this order. */
  lemma PrepareEnds(marker: Option<seq<byte>>, boot: Boot)
    requires |boot.region| == REGION_SIZE
    ensures var (error, layout) := Inventory(boot.found, boot.flashSize);
      var after := Prepared(marker, boot);
      if !boot.chipPresent then after == Booted(Finished(InvalidState), marker, false)
      else if boot.sizeError != EspOk then after == Booted(Finished(boot.sizeError), marker, false)
      else if error != EspOk then after == Booted(Finished(error), marker, false)
      else if layout.gateway.Some? then
        var p := layout.gateway.value;
        after == Booted(Finished(
          if && p.kind.DataNvs? && p.size == 0x40000 && !p.readonly && !p.encrypted
             && ((p.address == 0x410000 && FactoryLayout(layout)) || (p.address == 0x820000 && OtaLayout(layout)))
          then EspOk else InvalidState), marker, false)
      else if !OtaLayout(layout) then after == Booted(Finished(NotSupported), marker, false)
      else if boot.flashSize < 0x860000 then after == Booted(Finished(InvalidSize), marker, false)
      else if exists p :: p in layout.items && Overlap(0x820000, 0x40000, p.address, p.size) then
        after == Booted(Finished(InvalidState), marker, false)
      else after == OffTableStorage(marker, boot)
  {
    hide OtaLayout, FactoryLayout, OffTableStorage, Inventory;
    var layout := Inventory(boot.found, boot.flashSize).1;
    if p :| p in layout.items && Overlap(0x820000, 0x40000, p.address, p.size) {
      var i :| 0 <= i < |layout.items| && layout.items[i] == p;
      assert !ClearOfAll(layout);
    }
  }

  /** And so for the part that claims the region, when power does not fail: a marker that cannot be read or is
      another one's stops it; without a marker the whole region must be read and blank, and the marker
      written; then the region is registered, and what was registered must be what was asked for. */
  lemma OffTableEnds(marker: Option<seq<byte>>, boot: Boot)
    requires |boot.region| == REGION_SIZE && boot.powerCut.Never?
    ensures var after := OffTableStorage(marker, boot);
      if boot.markerError != EspOk then after == Booted(Finished(boot.markerError), marker, false)
      else if marker.Some? && marker != Some(OWNERSHIP) then after == Booted(Finished(InvalidState), marker, false)
      else if marker.None? && !SeenBlank(boot) then
        after == Booted(Finished(BlankError(boot, 0)), marker, false) && BlankError(boot, 0) != EspOk
      else if marker.None? && !boot.write.Committed? then
        && !after.registerCalled && (after.marker == marker || after.marker == Some(OWNERSHIP))
        && after.outcome == (if boot.write.PowerLost? then Crashed else Finished(OtherError(boot.write.code)))
      else
        && after.registerCalled && after.marker == Some(OWNERSHIP)
        && after.outcome == Finished(
             if boot.registerError != EspOk then boot.registerError
             else match boot.registered
               case None => InvalidState
               case Some(p) =>
                 if && p.address == 0x820000 && p.size == 0x40000 && p.primary && p.kind.DataNvs?
                    && !p.readonly && !p.encrypted && p.name == "gateway_cfg"
                 then EspOk else InvalidState)
  {
    BlankErrorExact(boot, 0);
    hide BlankError, SeenBlank;
  }

  lemma {:induction false} BlankErrorSame(boot: Boot, other: Boot, chunk: nat)
    requires |boot.region| == REGION_SIZE && chunk <= REGION_SIZE / CHUNK
    requires boot.region == other.region && boot.badChunks == other.badChunks
    ensures BlankError(boot, chunk) == BlankError(other, chunk)
    decreases REGION_SIZE / CHUNK - chunk
  {
    if chunk < REGION_SIZE / CHUNK {
      BlankErrorSame(boot, other, chunk + 1);
    }
  }

  /** A power cut ends the off-table part where it falls; up to there it is the boot without the cut. */
  lemma PowerCuts(marker: Option<seq<byte>>, boot: Boot)
    requires |boot.region| == REGION_SIZE
    ensures var full := OffTableStorage(marker, boot.(powerCut := Never));
      OffTableStorage(marker, boot) == match boot.powerCut
        case Never => full
        case BeforeMarkerCheck => Booted(Crashed, marker, false)
        case BeforeClaim =>
          if boot.markerError == EspOk && marker.None? then Booted(Crashed, marker, false) else full
        case BeforeRegistration => if full.registerCalled then Booted(Crashed, full.marker, false) else full
  {
    BlankErrorSame(boot, boot.(powerCut := Never), 0);
    hide BlankError, SeenBlank;
  }

  /** Which error the scan of the region ends with: that of the first chunk of 512 bytes that cannot be read or
      is not blank. */
  lemma {:induction false} BlankErrorFirst(boot: Boot, chunk: nat, bad: nat)
    requires |boot.region| == 0x40000 == REGION_SIZE && chunk <= bad < 512
    requires forall c: nat :: chunk <= c < bad ==> c !in boot.badChunks
    requires forall i :: 512 * chunk <= i < 512 * bad ==> boot.region[i] == 0xff
    requires bad in boot.badChunks || exists i :: 512 * bad <= i < 512 * bad + 512 && boot.region[i] != 0xff
    ensures BlankError(boot, chunk) == if bad in boot.badChunks then OtherError(bad) else InvalidState
    decreases bad - chunk
  {
    if chunk < bad {
      BlankErrorFirst(boot, chunk + 1, bad);
    }
  }

  function Rows(table: seq<Partition>): (found: seq<Option<Partition>>)
    ensures |found| == |table| && forall k :: 0 <= k < |table| ==> found[k] == Some(table[k])
  {
    seq(|table|, k requires 0 <= k < |table| => Some(table[k]))
  }

  /** A table whose rows lie in the flash, aligned and apart, with at most one for the gateway. */
  predicate WellLaid(table: seq<Partition>, flashSize: nat) {
    && |table| <= 32
    && (forall k :: 0 <= k < |table| ==>
          && table[k].primary && table[k].size > 0 && table[k].address % 4096 == 0 && table[k].size % 4096 == 0
          && table[k].address + table[k].size <= flashSize)
    && (forall j, k :: 0 <= j < k < |table| ==>
          && !Overlap(table[k].address, table[k].size, table[j].address, table[j].size)
          && (table[j].name == LABEL ==> table[k].name != LABEL))
  }

  /** The row of `table` that is labelled for the gateway, if there is one. */
  function GatewayRow(table: seq<Partition>): (p: Option<Partition>)
    ensures p.None? <==> forall k :: 0 <= k < |table| ==> table[k].name != LABEL
  {
    if table == [] then None
    else
      var last := table[|table| - 1];
      if last.name == LABEL then Some(last) else GatewayRow(table[..|table| - 1])
  }

  lemma WellLaidRow(table: seq<Partition>, last: Partition, flashSize: nat)
    requires WellLaid(table + [last], flashSize)
    ensures WellLaid(table, flashSize)
    ensures RowError(Layout(table, GatewayRow(table)), Some(last), flashSize) == EspOk
  {
    var longer := table + [last];
    assert longer[|table|] == last && forall k :: 0 <= k < |table| ==> longer[k] == table[k];
  }

  lemma LastIsPrimary(table: seq<Partition>, last: Partition, flashSize: nat)
    requires WellLaid(table + [last], flashSize)
    ensures last.primary
  {
    assert (table + [last])[|table|] == last;
  }

  lemma {:induction false} WellLaidAccepted(table: seq<Partition>, flashSize: nat)
    requires WellLaid(table, flashSize)
    ensures Inventory(Rows(table), flashSize) == (EspOk, Layout(table, GatewayRow(table)))
  {
    hide RowError, WellLaid;
    if table != [] {
      var prefix, last := table[..|table| - 1], table[|table| - 1];
      assert prefix + [last] == table;
      WellLaidRow(prefix, last, flashSize);
      WellLaidAccepted(prefix, flashSize);
      assert Rows(table) == Rows(prefix) + [Some(last)];
      InventoryGrows(Rows(prefix), last, flashSize);
      LastIsPrimary(prefix, last, flashSize);
    }
  }

  lemma ExactAt(layout: Layout, kind: Kind, address: nat, size: nat, name: Option<string>, i: nat)
    requires i < |layout.items| && Candidate(layout.items[i], kind, name)
    requires layout.items[i].address == address && layout.items[i].size == size && !layout.items[i].readonly
    requires forall j :: 0 <= j < |layout.items| && j != i ==> !Candidate(layout.items[j], kind, name)
    ensures Exact(layout, kind, address, size, name)
  {
  }

  lemma FactoryTableIsExact(layout: Layout)
    requires layout.items == FactoryTable()
    ensures FactoryLayout(layout)
  {
    hide Exact;
    ExactAt(layout, AppFactory, 0x10000, 0x400000, None, 2);
    ExactAt(layout, DataNvs, 0x9000, 0x6000, Some("nvs"), 0);
    ExactAt(layout, DataPhy, 0xf000, 0x1000, None, 1);
  }

  /** A board with the factory table: its storage is found in the table, validated and used. */
  lemma FactoryBoardStarts(marker: Option<seq<byte>>, boot: Boot)
    requires boot.chipPresent && boot.sizeError == EspOk && boot.found == Rows(FactoryTable())
    requires boot.flashSize >= 0x450000 && |boot.region| == REGION_SIZE
    ensures Prepared(marker, boot) == Booted(Finished(EspOk), marker, false)
  {
    WellLaidAccepted(FactoryTable(), boot.flashSize);
    var layout := Inventory(boot.found, boot.flashSize).1;
    FactoryTableIsExact(layout);
    hide Inventory, FactoryLayout, OtaLayout, WellLaid, Rows;
    assert layout.gateway == Some(FactoryTable()[3]);
  }

  lemma OtaTableIsWellLaid(listed: bool, flashSize: nat)
    requires flashSize >= 0x860000
    ensures WellLaid(OtaTable(listed), flashSize)
  {
  }

  lemma OtaTableGateway(listed: bool)
    ensures GatewayRow(OtaTable(listed)) == if listed then Some(OtaTable(true)[5]) else None
  {
    if listed {
      assert OtaTable(true)[|OtaTable(true)| - 1].name == LABEL;
    }
  }

  lemma OtaTableIsExact(listed: bool, layout: Layout)
    requires layout.items == OtaTable(listed)
    ensures OtaLayout(layout)
  {
    hide Exact;
    ExactAt(layout, AppOta0, 0x20000, 0x400000, None, 3);
    ExactAt(layout, AppOta1, 0x420000, 0x400000, None, 4);
    ExactAt(layout, DataNvs, 0x9000, 0x6000, Some("nvs"), 0);
    ExactAt(layout, DataOta, 0xf000, 0x2000, None, 1);
    ExactAt(layout, DataPhy, 0x11000, 0x1000, None, 2);
  }

  lemma OtaTableQualifies(listed: bool, flashSize: nat)
    requires flashSize >= 0x860000
    ensures var (error, layout) := Inventory(Rows(OtaTable(listed)), flashSize);
      && error == EspOk && layout.items == OtaTable(listed) && OtaLayout(layout)
      && layout.gateway == if listed then Some(OtaTable(true)[5]) else None
  {
    hide WellLaid, OtaLayout, OtaTable, Inventory, Rows, GatewayRow;
    OtaTableIsWellLaid(listed, flashSize);
    OtaTableGateway(listed);
    WellLaidAccepted(OtaTable(listed), flashSize);
    OtaTableIsExact(listed, Inventory(Rows(OtaTable(listed)), flashSize).1);
  }

  /** A board with the two-slot table that lists the region uses it. */
  lemma OtaBoardStarts(marker: Option<seq<byte>>, boot: Boot)
    requires boot.chipPresent && boot.sizeError == EspOk && boot.found == Rows(OtaTable(true))
    requires boot.flashSize >= 0x860000 && |boot.region| == REGION_SIZE
    ensures Prepared(marker, boot) == Booted(Finished(EspOk), marker, false)
  {
    OtaTableQualifies(true, boot.flashSize);
    hide OtaLayout, FactoryLayout, Inventory;
  }

  /** A board with the older two-slot table, undisturbed: the region is claimed when it is blank, registered
      when it is claimed, and otherwise left alone with an error. */
  lemma OlderBoardStarts(marker: Option<seq<byte>>, boot: Boot)
    requires boot.chipPresent && boot.sizeError == EspOk && boot.found == Rows(OtaTable(false))
    requires boot.flashSize >= 0x860000 && |boot.region| == REGION_SIZE && Undisturbed(boot)
    ensures Prepared(marker, boot) ==
      if marker == Some(OWNERSHIP) || (marker.None? && SeenBlank(boot))
      then Booted(Finished(EspOk), Some(OWNERSHIP), true)
      else Booted(Finished(if marker.Some? then InvalidState else BlankError(boot, 0)), marker, false)
    ensures marker.None? && !SeenBlank(boot) ==> BlankError(boot, 0) != EspOk
  {
    OtaTableQualifies(false, boot.flashSize);
    var layout := Inventory(boot.found, boot.flashSize).1;
    assert ClearOfAll(layout);
    hide OtaLayout, FactoryLayout, Inventory, BlankError, ClearOfAll;
    BlankErrorExact(boot, 0);
  }
}
