/**
 The check that main/gateway_bacnet.c runs on a point catalog before it touches the BACnet stack, the
 state-text buffer it then fills, and the proof that every accepted custom map passes both.
 */
module Catalog {
  import opened Base
  import opened CsvReader
  import CustomPoint
  import CustomMap
  import CustomMapParse
  import CustomPoll

  const MAX_POINTS: nat := 256
  const POINT_NAME_MAX: nat := 95
  const POINT_DESCRIPTION_MAX: nat := 511
  const STATE_NAME_MAX: nat := 63
  const MAX_STATES: nat := 64
  const STATE_TEXT_BYTES: nat := 1024
  const MAX_INSTANCE: nat := 4194303
  const DIAGNOSTIC_BASE: nat := 9001
  const DEVICE_NAME_MAX: nat := 95

  /** What the catalog check reads of `ats_point_def_t`; an absent text is NULL. */
  datatype Entry = Entry(objectType: nat, instance: nat, name: Option<string>, description: Option<string>,
                         states: Option<seq<Option<string>>>, stateCount: nat)

  /** An entry whose state table is as long as it claims. */
  predicate WellFormed(e: Entry) { e.states.Some? ==> |e.states.value| == e.stateCount }

  predicate ValidString(s: Option<string>, maximum: nat, nonempty: bool) {
    s.Some? && (nonempty ==> s.value != "") && |s.value| <= maximum
  }

  predicate KnownType(t: nat) { t == 0 || t == 3 || t == 13 || t == 40 }

  /** Identifier, name and description of one entry. */
  predicate ValidEntry(e: Entry, deviceName: string) {
    && KnownType(e.objectType) && e.instance < MAX_INSTANCE
    && !(DIAGNOSTIC_BASE <= e.instance < DIAGNOSTIC_BASE + 4)
    && ValidString(e.name, POINT_NAME_MAX, true)
    && (e.description.Some? ==> ValidString(e.description, POINT_DESCRIPTION_MAX, false))
    && !("Gateway-" <= e.name.value) && e.name.value != deviceName
  }

  /** Bytes of the first `n` labels, each with its terminator. */
  function LabelBytes(states: seq<Option<string>>, n: nat): (bytes: nat)
    requires n <= |states| && forall k :: 0 <= k < n ==> states[k].Some?
    ensures bytes >= n
  {
    if n == 0 then 0 else LabelBytes(states, n - 1) + |states[n - 1].value| + 1
  }

  /** Labels present, bounded, different, and together small enough for the state-text list. */
  predicate ValidStates(states: seq<Option<string>>) {
    && (forall k :: 0 <= k < |states| ==> ValidString(states[k], STATE_NAME_MAX, true))
    && (forall j, k :: 0 <= j < k < |states| ==> states[j] != states[k])
    && 1 + LabelBytes(states, |states|) <= STATE_TEXT_BYTES
  }

  predicate ValidStateTable(e: Entry)
    requires WellFormed(e)
  {
    if e.objectType == 13 then 1 <= e.stateCount <= MAX_STATES && e.states.Some? && ValidStates(e.states.value)
    else e.stateCount == 0 && e.states.None?
  }

  predicate SameObject(a: Entry, b: Entry) {
    a.name == b.name || (a.objectType == b.objectType && a.instance == b.instance)
  }

  /** What a publishable catalog is. */
  predicate ValidCatalog(entries: seq<Entry>, deviceName: string)
    requires forall i :: 0 <= i < |entries| ==> WellFormed(entries[i])
  {
    && 1 <= |entries| <= MAX_POINTS
    && (forall i :: 0 <= i < |entries| ==> ValidEntry(entries[i], deviceName) && ValidStateTable(entries[i]))
    && (forall i, j :: 0 <= i < j < |entries| ==> !SameObject(entries[j], entries[i]))
  }

  /** Analog, binary and multi-state inputs and character strings, below the BACnet wildcard and outside the
      four diagnostic instances; a name of 1 to 95 characters that is not reserved and not the device's. */
  predicate EntryRules(e: Entry, deviceName: string) {
    && e.objectType in {0, 3, 13, 40} && e.instance <= 4194302 && e.instance !in {9001, 9002, 9003, 9004}
    && e.name.Some? && 1 <= |e.name.value| <= 95 && e.name.value != deviceName
    && (|e.name.value| >= 8 ==> e.name.value[..8] != "Gateway-")
    && (e.description.Some? ==> |e.description.value| <= 511)
  }

  /** A multi-state input has 1 to 64 different labels of 1 to 63 characters, at most 1023 bytes with their
      terminators; nothing else has labels. */
  predicate StateRules(e: Entry)
    requires WellFormed(e)
  {
    if e.objectType != 13 then e.stateCount == 0 && e.states.None?
    else
      && e.states.Some? && 1 <= |e.states.value| <= 64
      && (forall k :: 0 <= k < |e.states.value| ==>
            e.states.value[k].Some? && 1 <= |e.states.value[k].value| <= 63)
      && (forall j, k :: 0 <= j < k < |e.states.value| ==> e.states.value[j].value != e.states.value[k].value)
      && LabelBytes(e.states.value, |e.states.value|) <= 1023
  }

  lemma EntryIsValid(e: Entry, deviceName: string)
    requires WellFormed(e)
    ensures ValidEntry(e, deviceName) <==> EntryRules(e, deviceName)
    ensures ValidStateTable(e) <==> StateRules(e)
  {
    if e.name.Some? && |e.name.value| >= 8 {
      assert "Gateway-" <= e.name.value <==> e.name.value[..8] == "Gateway-";
    }
  }

  /** The same, rule by rule: what an installer reads in the limits of a catalog. */
  lemma CatalogRules(entries: seq<Entry>, deviceName: string)
    requires forall i :: 0 <= i < |entries| ==> WellFormed(entries[i])
    ensures ValidCatalog(entries, deviceName) <==>
      && 1 <= |entries| <= 256
      && (forall i :: 0 <= i < |entries| ==> EntryRules(entries[i], deviceName) && StateRules(entries[i]))
      && forall i, j :: 0 <= i < |entries| && 0 <= j < |entries| && i != j ==>
           && entries[i].name != entries[j].name
           && (entries[i].objectType == entries[j].objectType ==> entries[i].instance != entries[j].instance)
  {
    if && 1 <= |entries| <= 256
       && forall i :: 0 <= i < |entries| ==> EntryRules(entries[i], deviceName) && StateRules(entries[i]) {
      forall i | 0 <= i < |entries| ensures ValidEntry(entries[i], deviceName) && ValidStateTable(entries[i]) {
        assert EntryRules(entries[i], deviceName) && StateRules(entries[i]);
        EntryIsValid(entries[i], deviceName);
      }
    }
    if ValidCatalog(entries, deviceName) {
      forall i | 0 <= i < |entries| ensures EntryRules(entries[i], deviceName) && StateRules(entries[i]) {
        EntryIsValid(entries[i], deviceName);
      }
      forall i, j | 0 <= i < |entries| && 0 <= j < |entries| && i != j
        ensures entries[i].name != entries[j].name
        ensures entries[i].objectType == entries[j].objectType ==> entries[i].instance != entries[j].instance
      {
        assert !SameObject(entries[Max(i, j)], entries[Min(i, j)]);
      }
    }
  }

  lemma {:induction false} LabelBytesGrow(states: seq<Option<string>>, m: nat, n: nat)
    requires m <= n <= |states| && forall k :: 0 <= k < n ==> states[k].Some?
    ensures LabelBytes(states, m) <= LabelBytes(states, n)
  {
    if m < n {
      LabelBytesGrow(states, m, n - 1);
    }
  }

  /** The label loops of `valid_catalog`. */
  method CheckStates(states: seq<Option<string>>) returns (ok: bool)
    ensures ok <==> ValidStates(states)
  {
    var bytes := 1;
    for n := 0 to |states|
      invariant forall k :: 0 <= k < n ==> ValidString(states[k], STATE_NAME_MAX, true)
      invariant forall j, k :: 0 <= j < k < n ==> states[j] != states[k]
      invariant bytes == 1 + LabelBytes(states, n) <= STATE_TEXT_BYTES
    {
      if !ValidString(states[n], STATE_NAME_MAX, true) {
        return false;
      }
      bytes := bytes + |states[n].value| + 1;
      if bytes > STATE_TEXT_BYTES {
        if forall k :: 0 <= k < |states| ==> ValidString(states[k], STATE_NAME_MAX, true) {
          LabelBytesGrow(states, n + 1, |states|);
        }
        return false;
      }
      for previous := 0 to n
        invariant forall k :: 0 <= k < previous ==> states[k] != states[n]
      {
        if states[n] == states[previous] {
          return false;
        }
      }
    }
    return true;
  }

  /** `valid_catalog`. */
  method CheckCatalog(entries: seq<Entry>, deviceName: string) returns (ok: bool)
    requires forall i :: 0 <= i < |entries| ==> WellFormed(entries[i])
    ensures ok <==> ValidCatalog(entries, deviceName)
  {
    if |entries| == 0 || |entries| > MAX_POINTS {
      return false;
    }
    for i := 0 to |entries|
      invariant forall k :: 0 <= k < i ==> ValidEntry(entries[k], deviceName) && ValidStateTable(entries[k])
      invariant forall j, k :: 0 <= j < k < i ==> !SameObject(entries[k], entries[j])
    {
      var e := entries[i];
      if !ValidEntry(e, deviceName) {
        return false;
      }
      for n := 0 to i
        invariant forall k :: 0 <= k < n ==> !SameObject(e, entries[k])
      {
        if e.name == entries[n].name || (e.objectType == entries[n].objectType && e.instance == entries[n].instance) {
          return false;
        }
      }
      if e.objectType == 13 {
        if e.stateCount == 0 || e.stateCount > MAX_STATES || e.states.None? {
          return false;
        }
        var good := CheckStates(e.states.value);
        if !good {
          return false;
        }
      } else if e.stateCount != 0 || e.states.Some? {
        return false;
      }
    }
    return true;
  }

  // ----- the state-text buffer -----

  /** Labels one after the other, each with its NUL. */
  function Packed(states: seq<Option<string>>, n: nat): (s: string)
    requires n <= |states| && forall k :: 0 <= k < n ==> states[k].Some?
    ensures |s| == LabelBytes(states, n)
  {
    if n == 0 then "" else Packed(states, n - 1) + states[n - 1].value + ['\0']
  }

  /** The state-list part of `create_point`: fills a zeroed buffer, failing when a label is missing or
      the list and its final NUL do not fit. */
  method FillStates(states: seq<Option<string>>, buffer: array<char>) returns (ok: bool)
    requires buffer.Length == STATE_TEXT_BYTES
    modifies buffer
    ensures ok <==>
      && states != [] && (forall k :: 0 <= k < |states| ==> states[k].Some?)
      && LabelBytes(states, |states|) < STATE_TEXT_BYTES
    ensures ok ==>
      && buffer[..LabelBytes(states, |states|)] == Packed(states, |states|)
      && forall i :: LabelBytes(states, |states|) <= i < STATE_TEXT_BYTES ==> buffer[i] == '\0'
  {
    forall i | 0 <= i < STATE_TEXT_BYTES {
      buffer[i] := '\0';
    }
    if states == [] {
      return false;
    }
    var used := 0;
    for n := 0 to |states|
      invariant forall k :: 0 <= k < n ==> states[k].Some?
      invariant used == LabelBytes(states, n) < STATE_TEXT_BYTES
      invariant buffer[..used] == Packed(states, n)
      invariant forall i :: used <= i < STATE_TEXT_BYTES ==> buffer[i] == '\0'
    {
      if states[n].None? {
        return false;
      }
      var text := states[n].value;
      var length := |text| + 1;
      if used + length >= STATE_TEXT_BYTES {
        if forall k :: 0 <= k < |states| ==> states[k].Some? {
          LabelBytesGrow(states, n + 1, |states|);
        }
        return false;
      }
      ghost var filled := buffer[..used];
      forall i | used <= i < used + |text| {
        buffer[i] := text[i - used];
      }
      buffer[used + |text|] := '\0';
      assert buffer[..used + length] == filled + text + ['\0'];
      used := used + length;
    }
    return true;
  }

  /** Every state table the catalog check accepts fits the buffer, so `FillStates` cannot fail later, when
      the stack has already been changed. */
  lemma CheckedStatesFit(e: Entry)
    requires WellFormed(e) && e.objectType == 13 && ValidStateTable(e)
    ensures e.states.value != [] && (forall k :: 0 <= k < |e.states.value| ==> e.states.value[k].Some?)
    ensures LabelBytes(e.states.value, |e.states.value|) < STATE_TEXT_BYTES
  {
  }

  // ----- accepted custom maps are publishable -----

  /** The name rules of `gateway_config_parse`: a device name of 1 to 95 printable characters, outside the
      reserved prefix, different from every point name. */
  predicate AcceptedDeviceName(name: string, points: seq<CustomPoint.Point>) {
    && 1 <= |name| <= DEVICE_NAME_MAX && Printable(name) && !CustomMap.GatewayPrefix(name)
    && forall i :: 0 <= i < |points| ==> points[i].name != name
  }

  lemma DeviceNameRules(name: string, points: seq<CustomPoint.Point>)
    ensures AcceptedDeviceName(name, points) <==>
      && 1 <= |name| <= 95 && (forall k :: 0 <= k < |name| ==> ' ' <= name[k] <= '~')
      && (|name| >= 8 ==> name[..8] != "Gateway-") && forall p :: p in points ==> p.name != name
  {
    if |name| >= 8 {
      assert "Gateway-" <= name <==> name[..8] == "Gateway-";
    }
  }

  method CheckDeviceName(name: string, points: seq<CustomPoint.Point>) returns (ok: bool)
    ensures ok <==> AcceptedDeviceName(name, points)
  {
    if name == "" || |name| > DEVICE_NAME_MAX {
      return false;
    }
    for i := 0 to |name|
      invariant Printable(name[..i])
    {
      if name[i] < ' ' || name[i] > '~' {
        return false;
      }
    }
    assert name[..|name|] == name;
    if CustomMap.GatewayPrefix(name) {
      return false;
    }
    for i := 0 to |points|
      invariant forall k :: 0 <= k < i ==> points[k].name != name
    {
      if points[i].name == name {
        return false;
      }
    }
    return true;
  }

  function Labels(states: seq<string>): (labels: seq<Option<string>>)
    ensures |labels| == |states| && forall k :: 0 <= k < |states| ==> labels[k] == Some(states[k])
  {
    seq(|states|, k requires 0 <= k < |states| => Some(states[k]))
  }

  /** The definition a custom point publishes: only multi-state inputs have a state table. */
  function EntryOf(p: CustomPoint.Point): (e: Entry)
    ensures WellFormed(e)
  {
    Entry(p.objectType, p.instance, Some(p.name), Some(p.description),
          if p.objectType == CustomPoint.OBJECT_MSI then Some(Labels(p.states)) else None,
          if p.objectType == CustomPoint.OBJECT_MSI then |p.states| else 0)
  }

  function EntriesOf(points: seq<CustomPoint.Point>): (entries: seq<Entry>)
    ensures |entries| == |points|
    ensures forall i :: 0 <= i < |points| ==> entries[i] == EntryOf(points[i])
  {
    seq(|points|, i requires 0 <= i < |points| => EntryOf(points[i]))
  }

  lemma {:induction false} LabelBytesStored(states: seq<string>, n: nat)
    requires n <= |states|
    ensures LabelBytes(Labels(states), n) == CustomMap.StoredAll(states[..n])
  {
    if n != 0 {
      LabelBytesStored(states, n - 1);
      assert states[..n][..n - 1] == states[..n - 1];
    }
  }

  lemma GoodPointIsPublishable(p: CustomPoint.Point, deviceName: string)
    requires CustomMapParse.GoodPoint(p) && p.name != deviceName
    ensures ValidEntry(EntryOf(p), deviceName) && ValidStateTable(EntryOf(p))
  {
    LabelBytesStored(p.states, |p.states|);
    assert p.states[..|p.states|] == p.states;
  }

  /** The state lists of all multi-state entries fit the buffer that lists are built in. */
  predicate StateListsFit(entries: seq<Entry>) {
    forall i :: 0 <= i < |entries| && entries[i].objectType == 13 ==>
      && entries[i].states.Some?
      && (forall k :: 0 <= k < |entries[i].states.value| ==> entries[i].states.value[k].Some?)
      && LabelBytes(entries[i].states.value, |entries[i].states.value|) < STATE_TEXT_BYTES
  }

  lemma GoodPointsArePublishable(points: seq<CustomPoint.Point>, deviceName: string)
    requires 1 <= |points| && CustomPoll.ValidMap(points) && CustomMapParse.Distinct(points)
    requires forall i :: 0 <= i < |points| ==> CustomMapParse.GoodPoint(points[i])
    requires AcceptedDeviceName(deviceName, points)
    ensures ValidCatalog(EntriesOf(points), deviceName) && StateListsFit(EntriesOf(points))
  {
    hide CustomMapParse.GoodPoint, ValidEntry;
    forall i | 0 <= i < |points|
      ensures ValidEntry(EntryOf(points[i]), deviceName) && ValidStateTable(EntryOf(points[i]))
    {
      GoodPointIsPublishable(points[i], deviceName);
    }
  }

  /** The entry publishes the point: its object, its texts and, for a multi-state input, its state labels. */
  predicate Publishes(e: Entry, p: CustomPoint.Point) {
    && e.objectType == p.objectType && e.instance == p.instance
    && e.name == Some(p.name) && e.description == Some(p.description)
    && if p.objectType == 13 then
         && e.stateCount == |p.states| && e.states.Some? && |e.states.value| == |p.states|
         && forall k :: 0 <= k < |p.states| ==> e.states.value[k] == Some(p.states[k])
       else e.stateCount == 0 && e.states.None?
  }

  /** Every CSV text that `custom_map_parse` accepts, with a device name that `gateway_config_parse`
      accepts beside it, is published point by point, passes the catalog check, and all its state lists fit
      their buffer. */
  lemma AcceptedMapsArePublishable(csv: string, strtod: CustomMap.Strtod, deviceName: string)
    requires CustomMapParse.Parse(csv, strtod).Parsed?
    requires AcceptedDeviceName(deviceName, CustomMapParse.Parse(csv, strtod).points)
    ensures var entries := EntriesOf(CustomMapParse.Parse(csv, strtod).points);
      ValidCatalog(entries, deviceName) && StateListsFit(entries)
    ensures var points := CustomMapParse.Parse(csv, strtod).points;
      |EntriesOf(points)| == |points| && forall i :: 0 <= i < |points| ==> Publishes(EntriesOf(points)[i], points[i])
  {
    CustomMapParse.AcceptedMapsAreGood(csv, strtod);
    hide CustomMapParse.Parse, CustomMapParse.GoodPoint, StateListsFit, ValidCatalog;
    GoodPointsArePublishable(CustomMapParse.Parse(csv, strtod).points, deviceName);
  }
}
