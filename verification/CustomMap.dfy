/**
 Custom maps (main/custom_map.c): a CSV text becomes at most 128 points whose names, descriptions
 and state labels live in one bounded string pool. Parsing is all or nothing.
 */
module CustomMap {
  import opened Base
  import opened Decimal
  import opened CsvReader
  import opened CustomPoint

  const MAX_POINTS: nat := 128
  const MAX_CSV_BYTES: nat := 32768
  const MAX_STATES: nat := 16
  const MAX_TOTAL_STATES: nat := 512
  const POOL_BYTES: nat := MAX_CSV_BYTES + 1
  const NO_UNITS: nat := 95
  const COLUMNS: seq<string> := [
    "instance", "name", "object_type", "function", "address", "data_type", "byte_order",
    "scale", "offset", "units", "bit", "states", "length", "poll_ms", "description"]
  /** Names with commas between them. */
  function Commas(names: seq<string>): string {
    if names == [] then "" else if |names| == 1 then names[0] else names[0] + "," + Commas(names[1..])
  }

  const HEADER: string := Commas(COLUMNS)

  datatype Reason =
    | CsvSize | BadHeader | Syntax | NoPoints | TooManyPoints
    | BadInstance | BadName | BadDescription | BadObjectType | DuplicateName | DuplicateObject
    | BadFunction | BadAddress | BadDataType | BitInputNeedsBool | BoolNeedsBitInput | AsciiMismatch
    | BinaryNeedsBit | StateNeedsInteger | AnalogNeedsNumber | BadScale | ScaleNotAllowed
    | BadUnits | UnitsNotAllowed | BadBit | BitNotAllowed | BadLength | LengthNotAllowed | PastEnd
    | OrderNotEmpty | BadOrder32 | BadOrder16 | BadPoll | StringStorage
    | StatesMissing | BadStates | DuplicateState | StatesNotAllowed

  datatype Checked<T> = Accepted(value: T) | Rejected(why: Reason)

  /** `strtod` on a whole field: None unless all of it is a finite number. */
  type Strtod = string -> Option<real>

  // ----- decimal fields -----

  /** A decimal number within bounds, leading zeros allowed, nothing else in the field. */
  function ParseInteger(s: string, minimum: nat, maximum: nat): Option<nat> {
    if s != "" && Digits(s) && minimum <= DecimalValue(s) <= maximum then Some(DecimalValue(s)) else None
  }

  lemma {:induction false} PrefixIsSmaller(s: string, k: nat)
    requires Digits(s) && k <= |s|
    ensures DecimalValue(s[..k]) <= DecimalValue(s)
  {
    if k == |s| {
      assert s[..k] == s;
    } else {
      PrefixIsSmaller(s[..|s| - 1], k);
      assert s[..|s| - 1][..k] == s[..k];
    }
  }

  /** `integer`: the loop stops before an intermediate value can pass `maximum`, so the 32-bit
      accumulator never wraps. */
  method Integer(s: string, minimum: nat, maximum: nat) returns (r: Option<nat>)
    requires maximum < U32_RANGE
    ensures r == ParseInteger(s, minimum, maximum) && (r.Some? ==> minimum <= r.value <= maximum)
  {
    if s == "" {
      return None;
    }
    var n := 0;
    for i := 0 to |s|
      invariant Digits(s[..i]) && n == DecimalValue(s[..i]) <= maximum
    {
      if s[i] < '0' || s[i] > '9' {
        return None;
      }
      var digit := (s[i] - '0') as nat;
      assert s[..i + 1][..i] == s[..i];
      if digit > maximum || n > (maximum - digit) / 10 {
        if Digits(s) {
          PrefixIsSmaller(s, i + 1);
        }
        return None;
      }
      assert n * 10 + digit < U32_RANGE;
      n := n * 10 + digit;
    }
    assert s[..|s|] == s;
    return if n < minimum then None else Some(n);
  }

  // ----- one row -----

  function ObjectType(s: string): Option<nat> {
    if s == "AI" then Some(OBJECT_AI)
    else if s == "BI" then Some(OBJECT_BI)
    else if s == "MSI" then Some(OBJECT_MSI)
    else if s == "CSV" then Some(OBJECT_CSV)
    else None
  }

  function DataTypeOf(s: string): Option<DataType> {
    if s == "u16" then Some(U16)
    else if s == "s16" then Some(S16)
    else if s == "u32" then Some(U32)
    else if s == "s32" then Some(S32)
    else if s == "f32" then Some(F32)
    else if s == "bit" then Some(Bit)
    else if s == "ascii" then Some(Ascii)
    else if s == "bool" then Some(Bool)
    else None
  }

  predicate Integral(t: DataType) { t.U16? || t.S16? || t.U32? || t.S32? }

  predicate Wide(t: DataType) { t.U32? || t.S32? || t.F32? }

  function Order32(s: string): Option<nat> {
    if s == "ABCD" then Some(0) else if s == "BADC" then Some(1)
    else if s == "CDAB" then Some(2) else if s == "DCBA" then Some(3) else None
  }

  function Order16(s: string): Option<nat> {
    if s == "AB" then Some(0) else if s == "BA" then Some(1) else None
  }

  predicate ReservedInstance(n: nat) { 9001 <= n <= 9004 }

  predicate GatewayPrefix(s: string) { "Gateway-" <= s }

  /** Instance and object type, once the identifying fields are in order. */
  function Identity(f: seq<string>): Checked<(nat, nat)>
    requires |f| == FIELD_COUNT
  {
    var instance := ParseInteger(f[0], 1, 4194302);
    if instance.None? || ReservedInstance(instance.value) then Rejected(BadInstance)
    else if f[1] == "" || |f[1]| > 63 || GatewayPrefix(f[1]) then Rejected(BadName)
    else if |f[14]| > 127 then Rejected(BadDescription)
    else if ObjectType(f[2]).None? then Rejected(BadObjectType)
    else Accepted((instance.value, ObjectType(f[2]).value))
  }

  /** Function, address and data type, once they suit each other and the object. */
  function Access(f: seq<string>, objectType: nat): (r: Checked<(nat, nat, DataType)>)
    requires |f| == FIELD_COUNT
  {
    var function_ := ParseInteger(f[3], 1, 4);
    if function_.None? then Rejected(BadFunction) else
    var address := ParseInteger(f[4], 0, 65535);
    if address.None? then Rejected(BadAddress) else
    var kind := DataTypeOf(f[5]);
    if kind.None? then Rejected(BadDataType) else
    var t := kind.value;
    if function_.value <= 2 && (!t.Bool? || objectType != OBJECT_BI) then Rejected(BitInputNeedsBool)
    else if function_.value >= 3 && t.Bool? then Rejected(BoolNeedsBitInput)
    else if (objectType == OBJECT_CSV) != t.Ascii? then Rejected(AsciiMismatch)
    else if objectType == OBJECT_BI && !t.Bit? && !t.Bool? then Rejected(BinaryNeedsBit)
    else if objectType == OBJECT_MSI && !Integral(t) then Rejected(StateNeedsInteger)
    else if objectType == OBJECT_AI && !Integral(t) && !t.F32? then Rejected(AnalogNeedsNumber)
    else Accepted((function_.value, address.value, t))
  }

  /** How the point is read: everything of the row but its texts. */
  function Encoding(f: seq<string>, instance: nat, objectType: nat, strtod: Strtod): (r: Checked<Point>)
    requires |f| == FIELD_COUNT
    ensures r.Accepted? ==> ValidPoint(r.value) && r.value.states == []
  {
    var access := Access(f, objectType);
    if access.Rejected? then Rejected(access.why) else
    var (function_, address, t) := access.value;
    var scale := if f[7] == "" then Some(1.0) else strtod(f[7]);
    var scaleOffset := if f[8] == "" then Some(0.0) else strtod(f[8]);
    if scale.None? || scaleOffset.None? then Rejected(BadScale)
    else if (t.Bit? || t.Bool? || t.Ascii?) && (scale.value != 1.0 || scaleOffset.value != 0.0)
    then Rejected(ScaleNotAllowed) else
    var units := if f[9] == "" then Some(NO_UNITS) else ParseInteger(f[9], 0, 65535);
    if units.None? then Rejected(BadUnits)
    else if objectType != OBJECT_AI && units.value != NO_UNITS then Rejected(UnitsNotAllowed) else
    var bit := if t.Bit? then ParseInteger(f[10], 0, 15) else Some(0);
    if bit.None? then Rejected(BadBit)
    else if !t.Bit? && f[10] != "" then Rejected(BitNotAllowed) else
    var length := if t.Ascii? then ParseInteger(f[12], 1, 2 * MAX_POINT_WORDS) else Some(0);
    if length.None? then Rejected(BadLength)
    else if !t.Ascii? && f[12] != "" then Rejected(LengthNotAllowed) else
    var wordCount := WordsFor(t, length.value);
    if wordCount + address > 65536 then Rejected(PastEnd)
    else if t.Bool? && f[6] != "" then Rejected(OrderNotEmpty) else
    var order := if t.Bool? then Some(0) else if Wide(t) then Order32(f[6]) else Order16(f[6]);
    if order.None? then Rejected(if Wide(t) then BadOrder32 else BadOrder16) else
    var pollMs := ParseInteger(f[13], 1000, 3600000);
    if pollMs.None? then Rejected(BadPoll)
    else Accepted(Point(instance, "", "", objectType, units.value, [], address, wordCount, bit.value,
                        t, function_, order.value, length.value, pollMs.value, scale.value, scaleOffset.value))
  }

  /** The first earlier point with the same name or object identifier. */
  function Duplicate(points: seq<Point>, name: string, objectType: nat, instance: nat): Option<Reason> {
    if points == [] then None
    else if points[0].name == name then Some(DuplicateName)
    else if points[0].objectType == objectType && points[0].instance == instance then Some(DuplicateObject)
    else Duplicate(points[1..], name, objectType, instance)
  }

  /** The labels of a states field: its parts between bars. */
  function Labels(s: string, i: nat, start: nat): (labels: seq<string>)
    requires start <= i <= |s|
    ensures labels != []
    decreases |s| - i
  {
    if i == |s| then [s[start..]]
    else if s[i] == '|' then [s[start..i]] + Labels(s, i + 1, i + 1)
    else Labels(s, i + 1, start)
  }

  function StateLabels(s: string): seq<string> { Labels(s, 0, 0) }

  /** Space a text takes in the pool. */
  function Stored(s: string): nat { |s| + 1 }

  function StoredAll(labels: seq<string>): nat {
    if labels == [] then 0 else StoredAll(labels[..|labels| - 1]) + Stored(labels[|labels| - 1])
  }

  /** The first objection to `labels`, the ones in `taken` already stored. */
  function StatesError(taken: seq<string>, labels: seq<string>, statesUsed: nat, stringsUsed: nat): Option<Reason>
    decreases |labels|
  {
    if labels == [] then None
    else
      var first := labels[0];
      if first == "" || |first| > 63 || |taken| == MAX_STATES || statesUsed == MAX_TOTAL_STATES then Some(BadStates)
      else if first in taken then Some(DuplicateState)
      else if Stored(first) > POOL_BYTES - stringsUsed then Some(StringStorage)
      else StatesError(taken + [first], labels[1..], statesUsed + 1, stringsUsed + Stored(first))
  }

  function PoolSize(points: seq<Point>): nat {
    if points == [] then 0
    else
      var p := points[|points| - 1];
      PoolSize(points[..|points| - 1]) + Stored(p.name) + Stored(p.description) + StoredAll(p.states)
  }

  /** The most that a row can store, whether it is accepted or not. */
  function RowSize(f: seq<string>): nat
    requires |f| == FIELD_COUNT
  {
    Stored(f[1]) + Stored(f[14]) + Stored(f[11])
  }

  function StateTotal(points: seq<Point>): nat {
    if points == [] then 0 else StateTotal(points[..|points| - 1]) + |points[|points| - 1].states|
  }

  /** The objections of a row that depend on what the map already holds, in the order they are raised. */
  function TextsAdded(points: seq<Point>, f: seq<string>, p: Point): Checked<Point>
    requires |f| == FIELD_COUNT
  {
    var used := PoolSize(points);
    if Stored(f[1]) + Stored(f[14]) > POOL_BYTES - used then Rejected(StringStorage)
    else if p.objectType == OBJECT_MSI then
      if f[11] == "" then Rejected(StatesMissing)
      else
        var labels := StateLabels(f[11]);
        var error := StatesError([], labels, StateTotal(points), used + Stored(f[1]) + Stored(f[14]));
        if error.Some? then Rejected(error.value)
        else Accepted(p.(name := f[1], description := f[14], states := labels))
    else if f[11] != "" then Rejected(StatesNotAllowed)
    else Accepted(p.(name := f[1], description := f[14]))
  }

  /** `add_row`: the point a row adds to `points`, or why it is rejected. */
  function AddedRow(points: seq<Point>, f: seq<string>, strtod: Strtod): Checked<Point>
    requires |f| == FIELD_COUNT
  {
    if |points| == MAX_POINTS then Rejected(TooManyPoints)
    else
      var identity := Identity(f);
      if identity.Rejected? then Rejected(identity.why)
      else
        var (instance, objectType) := identity.value;
        var duplicate := Duplicate(points, f[1], objectType, instance);
        if duplicate.Some? then Rejected(duplicate.value)
        else
          var p := Encoding(f, instance, objectType, strtod);
          if p.Rejected? then p else TextsAdded(points, f, p.value)
  }

  // ----- the code of a row up to its texts -----

  method ReadIdentity(f: seq<string>) returns (r: Checked<(nat, nat)>)
    requires |f| == FIELD_COUNT
    ensures r == Identity(f)
  {
    hide ParseInteger;
    var instance := Integer(f[0], 1, 4194302);
    if instance.None? || ReservedInstance(instance.value) {
      return Rejected(BadInstance);
    }
    if f[1] == "" || |f[1]| > 63 || GatewayPrefix(f[1]) {
      return Rejected(BadName);
    }
    if |f[14]| > 127 {
      return Rejected(BadDescription);
    }
    var objectType := ObjectType(f[2]);
    return if objectType.None? then Rejected(BadObjectType) else Accepted((instance.value, objectType.value));
  }

  method ReadAccess(f: seq<string>, objectType: nat) returns (r: Checked<(nat, nat, DataType)>)
    requires |f| == FIELD_COUNT
    ensures r == Access(f, objectType) && (r.Accepted? ==> r.value.1 < 0x1_0000)
  {
    hide ParseInteger, DataTypeOf, Integral;
    var function_ := Integer(f[3], 1, 4);
    if function_.None? {
      return Rejected(BadFunction);
    }
    var address := Integer(f[4], 0, 65535);
    if address.None? {
      return Rejected(BadAddress);
    }
    var kind := DataTypeOf(f[5]);
    if kind.None? {
      return Rejected(BadDataType);
    }
    var t := kind.value;
    if function_.value <= 2 && (!t.Bool? || objectType != OBJECT_BI) {
      return Rejected(BitInputNeedsBool);
    }
    if function_.value >= 3 && t.Bool? {
      return Rejected(BoolNeedsBitInput);
    }
    if (objectType == OBJECT_CSV) != t.Ascii? {
      return Rejected(AsciiMismatch);
    }
    if objectType == OBJECT_BI && !t.Bit? && !t.Bool? {
      return Rejected(BinaryNeedsBit);
    }
    if objectType == OBJECT_MSI && !Integral(t) {
      return Rejected(StateNeedsInteger);
    }
    if objectType == OBJECT_AI && !Integral(t) && !t.F32? {
      return Rejected(AnalogNeedsNumber);
    }
    return Accepted((function_.value, address.value, t));
  }

  /** A number that only some rows have. */
  method IntegerIf(present: bool, s: string, minimum: nat, maximum: nat, absent: nat) returns (r: Option<nat>)
    requires maximum < U32_RANGE
    ensures r == if present then ParseInteger(s, minimum, maximum) else Some(absent)
    ensures r.Some? && present ==> minimum <= r.value <= maximum
  {
    r := Some(absent);
    if present {
      r := Integer(s, minimum, maximum);
    }
  }

  /** How the point is read, the fields in the order in which the row is checked. */
  method ReadEncoding(f: seq<string>, instance: nat, objectType: nat, strtod: Strtod) returns (r: Checked<Point>)
    requires |f| == FIELD_COUNT
    ensures r == Encoding(f, instance, objectType, strtod)
  {
    hide ParseInteger, Access, Order16, Order32, ValidPoint;
    var access := ReadAccess(f, objectType);
    if access.Rejected? {
      return Rejected(access.why);
    }
    var (function_, address, t) := access.value;
    var scale := if f[7] == "" then Some(1.0) else strtod(f[7]);
    var scaleOffset := if f[8] == "" then Some(0.0) else strtod(f[8]);
    if scale.None? || scaleOffset.None? {
      return Rejected(BadScale);
    }
    if (t.Bit? || t.Bool? || t.Ascii?) && (scale.value != 1.0 || scaleOffset.value != 0.0) {
      return Rejected(ScaleNotAllowed);
    }
    var units := IntegerIf(f[9] != "", f[9], 0, 65535, NO_UNITS);
    if units.None? {
      return Rejected(BadUnits);
    }
    if objectType != OBJECT_AI && units.value != NO_UNITS {
      return Rejected(UnitsNotAllowed);
    }
    var bit := IntegerIf(t.Bit?, f[10], 0, 15, 0);
    if bit.None? {
      return Rejected(BadBit);
    }
    if !t.Bit? && f[10] != "" {
      return Rejected(BitNotAllowed);
    }
    var length := IntegerIf(t.Ascii?, f[12], 1, 2 * MAX_POINT_WORDS, 0);
    if length.None? {
      return Rejected(BadLength);
    }
    if !t.Ascii? && f[12] != "" {
      return Rejected(LengthNotAllowed);
    }
    var wordCount := WordsFor(t, length.value);
    if wordCount + address > 65536 {
      return Rejected(PastEnd);
    }
    if t.Bool? && f[6] != "" {
      return Rejected(OrderNotEmpty);
    }
    var order := if t.Bool? then Some(0) else if Wide(t) then Order32(f[6]) else Order16(f[6]);
    if order.None? {
      return Rejected(if Wide(t) then BadOrder32 else BadOrder16);
    }
    var pollMs := Integer(f[13], 1000, 3600000);
    if pollMs.None? {
      return Rejected(BadPoll);
    }
    return Accepted(Point(instance, "", "", objectType, units.value, [], address, wordCount, bit.value,
                          t, function_, order.value, length.value, pollMs.value, scale.value, scaleOffset.value));
  }

  // ----- the map in memory -----

  /** The C string at an offset of the pool. */
  function CString(pool: seq<char>, at: nat): (s: string)
    decreases |pool| - at
  {
    if at >= |pool| || pool[at] == '\0' then "" else [pool[at]] + CString(pool, at + 1)
  }

  predicate Terminated(pool: seq<char>) { pool != [] ==> pool[|pool| - 1] == '\0' }

  lemma {:induction false} CStringAt(pool: seq<char>, at: nat, s: string)
    requires at + |s| < |pool| && pool[at..at + |s|] == s && pool[at + |s|] == '\0' && '\0' !in s
    ensures CString(pool, at) == s
    decreases |s|
  {
    if s != "" {
      assert pool[at] == s[0];
      assert pool[at + 1..at + 1 + |s[1..]|] == s[1..];
      CStringAt(pool, at + 1, s[1..]);
    }
  }

  /** Appending to a terminated pool changes no string in it. */
  lemma {:induction false} CStringKept(pool: seq<char>, more: seq<char>, at: nat)
    requires Terminated(pool) && at < |pool|
    ensures CString(pool + more, at) == CString(pool, at)
    decreases |pool| - at
  {
    if pool[at] != '\0' {
      CStringKept(pool, more, at + 1);
    }
  }

  /** A point whose texts are offsets into the pool, and whose states are a range of the label table. */
  datatype Row = Row(p: Point, nameAt: nat, descriptionAt: nat, stateStart: nat, stateCount: nat)

  predicate ValidRow(r: Row, pool: seq<char>, stateAt: seq<nat>) {
    r.nameAt < |pool| && r.descriptionAt < |pool| && r.stateStart + r.stateCount <= |stateAt|
  }

  predicate ValidStates(stateAt: seq<nat>, pool: seq<char>) {
    forall k :: 0 <= k < |stateAt| ==> stateAt[k] < |pool|
  }

  function LabelsAt(pool: seq<char>, stateAt: seq<nat>): (labels: seq<string>)
    ensures |labels| == |stateAt|
    ensures forall k :: 0 <= k < |stateAt| ==> labels[k] == CString(pool, stateAt[k])
  {
    seq(|stateAt|, k requires 0 <= k < |stateAt| => CString(pool, stateAt[k]))
  }

  function Resolve(r: Row, pool: seq<char>, stateAt: seq<nat>): Point
    requires ValidRow(r, pool, stateAt)
  {
    r.p.(name := CString(pool, r.nameAt), description := CString(pool, r.descriptionAt),
         states := LabelsAt(pool, stateAt[r.stateStart..r.stateStart + r.stateCount]))
  }

  predicate ValidRows(rows: seq<Row>, pool: seq<char>, stateAt: seq<nat>) {
    forall i :: 0 <= i < |rows| ==> ValidRow(rows[i], pool, stateAt)
  }

  function Points(rows: seq<Row>, pool: seq<char>, stateAt: seq<nat>): (points: seq<Point>)
    requires ValidRows(rows, pool, stateAt)
    ensures |points| == |rows|
    ensures forall i :: 0 <= i < |rows| ==> points[i] == Resolve(rows[i], pool, stateAt)
  {
    seq(|rows|, i requires 0 <= i < |rows| => Resolve(rows[i], pool, stateAt))
  }

  lemma ResolveKept(r: Row, pool: seq<char>, stateAt: seq<nat>, more: seq<char>, moreStates: seq<nat>)
    requires Terminated(pool) && ValidRow(r, pool, stateAt) && ValidStates(stateAt, pool)
    ensures ValidRow(r, pool + more, stateAt + moreStates)
    ensures Resolve(r, pool + more, stateAt + moreStates) == Resolve(r, pool, stateAt)
  {
    CStringKept(pool, more, r.nameAt);
    CStringKept(pool, more, r.descriptionAt);
    var range := stateAt[r.stateStart..r.stateStart + r.stateCount];
    assert (stateAt + moreStates)[r.stateStart..r.stateStart + r.stateCount] == range;
    forall k | 0 <= k < |range| ensures CString(pool + more, range[k]) == CString(pool, range[k]) {
      CStringKept(pool, more, range[k]);
    }
    assert LabelsAt(pool + more, range) == LabelsAt(pool, range);
  }

  lemma PointsKept(rows: seq<Row>, pool: seq<char>, stateAt: seq<nat>, more: seq<char>, moreStates: seq<nat>)
    requires Terminated(pool) && ValidRows(rows, pool, stateAt) && ValidStates(stateAt, pool)
    ensures ValidRows(rows, pool + more, stateAt + moreStates)
    ensures Points(rows, pool + more, stateAt + moreStates) == Points(rows, pool, stateAt)
  {
    forall i | 0 <= i < |rows|
      ensures ValidRow(rows[i], pool + more, stateAt + moreStates)
      ensures Resolve(rows[i], pool + more, stateAt + moreStates) == Resolve(rows[i], pool, stateAt)
    {
      ResolveKept(rows[i], pool, stateAt, more, moreStates);
    }
  }

  lemma TwoTexts(pool: seq<char>, first: string, second: string)
    requires '\0' !in first && '\0' !in second
    ensures var both := pool + first + ['\0'] + second + ['\0'];
      && CString(both, |pool|) == first && CString(both, |pool| + |first| + 1) == second
      && Terminated(both) && pool <= both
  {
    var both := pool + first + ['\0'] + second + ['\0'];
    CStringAt(both, |pool|, first);
    CStringAt(both, |pool| + |first| + 1, second);
  }

  lemma StoredAppend(taken: seq<string>, text: string, rest: seq<string>)
    ensures taken + ([text] + rest) == (taken + [text]) + rest
    ensures StoredAll(taken + [text]) == StoredAll(taken) + Stored(text)
  {
    assert (taken + [text])[..|taken|] == taken;
  }

  lemma TotalsAppend(points: seq<Point>, p: Point)
    ensures PoolSize(points + [p]) == PoolSize(points) + Stored(p.name) + Stored(p.description) + StoredAll(p.states)
    ensures StateTotal(points + [p]) == StateTotal(points) + |p.states|
  {
    assert (points + [p])[..|points|] == points;
  }

  lemma StatesErrorEnd()
    ensures forall taken, used, stored :: StatesError(taken, [], used, stored) == None
    ensures StoredAll([]) == 0
  {
  }

  lemma StatesErrorStep(taken: seq<string>, text: string, rest: seq<string>, statesUsed: nat, stringsUsed: nat)
    ensures StatesError(taken, [text] + rest, statesUsed, stringsUsed) ==
      if text == "" || |text| > 63 || |taken| == MAX_STATES || statesUsed == MAX_TOTAL_STATES then Some(BadStates)
      else if text in taken then Some(DuplicateState)
      else if Stored(text) > POOL_BYTES - stringsUsed then Some(StringStorage)
      else StatesError(taken + [text], rest, statesUsed + 1, stringsUsed + Stored(text))
  {
    assert ([text] + rest)[1..] == rest;
  }

  lemma LabelAppended(pool: seq<char>, states: seq<nat>, first: nat, text: string)
    requires Terminated(pool) && ValidStates(states, pool) && first <= |states| && '\0' !in text
    ensures LabelsAt(pool + text + ['\0'], (states + [|pool|])[first..]) == LabelsAt(pool, states[first..]) + [text]
  {
    var longer := pool + text + ['\0'];
    assert longer == pool + (text + ['\0']);
    CStringAt(longer, |pool|, text);
    assert (states + [|pool|])[first..] == states[first..] + [|pool|];
    forall k | first <= k < |states| ensures CString(longer, states[k]) == CString(pool, states[k]) {
      CStringKept(pool, text + ['\0'], states[k]);
    }
  }

  /** `strchr` for the bar, or the end of the text: where the label at `start` ends, and the label. */
  method NextBar(s: string, start: nat) returns (end: nat, text: string, ghost rest: seq<string>)
    requires start <= |s|
    ensures start <= end <= |s| && text == s[start..end]
    ensures Labels(s, start, start) == [text] + rest
    ensures if end == |s| then rest == [] else rest == Labels(s, end + 1, end + 1)
  {
    end := start;
    while end < |s| && s[end] != '|'
      invariant start <= end <= |s|
      invariant Labels(s, start, start) == Labels(s, end, start)
    {
      end := end + 1;
    }
    text := s[start..end];
    rest := if end == |s| then [] else Labels(s, end + 1, end + 1);
    assert end == |s| ==> text == s[start..];
  }

  /** `custom_map_t`. */
  class Map {
    const rows: array<Row>
    const strings: array<char>
    const stateAt: array<nat>
    var count: nat
    var stringsUsed: nat
    var statesUsed: nat

    /** The buffers have their fixed sizes. */
    ghost predicate Allocated() {
      rows.Length == MAX_POINTS && strings.Length == POOL_BYTES && stateAt.Length == MAX_TOTAL_STATES
    }

    ghost predicate Shaped()
      reads this
    {
      && Allocated()
      && count <= MAX_POINTS && stringsUsed <= POOL_BYTES && statesUsed <= MAX_TOTAL_STATES
    }

    ghost predicate Valid()
      reads this, rows, strings, stateAt
    {
      && Shaped()
      && Terminated(strings[..stringsUsed])
      && ValidStates(stateAt[..statesUsed], strings[..stringsUsed])
      && ValidRows(rows[..count], strings[..stringsUsed], stateAt[..statesUsed])
      && stringsUsed == PoolSize(View()) && statesUsed == StateTotal(View())
    }

    /** The points with their texts read out of the pool. */
    ghost function View(): seq<Point>
      reads this, rows, strings, stateAt
      requires Shaped() && ValidRows(rows[..count], strings[..stringsUsed], stateAt[..statesUsed])
    {
      Points(rows[..count], strings[..stringsUsed], stateAt[..statesUsed])
    }

    constructor ()
      ensures Valid() && View() == [] && fresh(rows) && fresh(strings) && fresh(stateAt)
    {
      var blank := Point(0, "", "", 0, 0, [], 0, 0, 0, U16, 0, 0, 0, 0, 0.0, 0.0);
      rows := new Row[MAX_POINTS](i => Row(blank, 0, 0, 0, 0));
      strings := new char[POOL_BYTES](i => '\0');
      stateAt := new nat[MAX_TOTAL_STATES](i => 0);
      count, stringsUsed, statesUsed := 0, 0, 0;
    }

    /** `save_string`: appends the text and a NUL, or leaves the pool as it is. */
    method SaveString(s: string) returns (at: Option<nat>)
      requires Shaped()
      modifies this`stringsUsed, strings
      ensures Shaped()
      ensures at.None? <==> Stored(s) > POOL_BYTES - old(stringsUsed)
      ensures at.None? ==> stringsUsed == old(stringsUsed) && strings[..] == old(strings[..])
      ensures at.Some? ==>
        && at.value == old(stringsUsed) && stringsUsed == old(stringsUsed) + Stored(s)
        && strings[..stringsUsed] == old(strings[..stringsUsed]) + s + ['\0']
    {
      var n := |s| + 1;
      if n > strings.Length - stringsUsed {
        return None;
      }
      var start := stringsUsed;
      forall i | start <= i < start + |s| {
        strings[i] := s[i - start];
      }
      strings[start + |s|] := '\0';
      stringsUsed := start + n;
      return Some(start);
    }

    /** Pool and label table are usable, whatever the rows are. */
    ghost predicate Sane()
      reads this, strings, stateAt
    {
      Shaped() && Terminated(strings[..stringsUsed]) && ValidStates(stateAt[..statesUsed], strings[..stringsUsed])
    }

    /** Stores one state label. */
    method AddLabel(text: string) returns (ok: bool)
      requires Sane() && statesUsed < MAX_TOTAL_STATES && '\0' !in text
      modifies this`stringsUsed, this`statesUsed, strings, stateAt
      ensures Sane()
      ensures ok <==> Stored(text) <= POOL_BYTES - old(stringsUsed)
      ensures !ok ==> stringsUsed == old(stringsUsed)
      ensures ok ==>
        && stringsUsed == old(stringsUsed) + Stored(text) && statesUsed == old(statesUsed) + 1
        && strings[..stringsUsed] == old(strings[..stringsUsed]) + text + ['\0']
        && stateAt[..statesUsed] == old(stateAt[..statesUsed]) + [old(stringsUsed)]
    {
      var at := SaveString(text);
      if at.None? {
        assert strings[..stringsUsed] == old(strings[..stringsUsed]);
        return false;
      }
      stateAt[statesUsed] := at.value;
      statesUsed := statesUsed + 1;
      return true;
    }

    /** Is `text` one of the labels stored from `first` on? */
    method HasLabel(text: string, first: nat) returns (found: bool)
      requires Sane() && first <= statesUsed
      ensures found <==> text in LabelsAt(strings[..stringsUsed], stateAt[first..statesUsed])
    {
      ghost var labels := LabelsAt(strings[..stringsUsed], stateAt[first..statesUsed]);
      for k := first to statesUsed
        invariant text !in labels[..k - first]
      {
        assert labels[k - first] == CString(strings[..stringsUsed], stateAt[k]);
        if CString(strings[..stringsUsed], stateAt[k]) == text {
          return true;
        }
        assert labels[..k + 1 - first] == labels[..k - first] + [labels[k - first]];
      }
      assert labels[..statesUsed - first] == labels;
      return false;
    }

    /** Checks one state label against those stored from `first` on, and stores it. */
    method TakeLabel(text: string, first: nat, ghost taken: seq<string>) returns (why: Option<Reason>)
      requires Sane() && first <= statesUsed && '\0' !in text
      requires LabelsAt(strings[..stringsUsed], stateAt[first..statesUsed]) == taken
      modifies this`stringsUsed, this`statesUsed, strings, stateAt
      ensures Sane()
      ensures why ==
        if text == "" || |text| > 63 || |taken| == MAX_STATES || old(statesUsed) == MAX_TOTAL_STATES
        then Some(BadStates)
        else if text in taken then Some(DuplicateState)
        else if Stored(text) > POOL_BYTES - old(stringsUsed) then Some(StringStorage)
        else None
      ensures why.Some? ==> stringsUsed == old(stringsUsed)
      ensures why.None? ==>
        && statesUsed == old(statesUsed) + 1 && stringsUsed == old(stringsUsed) + Stored(text)
        && old(strings[..stringsUsed]) <= strings[..stringsUsed] && old(stateAt[..statesUsed]) <= stateAt[..statesUsed]
        && LabelsAt(strings[..stringsUsed], stateAt[first..statesUsed]) == taken + [text]
    {
      assert |taken| == statesUsed - first;
      if text == "" || |text| > 63 || statesUsed - first == MAX_STATES || statesUsed == MAX_TOTAL_STATES {
        return Some(BadStates);
      }
      var seen := HasLabel(text, first);
      if seen {
        return Some(DuplicateState);
      }
      ghost var pool, states := strings[..stringsUsed], stateAt[..statesUsed];
      var ok := AddLabel(text);
      if !ok {
        return Some(StringStorage);
      }
      LabelAppended(pool, states, first, text);
      assert stateAt[first..statesUsed] == (states + [|pool|])[first..];
      assert states[first..] == old(stateAt[first..statesUsed]);
      return None;
    }

    /** The state labels of an MSI row, cut at the bars and stored one by one. */
    method AddStates(s: string) returns (why: Option<Reason>)
      requires Sane() && '\0' !in s
      modifies this`stringsUsed, this`statesUsed, strings, stateAt
      ensures Sane()
      ensures why == StatesError([], StateLabels(s), old(statesUsed), old(stringsUsed))
      ensures stringsUsed <= old(stringsUsed) + |s| + 1
      ensures why.None? ==>
        && old(statesUsed) <= statesUsed && old(stringsUsed) <= stringsUsed
        && old(strings[..stringsUsed]) <= strings[..stringsUsed] && old(stateAt[..statesUsed]) <= stateAt[..statesUsed]
        && statesUsed == old(statesUsed) + |StateLabels(s)|
        && stringsUsed == old(stringsUsed) + StoredAll(StateLabels(s))
        && LabelsAt(strings[..stringsUsed], stateAt[old(statesUsed)..statesUsed]) == StateLabels(s)
    {
      hide CString, LabelsAt, StatesError, StoredAll, Labels;
      StatesErrorEnd();
      var first, start := statesUsed, 0;
      ghost var used, labels := stringsUsed, StateLabels(s);
      ghost var pool, states := strings[..stringsUsed], stateAt[..statesUsed];
      ghost var taken: seq<string>, rest := [], labels;
      assert [] + labels == labels;
      while true // left by the break once the last label is stored
        invariant 0 <= start <= |s| && Sane() && used <= stringsUsed && statesUsed == first + |taken|
        invariant labels == taken + rest && rest == Labels(s, start, start)
        invariant StatesError([], labels, first, used) == StatesError(taken, rest, statesUsed, stringsUsed)
        invariant pool <= strings[..stringsUsed] && states <= stateAt[..statesUsed]
        invariant LabelsAt(strings[..stringsUsed], stateAt[first..statesUsed]) == taken
        invariant stringsUsed == used + StoredAll(taken) == used + start
        decreases |s| - start
      {
        var end, text;
        ghost var parts := rest;
        end, text, rest := NextBar(s, start);
        assert parts == [text] + rest;
        StatesErrorStep(taken, text, rest, statesUsed, stringsUsed);
        why := TakeLabel(text, first, taken);
        if why.Some? {
          return;
        }
        assert StatesError([], labels, first, used) == StatesError(taken + [text], rest, statesUsed, stringsUsed);
        StoredAppend(taken, text, rest);
        taken := taken + [text];
        if end == |s| {
          break;
        }
        start := end + 1;
      }
      assert labels == taken;
    }

    /** The first earlier point with the same name or object identifier. */
    method FindDuplicate(name: string, objectType: nat, instance: nat) returns (why: Option<Reason>)
      requires Valid()
      ensures why == Duplicate(View(), name, objectType, instance)
    {
      ghost var points := View();
      assert points[0..] == points;
      for i := 0 to count
        invariant Duplicate(points, name, objectType, instance) == Duplicate(points[i..], name, objectType, instance)
      {
        assert points[i..][0] == points[i] && points[i..][1..] == points[i + 1..];
        assert points[i] == Resolve(rows[..count][i], strings[..stringsUsed], stateAt[..statesUsed]);
        if CString(strings[..stringsUsed], rows[i].nameAt) == name {
          return Some(DuplicateName);
        }
        if rows[i].p.objectType == objectType && rows[i].p.instance == instance {
          return Some(DuplicateObject);
        }
      }
      return None;
    }

    /** Writes the row of a new point, once its texts are stored after everything that was there. */
    method FinishRow(p: Point, nameAt: nat, descriptionAt: nat, stateStart: nat,
                     ghost pool: seq<char>, ghost states: seq<nat>, ghost points: seq<Point>)
      requires Sane() && count < MAX_POINTS
      requires Terminated(pool) && ValidStates(states, pool) && ValidRows(rows[..count], pool, states)
      requires pool <= strings[..stringsUsed] && states <= stateAt[..statesUsed]
      requires points == Points(rows[..count], pool, states)
      requires nameAt < stringsUsed && descriptionAt < stringsUsed && stateStart <= statesUsed
      requires CString(strings[..stringsUsed], nameAt) == p.name
      requires CString(strings[..stringsUsed], descriptionAt) == p.description
      requires LabelsAt(strings[..stringsUsed], stateAt[stateStart..statesUsed]) == p.states
      requires stringsUsed == PoolSize(points + [p]) && statesUsed == StateTotal(points + [p])
      modifies this`count, rows
      ensures Valid() && View() == points + [p]
    {
      hide PoolSize, StateTotal, CString;
      ghost var pool', states' := strings[..stringsUsed], stateAt[..statesUsed];
      ghost var before := rows[..count];
      assert pool' == pool + pool'[|pool|..] && states' == states + states'[|states|..];
      PointsKept(before, pool, states, pool'[|pool|..], states'[|states|..]);
      var row := Row(p.(name := "", description := "", states := []),
                     nameAt, descriptionAt, stateStart, statesUsed - stateStart);
      assert states'[stateStart..stateStart + (statesUsed - stateStart)] == stateAt[stateStart..statesUsed];
      assert Resolve(row, pool', states') == p;
      rows[count] := row;
      count := count + 1;
      assert rows[..count] == before + [row];
      assert Points(rows[..count], pool', states') == points + [p];
    }

    /** `add_row`. A rejected row may leave texts behind; the caller then discards the map. */
    method AddRow(f: seq<string>, strtod: Strtod) returns (why: Option<Reason>)
      requires Valid() && |f| == FIELD_COUNT && forall i :: 0 <= i < FIELD_COUNT ==> '\0' !in f[i]
      modifies this, rows, strings, stateAt
      ensures stringsUsed <= old(stringsUsed) + RowSize(f)
      ensures match AddedRow(old(View()), f, strtod)
        case Accepted(p) => why == None && Valid() && View() == old(View()) + [p]
        case Rejected(reason) => why == Some(reason)
    {
      hide Identity, Encoding, Duplicate, TextsAdded;
      if count == MAX_POINTS {
        return Some(TooManyPoints);
      }
      var identity := ReadIdentity(f);
      if identity.Rejected? {
        return Some(identity.why);
      }
      var (instance, objectType) := identity.value;
      var duplicate := FindDuplicate(f[1], objectType, instance);
      if duplicate.Some? {
        return duplicate;
      }
      var encoding := ReadEncoding(f, instance, objectType, strtod);
      if encoding.Rejected? {
        return Some(encoding.why);
      }
      why := AddTexts(f, encoding.value);
    }

    /** The last part of `add_row`: the texts of the row go into the pool. */
    method AddTexts(f: seq<string>, p: Point) returns (why: Option<Reason>)
      requires Valid() && count < MAX_POINTS && |f| == FIELD_COUNT && forall i :: 0 <= i < FIELD_COUNT ==> '\0' !in f[i]
      requires p.states == []
      modifies this, rows, strings, stateAt
      ensures stringsUsed <= old(stringsUsed) + RowSize(f)
      ensures match TextsAdded(old(View()), f, p)
        case Accepted(q) => why == None && Valid() && View() == old(View()) + [q]
        case Rejected(reason) => why == Some(reason)
    {
      hide StatesError, StateLabels, CString, Resolve, Points, LabelsAt, PoolSize, StateTotal, StoredAll;
      StatesErrorEnd();
      ghost var points, pool, states := View(), strings[..stringsUsed], stateAt[..statesUsed];
      var nameAt := SaveString(f[1]);
      var descriptionAt := SaveString(f[14]);
      if nameAt.None? || descriptionAt.None? {
        return Some(StringStorage);
      }
      ghost var both := pool + f[1] + ['\0'] + f[14] + ['\0'];
      assert strings[..stringsUsed] == both;
      TwoTexts(pool, f[1], f[14]);
      assert ValidStates(states, both);
      var stateStart := statesUsed;
      var q := p.(name := f[1], description := f[14]);
      if p.objectType == OBJECT_MSI {
        if f[11] == "" {
          return Some(StatesMissing);
        }
        why := AddStates(f[11]);
        if why.Some? {
          return;
        }
        q := q.(states := StateLabels(f[11]));
        ghost var after := strings[..stringsUsed];
        assert after == both + after[|both|..];
        CStringKept(both, after[|both|..], nameAt.value);
        CStringKept(both, after[|both|..], descriptionAt.value);
        assert pool <= both <= after;
      } else if f[11] != "" {
        return Some(StatesNotAllowed);
      } else {
        assert LabelsAt(both, stateAt[stateStart..statesUsed]) == [];
        assert stateAt[..statesUsed] == states;
      }
      why := None;
      TotalsAppend(points, q);
      FinishRow(q, nameAt.value, descriptionAt.value, stateStart, pool, states, points);
    }
  }
}
