/**
 Why a CSV map is rejected (main/custom_map.c): the objections to a row in the order in which they are raised,
 and the line that is blamed.
 */
module CustomMapReasons {
  import opened Base
  import opened Decimal
  import opened CsvReader
  import opened CustomPoint
  import opened CustomMap
  import opened CustomMapParse

  /** The first objection counts: this one only if there was none before. */
  function Then(before: Option<Reason>, objection: bool, why: Reason): Option<Reason> {
    if before.Some? then before else if objection then Some(why) else None
  }

  /** The field is no decimal number within these bounds. */
  predicate NoNumber(s: string, minimum: nat, maximum: nat) {
    !(s != "" && Digits(s) && minimum <= DecimalValue(s) <= maximum)
  }

  predicate Begins(s: string, prefix: string) { |s| >= |prefix| && s[..|prefix|] == prefix }

  function IdentityObjection(f: seq<string>): Option<Reason>
    requires |f| == 15
  {
    var reserved := f[0] != "" && Digits(f[0]) && DecimalValue(f[0]) in {9001, 9002, 9003, 9004};
    var a := Then(None, NoNumber(f[0], 1, 4194302) || reserved, BadInstance);
    var b := Then(a, |f[1]| < 1 || |f[1]| > 63 || Begins(f[1], "Gateway-"), BadName);
    var c := Then(b, |f[14]| > 127, BadDescription);
    Then(c, f[2] !in {"AI", "BI", "MSI", "CSV"}, BadObjectType)
  }

  function AccessObjection(f: seq<string>, objectType: nat): Option<Reason>
    requires |f| == 15
  {
    var integers := {"u16", "s16", "u32", "s32"};
    var a := Then(None, NoNumber(f[3], 1, 4), BadFunction);
    var b := Then(a, NoNumber(f[4], 0, 65535), BadAddress);
    var c := Then(b, f[5] !in integers + {"f32", "bit", "ascii", "bool"}, BadDataType);
    var bits := f[3] != "" && Digits(f[3]) && DecimalValue(f[3]) <= 2;
    var d := Then(c, bits && (f[5] != "bool" || objectType != 3), BitInputNeedsBool);
    var e := Then(d, !bits && f[5] == "bool", BoolNeedsBitInput);
    var g := Then(e, (objectType == 40) != (f[5] == "ascii"), AsciiMismatch);
    var h := Then(g, objectType == 3 && f[5] !in {"bit", "bool"}, BinaryNeedsBit);
    var i := Then(h, objectType == 13 && f[5] !in integers, StateNeedsInteger);
    Then(i, objectType == 0 && f[5] !in integers + {"f32"}, AnalogNeedsNumber)
  }

  /** How many registers the row asks for. */
  function Registers(f: seq<string>): nat
    requires |f| == 15
  {
    if f[5] in {"u32", "s32", "f32"} then 2
    else if f[5] == "ascii" && Digits(f[12]) then (DecimalValue(f[12]) + 1) / 2 else 1
  }

  function ScaleObjection(f: seq<string>, objectType: nat, strtod: Strtod): Option<Reason>
    requires |f| == 15
  {
    var plain := f[5] in {"bit", "bool", "ascii"};
    var scale := if f[7] == "" then Some(1.0) else strtod(f[7]);
    var offset := if f[8] == "" then Some(0.0) else strtod(f[8]);
    var a := Then(AccessObjection(f, objectType), scale.None? || offset.None?, BadScale);
    var b := Then(a, plain && (scale != Some(1.0) || offset != Some(0.0)), ScaleNotAllowed);
    var c := Then(b, f[9] != "" && NoNumber(f[9], 0, 65535), BadUnits);
    Then(c, objectType != 0 && f[9] != "" && Digits(f[9]) && DecimalValue(f[9]) != 95, UnitsNotAllowed)
  }

  function EncodingObjection(f: seq<string>, objectType: nat, strtod: Strtod): Option<Reason>
    requires |f| == 15
  {
    var d := ScaleObjection(f, objectType, strtod);
    var e := Then(d, f[5] == "bit" && NoNumber(f[10], 0, 15), BadBit);
    var g := Then(e, f[5] != "bit" && f[10] != "", BitNotAllowed);
    var h := Then(g, f[5] == "ascii" && NoNumber(f[12], 1, 20), BadLength);
    var i := Then(h, f[5] != "ascii" && f[12] != "", LengthNotAllowed);
    var j := Then(i, Digits(f[4]) && Registers(f) + DecimalValue(f[4]) > 65536, PastEnd);
    var k := Then(j, f[5] == "bool" && f[6] != "", OrderNotEmpty);
    var wide := f[5] in {"u32", "s32", "f32"};
    var l := Then(k, wide && f[6] !in {"ABCD", "BADC", "CDAB", "DCBA"}, BadOrder32);
    var m := Then(l, f[5] != "bool" && !wide && f[6] !in {"AB", "BA"}, BadOrder16);
    Then(m, NoNumber(f[13], 1000, 3600000), BadPoll)
  }

  lemma IdentityRefused(f: seq<string>)
    requires |f| == 15
    ensures match IdentityObjection(f)
      case Some(why) => Identity(f) == Rejected(why)
      case None => Identity(f).Accepted?
  {
    if |f[1]| >= 8 {
      assert "Gateway-" <= f[1] <==> f[1][..8] == "Gateway-";
    }
  }

  lemma AccessRefused(f: seq<string>, objectType: nat)
    requires |f| == 15
    ensures match AccessObjection(f, objectType)
      case Some(why) => Access(f, objectType) == Rejected(why)
      case None =>
        Digits(f[4]) && DataTypeOf(f[5]).Some? && Access(f, objectType).Accepted?
        && Access(f, objectType).value.1 == DecimalValue(f[4])
        && Access(f, objectType).value.2 == DataTypeOf(f[5]).value
  {
  }

  lemma KindSpelled(s: string)
    requires DataTypeOf(s).Some?
    ensures var t := DataTypeOf(s).value;
      && (t.U32? <==> s == "u32") && (t.S32? <==> s == "s32") && (t.F32? <==> s == "f32")
      && (t.Bit? <==> s == "bit") && (t.Bool? <==> s == "bool") && (t.Ascii? <==> s == "ascii")
  {
  }

  lemma OrderSpelled(s: string)
    ensures Order32(s).None? <==> s !in {"ABCD", "BADC", "CDAB", "DCBA"}
    ensures Order16(s).None? <==> s !in {"AB", "BA"}
  {
  }

  lemma ScaleRefused(f: seq<string>, instance: nat, objectType: nat, strtod: Strtod)
    requires |f| == 15
    ensures match ScaleObjection(f, objectType, strtod)
      case Some(why) => Encoding(f, instance, objectType, strtod) == Rejected(why)
      case None => AccessObjection(f, objectType).None?
  {
    AccessRefused(f, objectType);
    hide Access, AccessObjection, DataTypeOf, Order16, Order32, ValidPoint;
    if AccessObjection(f, objectType).None? {
      KindSpelled(f[5]);
    }
  }

  lemma EncodingRefused(f: seq<string>, instance: nat, objectType: nat, strtod: Strtod)
    requires |f| == 15
    ensures match EncodingObjection(f, objectType, strtod)
      case Some(why) => Encoding(f, instance, objectType, strtod) == Rejected(why)
      case None => Encoding(f, instance, objectType, strtod).Accepted?
  {
    ScaleRefused(f, instance, objectType, strtod);
    hide Access, AccessObjection, DataTypeOf, Order16, Order32, ValidPoint;
    if ScaleObjection(f, objectType, strtod).None? {
      AccessRefused(f, objectType);
      KindSpelled(f[5]);
      OrderSpelled(f[6]);
    }
  }

  // ----- what the map already holds -----

  predicate Clashes(p: Point, name: string, objectType: nat, instance: nat) {
    p.name == name || (p.objectType == objectType && p.instance == instance)
  }

  /** Point `i` is the first that has the name or the object of the new row. */
  predicate FirstClash(points: seq<Point>, name: string, objectType: nat, instance: nat, i: nat) {
    && i < |points| && Clashes(points[i], name, objectType, instance)
    && forall j :: 0 <= j < i ==> !Clashes(points[j], name, objectType, instance)
  }

  lemma {:induction false} DuplicateExactly(points: seq<Point>, name: string, objectType: nat, instance: nat)
    ensures match Duplicate(points, name, objectType, instance)
      case None => forall i :: 0 <= i < |points| ==> !Clashes(points[i], name, objectType, instance)
      case Some(why) => exists i: nat ::
        && FirstClash(points, name, objectType, instance, i)
        && why == if points[i].name == name then DuplicateName else DuplicateObject
    decreases |points|
  {
    if points != [] && !Clashes(points[0], name, objectType, instance) {
      DuplicateExactly(points[1..], name, objectType, instance);
      if Duplicate(points, name, objectType, instance).Some? {
        var i: nat :| FirstClash(points[1..], name, objectType, instance, i);
        assert FirstClash(points, name, objectType, instance, i + 1);
      }
    } else if points != [] {
      assert FirstClash(points, name, objectType, instance, 0);
    }
  }

  /** What is wrong with label `i`. */
  function BadLabel(labels: seq<string>, statesUsed: nat, stringsUsed: nat, i: nat): Option<Reason>
    requires i < |labels|
  {
    var size := |labels[i]|;
    var a := Then(None, size < 1 || size > 63 || i == 16 || statesUsed + i == 512, BadStates);
    var b := Then(a, labels[i] in labels[..i], DuplicateState);
    Then(b, stringsUsed + StoredAll(labels[..i]) + size + 1 > 32769, StringStorage)
  }

  /** The first label that is refused, those before it stored. */
  predicate FirstBadLabel(labels: seq<string>, statesUsed: nat, stringsUsed: nat, i: nat) {
    && i < |labels| && BadLabel(labels, statesUsed, stringsUsed, i).Some?
    && forall j :: 0 <= j < i ==> BadLabel(labels, statesUsed, stringsUsed, j).None?
  }

  lemma OneLabel(taken: seq<string>, labels: seq<string>, statesUsed: nat, stringsUsed: nat)
    requires labels != []
    ensures var bad, next := BadLabel(taken + labels, statesUsed, stringsUsed, |taken|), taken + [labels[0]];
      StatesError(taken, labels, statesUsed + |taken|, stringsUsed + StoredAll(taken)) ==
        if bad.Some? then bad
        else StatesError(next, labels[1..], statesUsed + |next|, stringsUsed + StoredAll(next))
  {
    var all, next := taken + labels, taken + [labels[0]];
    assert all[..|taken|] == taken && all[|taken|] == labels[0] && next[..|taken|] == taken;
  }

  lemma {:induction false} StatesRefused(taken: seq<string>, labels: seq<string>, statesUsed: nat, stringsUsed: nat)
    ensures var all := taken + labels;
      match StatesError(taken, labels, statesUsed + |taken|, stringsUsed + StoredAll(taken))
      case None => forall i :: |taken| <= i < |all| ==> BadLabel(all, statesUsed, stringsUsed, i).None?
      case Some(why) => exists i: nat ::
        && |taken| <= i < |all| && BadLabel(all, statesUsed, stringsUsed, i) == Some(why)
        && forall j :: |taken| <= j < i ==> BadLabel(all, statesUsed, stringsUsed, j).None?
    decreases |labels|
  {
    hide BadLabel, StatesError, StoredAll;
    StatesErrorEnd();
    if labels != [] {
      OneLabel(taken, labels, statesUsed, stringsUsed);
      var next := taken + [labels[0]];
      assert next + labels[1..] == taken + labels;
      StatesRefused(next, labels[1..], statesUsed, stringsUsed);
    }
  }

  /** The labels of a row: the first that is refused, with the first reason against it. */
  lemma LabelsRefused(labels: seq<string>, statesUsed: nat, stringsUsed: nat)
    ensures match StatesError([], labels, statesUsed, stringsUsed)
      case None => forall i :: 0 <= i < |labels| ==> BadLabel(labels, statesUsed, stringsUsed, i).None?
      case Some(why) => exists i: nat ::
        FirstBadLabel(labels, statesUsed, stringsUsed, i) && BadLabel(labels, statesUsed, stringsUsed, i) == Some(why)
  {
    hide BadLabel, StatesError, StoredAll;
    StatesErrorEnd();
    assert [] + labels == labels;
    StatesRefused([], labels, statesUsed, stringsUsed);
    if StatesError([], labels, statesUsed, stringsUsed).Some? {
      var i: nat :| i < |labels|
        && BadLabel(labels, statesUsed, stringsUsed, i) == StatesError([], labels, statesUsed, stringsUsed)
        && forall j :: 0 <= j < i ==> BadLabel(labels, statesUsed, stringsUsed, j).None?;
      assert FirstBadLabel(labels, statesUsed, stringsUsed, i);
    }
  }

  // ----- a row, and a file -----

  function TextsObjection(points: seq<Point>, f: seq<string>, objectType: nat): Option<Reason>
    requires |f| == 15
  {
    var used := PoolSize(points) + |f[1]| + 1 + |f[14]| + 1;
    var a := Then(None, used > 32769, StringStorage);
    var b := Then(a, objectType == 13 && f[11] == "", StatesMissing);
    var labels := StatesError([], StateLabels(f[11]), StateTotal(points), used);
    var c := Then(b, objectType == 13 && labels.Some?, if labels.Some? then labels.value else BadStates);
    Then(c, objectType != 13 && f[11] != "", StatesNotAllowed)
  }

  lemma TextsRefused(points: seq<Point>, f: seq<string>, p: Point)
    requires |f| == 15
    ensures match TextsObjection(points, f, p.objectType)
      case Some(why) => TextsAdded(points, f, p) == Rejected(why)
      case None =>
        var r := TextsAdded(points, f, p);
        r.Accepted? && r.value.instance == p.instance && r.value.objectType == p.objectType
  {
    hide StatesError, PoolSize, StateLabels, StateTotal;
  }

  lemma EncodingKeeps(f: seq<string>, instance: nat, objectType: nat, strtod: Strtod)
    requires |f| == 15
    ensures var r := Encoding(f, instance, objectType, strtod);
      r.Accepted? ==> r.value.instance == instance && r.value.objectType == objectType
  {
    hide Access, DataTypeOf, Order16, Order32, ParseInteger;
  }

  /** A row that is rejected is rejected for the first of these objections: the map is full, the identity, a clash
      with an earlier point, the encoding, the texts. */
  lemma RowRefused(points: seq<Point>, f: seq<string>, strtod: Strtod)
    requires |f| == 15
    ensures var identity := Identity(f);
      var a := Then(None, |points| == 128, TooManyPoints);
      var b := if a.Some? then a else IdentityObjection(f);
      if b.Some? then AddedRow(points, f, strtod) == Rejected(b.value)
      else
        && identity.Accepted?
        && var (instance, objectType) := identity.value;
           var c := Duplicate(points, f[1], objectType, instance);
           var d := if c.Some? then c else EncodingObjection(f, objectType, strtod);
           var e := if d.Some? then d else TextsObjection(points, f, objectType);
           match AddedRow(points, f, strtod)
           case Accepted(p) => e.None? && p.instance == instance && p.objectType == objectType
           case Rejected(why) => e == Some(why)
  {
    IdentityRefused(f);
    hide Identity, IdentityObjection, Encoding, EncodingObjection, Duplicate, TextsAdded, TextsObjection;
    if Identity(f).Accepted? {
      var (instance, objectType) := Identity(f).value;
      EncodingRefused(f, instance, objectType, strtod);
      var p := Encoding(f, instance, objectType, strtod);
      if p.Accepted? {
        EncodingKeeps(f, instance, objectType, strtod);
        TextsRefused(points, f, p.value);
      }
    }
  }

  /** The first line that cannot be read, or holds a point that is rejected, is blamed; line 1 is the header. An
      empty or oversized text and a wrong header are blamed on line 1, a file without a point on its last line. */
  lemma FileRefused(csv: string, strtod: Strtod)
    ensures if |csv| == 0 || |csv| > 32768 then Parse(csv, strtod) == Failed(1, CsvSize)
      else if !Begins(csv, HEADER) || (|csv| > |HEADER| && csv[|HEADER|] !in {'\r', '\n'})
      then Parse(csv, strtod) == Failed(1, BadHeader)
      else match ReadRow(csv)
        case None => Parse(csv, strtod) == Failed(1, Syntax)
        case Some(row) => Parse(csv, strtod) == ParseRows([], row.1, 1, strtod)
  {
    hide HEADER, ReadRow, ParseRows;
  }

  /** Rows that were read one after the other: their points, what is left and the number of the last line. */
  ghost predicate RowsRead(points: seq<Point>, s: string, strtod: Strtod, after: seq<Point>, rest: string, n: nat)
    decreases n
  {
    if n == 0 then after == points && rest == s
    else
      && s != "" && ReadRow(s).Some?
      && var added := AddedRow(points, ReadRow(s).value.0, strtod);
         added.Accepted? && RowsRead(points + [added.value], ReadRow(s).value.1, strtod, after, rest, n - 1)
  }

  lemma {:induction false} LineBlamed(points: seq<Point>, s: string, line: nat, strtod: Strtod, after: seq<Point>,
                                      rest: string, n: nat)
    requires RowsRead(points, s, strtod, after, rest, n)
    ensures ParseRows(points, s, line, strtod) ==
      if rest == "" then if after == [] then Failed(line + n, NoPoints) else Parsed(after)
      else match ReadRow(rest)
        case None => Failed(line + n + 1, Syntax)
        case Some(row) =>
          match AddedRow(after, row.0, strtod)
          case Rejected(why) => Failed(line + n + 1, why)
          case Accepted(p) => ParseRows(after + [p], row.1, line + n + 1, strtod)
    decreases n
  {
    hide ReadRow, AddedRow;
    if n > 0 {
      var row := ReadRow(s).value;
      LineBlamed(points + [AddedRow(points, row.0, strtod).value], row.1, line + 1, strtod, after, rest, n - 1);
    }
  }
}
