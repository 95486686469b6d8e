/**
 The parser of main/custom_map.c against a printer: which points a CSV row can describe, and that
 every map of such points, written out, is read back as itself.
 */
module CustomMapRoundTrip {
  import opened Base
  import opened Decimal
  import opened CsvReader
  import opened CustomPoint
  import opened CustomMap
  import opened CustomMapParse

  // ----- the points that rows describe -----

  /** Type, function, order and bounds of a row, with the fields that must be empty at their defaults. */
  predicate RowEncoding(p: Point) {
    && p.objectType in {OBJECT_AI, OBJECT_BI, OBJECT_MSI, OBJECT_CSV}
    && 1 <= p.function_ <= 4 && (p.dataType.Bool? <==> p.function_ <= 2)
    && (p.dataType.Ascii? <==> p.objectType == OBJECT_CSV)
    && (p.dataType.Bit? || p.dataType.Bool? <==> p.objectType == OBJECT_BI)
    && (p.objectType == OBJECT_MSI ==> Integral(p.dataType))
    && (p.dataType.Bit? || p.dataType.Bool? || p.dataType.Ascii? ==> p.scale == 1.0 && p.scaleOffset == 0.0)
    && p.units <= 65535 && (p.objectType != OBJECT_AI ==> p.units == NO_UNITS)
    && p.bit <= 15 && (!p.dataType.Bit? ==> p.bit == 0)
    && (if p.dataType.Ascii? then 1 <= p.length <= 2 * MAX_POINT_WORDS else p.length == 0)
    && p.wordCount == WordsFor(p.dataType, p.length) && p.offset + p.wordCount <= 0x1_0000
    && p.order <= (if p.dataType.Bool? then 0 else if Wide(p.dataType) then 3 else 1)
    && 1000 <= p.pollMs <= 3600000
  }

  predicate LabelText(s: string) { 1 <= |s| <= 63 && Printable(s) && '|' !in s }

  /** Identifier, name, description and state labels. */
  predicate RowTexts(p: Point) {
    && 1 <= p.instance <= 4194302 && !ReservedInstance(p.instance)
    && 1 <= |p.name| <= 63 && Printable(p.name) && !GatewayPrefix(p.name)
    && |p.description| <= 127 && Printable(p.description)
    && (p.states != [] <==> p.objectType == OBJECT_MSI)
    && GoodStates(p.states) && (forall k :: 0 <= k < |p.states| ==> LabelText(p.states[k]))
    && StoredAll(p.states) <= 513
  }

  predicate RowPoint(p: Point) { RowEncoding(p) && RowTexts(p) }

  /** The maps that a CSV text can describe. */
  predicate CsvMap(points: seq<Point>) {
    && 1 <= |points| <= MAX_POINTS && Distinct(points) && StateTotal(points) <= MAX_TOTAL_STATES
    && forall i :: 0 <= i < |points| ==> RowPoint(points[i])
  }

  // ----- writing a point as a row -----

  function ObjectName(objectType: nat): string {
    if objectType == OBJECT_AI then "AI" else if objectType == OBJECT_BI then "BI"
    else if objectType == OBJECT_MSI then "MSI" else "CSV"
  }

  function TypeName(t: DataType): string {
    match t
    case U16 => "u16" case S16 => "s16" case U32 => "u32" case S32 => "s32"
    case F32 => "f32" case Bit => "bit" case Ascii => "ascii" case Bool => "bool"
  }

  function OrderName(t: DataType, order: nat): string {
    if t.Bool? then ""
    else if Wide(t) then
      if order == 0 then "ABCD" else if order == 1 then "BADC" else if order == 2 then "CDAB" else "DCBA"
    else if order == 0 then "AB" else "BA"
  }

  /** Labels with bars between them. */
  function Joined(labels: seq<string>): string {
    if labels == [] then "" else if |labels| == 1 then labels[0] else labels[0] + "|" + Joined(labels[1..])
  }

  /** How a number is written, so that `strtod` reads it back. */
  type Format = real -> string

  predicate Writes(strtod: Strtod, format: Format, x: real) {
    && format(x) != "" && |format(x)| < FIELD_BYTES && Printable(format(x)) && strtod(format(x)) == Some(x)
  }

  predicate Writable(p: Point, strtod: Strtod, format: Format) {
    && (p.scale == 1.0 || Writes(strtod, format, p.scale))
    && (p.scaleOffset == 0.0 || Writes(strtod, format, p.scaleOffset))
  }

  /** The fifteen fields of a point; a number at its default is left out. */
  function RowFields(p: Point, format: Format): (f: seq<string>)
    ensures |f| == FIELD_COUNT
  {
    [DecimalText(p.instance), p.name, ObjectName(p.objectType), DecimalText(p.function_), DecimalText(p.offset),
     TypeName(p.dataType), OrderName(p.dataType, p.order),
     if p.scale == 1.0 then "" else format(p.scale), if p.scaleOffset == 0.0 then "" else format(p.scaleOffset),
     if p.units == NO_UNITS then "" else DecimalText(p.units), if p.dataType.Bit? then DecimalText(p.bit) else "",
     Joined(p.states), if p.dataType.Ascii? then DecimalText(p.length) else "", DecimalText(p.pollMs), p.description]
  }

  /** One row: every field quoted, ended by LF. */
  function PrintRow(p: Point, format: Format): string {
    var f := RowFields(p, format);
    PrintFields(seq(FIELD_COUNT, i requires 0 <= i < FIELD_COUNT => Quoted(f[i]))) + "\n"
  }

  function PrintRows(points: seq<Point>, format: Format): string {
    if points == [] then "" else PrintRow(points[0], format) + PrintRows(points[1..], format)
  }

  function PrintMap(points: seq<Point>, format: Format): string {
    HEADER + "\n" + PrintRows(points, format)
  }

  // ----- reading the fields back -----

  lemma DecimalReadsBack(n: nat, minimum: nat, maximum: nat)
    requires minimum <= n <= maximum
    ensures ParseInteger(DecimalText(n), minimum, maximum) == Some(n)
  {
  }

  lemma NamesReadBack(p: Point)
    requires RowEncoding(p)
    ensures ObjectType(ObjectName(p.objectType)) == Some(p.objectType)
    ensures DataTypeOf(TypeName(p.dataType)) == Some(p.dataType)
    ensures p.dataType.Bool? ==> OrderName(p.dataType, p.order) == ""
    ensures Wide(p.dataType) ==> Order32(OrderName(p.dataType, p.order)) == Some(p.order)
    ensures !Wide(p.dataType) && !p.dataType.Bool? ==> Order16(OrderName(p.dataType, p.order)) == Some(p.order)
  {
  }

  /** Everything of a point but its texts. */
  function WithoutTexts(p: Point): Point { p.(name := "", description := "", states := []) }

  lemma EncodingReadsBack(p: Point, strtod: Strtod, format: Format)
    requires RowEncoding(p) && Writable(p, strtod, format)
    ensures Encoding(RowFields(p, format), p.instance, p.objectType, strtod) == Accepted(WithoutTexts(p))
  {
    hide ParseInteger, DecimalText, DataTypeOf, TypeName, OrderName, Order16, Order32, ObjectName, Joined;
    NamesReadBack(p);
    DecimalReadsBack(p.function_, 1, 4);
    DecimalReadsBack(p.offset, 0, 65535);
    DecimalReadsBack(p.units, 0, 65535);
    if p.dataType.Bit? {
      DecimalReadsBack(p.bit, 0, 15);
    }
    if p.dataType.Ascii? {
      DecimalReadsBack(p.length, 1, 2 * MAX_POINT_WORDS);
    }
    DecimalReadsBack(p.pollMs, 1000, 3600000);
  }

  /** Completeness: every encoding the parser accepts is one of these. */
  lemma AcceptedEncoding(f: seq<string>, instance: nat, objectType: nat, strtod: Strtod)
    requires |f| == FIELD_COUNT && objectType in {OBJECT_AI, OBJECT_BI, OBJECT_MSI, OBJECT_CSV}
    requires Encoding(f, instance, objectType, strtod).Accepted?
    ensures RowEncoding(Encoding(f, instance, objectType, strtod).value)
  {
  }

  // ----- state labels -----

  predicate NoBar(s: string, i: nat, j: nat)
    requires j <= |s|
  {
    forall k :: i <= k < j ==> s[k] != '|'
  }

  lemma {:induction false} LabelsSkip(s: string, i: nat, j: nat, start: nat)
    requires start <= i <= j <= |s| && NoBar(s, i, j)
    ensures Labels(s, i, start) == Labels(s, j, start)
    decreases j - i
  {
    if i < j {
      LabelsSkip(s, i + 1, j, start);
    }
  }

  /** A label runs to the next bar, or to the end. */
  lemma LabelCut(s: string, start: nat, end: nat)
    requires start <= end <= |s| && NoBar(s, start, end) && (end < |s| ==> s[end] == '|')
    ensures Labels(s, start, start) ==
      if end == |s| then [s[start..]] else [s[start..end]] + Labels(s, end + 1, end + 1)
  {
    LabelsSkip(s, start, end, start);
  }

  /** Cutting joined labels at the bars gives the labels. */
  lemma {:induction false} LabelsOfJoined(before: string, labels: seq<string>)
    requires labels != [] && forall k :: 0 <= k < |labels| ==> '|' !in labels[k]
    ensures Labels(before + Joined(labels), |before|, |before|) == labels
    decreases |labels|
  {
    hide Labels;
    var s, first := before + Joined(labels), labels[0];
    var end := |before| + |first|;
    assert s[|before|..end] == first;
    if |labels| == 1 {
      assert s[|before|..] == first;
      LabelCut(s, |before|, end);
    } else {
      var next := before + first + "|";
      assert s == next + Joined(labels[1..]);
      LabelCut(s, |before|, end);
      LabelsOfJoined(next, labels[1..]);
    }
  }

  lemma JoinedStates(labels: seq<string>)
    requires labels != [] && forall k :: 0 <= k < |labels| ==> LabelText(labels[k])
    ensures StateLabels(Joined(labels)) == labels
    ensures Joined(labels) != "" && |Joined(labels)| + 1 == StoredAll(labels)
  {
    LabelsOfJoined("", labels);
    assert "" + Joined(labels) == Joined(labels);
    LabelsTake(Joined(labels), 0, 0);
    assert Joined(labels)[..|labels[0]|] == labels[0];
  }

  lemma {:induction false} JoinedPrintable(labels: seq<string>)
    requires forall k :: 0 <= k < |labels| ==> LabelText(labels[k])
    ensures Printable(Joined(labels))
  {
    if |labels| > 1 {
      JoinedPrintable(labels[1..]);
    }
  }

  lemma {:induction false} StatesAccepted(taken: seq<string>, labels: seq<string>, statesUsed: nat, stringsUsed: nat)
    requires GoodStates(taken + labels)
    requires statesUsed + |labels| <= MAX_TOTAL_STATES && stringsUsed + StoredAll(labels) <= POOL_BYTES
    ensures StatesError(taken, labels, statesUsed, stringsUsed).None?
    decreases |labels|
  {
    if labels != [] {
      var first := labels[0];
      assert (taken + labels)[|taken|] == first;
      assert forall k :: 0 <= k < |taken| ==> (taken + labels)[k] == taken[k];
      assert labels == [first] + labels[1..];
      StoredCons(first, labels[1..]);
      assert taken + [first] + labels[1..] == taken + labels;
      StatesAccepted(taken + [first], labels[1..], statesUsed + 1, stringsUsed + Stored(first));
    }
  }

  // ----- one row -----

  lemma {:induction false} NoDuplicateFound(points: seq<Point>, name: string, objectType: nat, instance: nat)
    requires forall i :: 0 <= i < |points| ==>
      points[i].name != name && !(points[i].objectType == objectType && points[i].instance == instance)
    ensures Duplicate(points, name, objectType, instance).None?
  {
    if points != [] {
      NoDuplicateFound(points[1..], name, objectType, instance);
    }
  }

  /** Space the texts of a point take in the pool. */
  function TextSize(p: Point): nat { Stored(p.name) + Stored(p.description) + StoredAll(p.states) }

  lemma NothingJoined()
    ensures Joined([]) == ""
  {
  }

  lemma TextsReadBack(points: seq<Point>, p: Point, format: Format)
    requires RowPoint(p)
    requires StateTotal(points) + |p.states| <= MAX_TOTAL_STATES && PoolSize(points) + TextSize(p) <= POOL_BYTES
    ensures TextsAdded(points, RowFields(p, format), WithoutTexts(p)) == Accepted(p)
  {
    hide RowEncoding, PoolSize, StateTotal, StoredAll, DecimalText, Joined, StateLabels, StatesError;
    if p.objectType == OBJECT_MSI {
      JoinedStates(p.states);
      assert [] + p.states == p.states;
      StatesAccepted([], p.states, StateTotal(points), PoolSize(points) + Stored(p.name) + Stored(p.description));
    } else {
      assert p.states == [];
      NothingJoined();
    }
  }

  lemma IdentityReadsBack(p: Point, format: Format)
    requires RowPoint(p)
    ensures Identity(RowFields(p, format)) == Accepted((p.instance, p.objectType))
  {
    hide ParseInteger, DecimalText, ObjectType, ObjectName, Joined, GoodStates, StoredAll;
    NamesReadBack(p);
    DecimalReadsBack(p.instance, 1, 4194302);
  }

  lemma NotYetThere(points: seq<Point>, p: Point, format: Format)
    requires Distinct(points + [p])
    ensures Duplicate(points, RowFields(p, format)[1], p.objectType, p.instance).None?
  {
    hide DecimalText, Joined;
    var all := points + [p];
    assert all[|points|] == p;
    assert forall i :: 0 <= i < |points| ==> all[i] == points[i];
    NoDuplicateFound(points, p.name, p.objectType, p.instance);
  }

  /** A row written from a point gives that point, whatever the map already holds, as long as there is room. */
  lemma RowReadsBack(points: seq<Point>, p: Point, strtod: Strtod, format: Format)
    requires RowPoint(p) && Writable(p, strtod, format) && |points| < MAX_POINTS && Distinct(points + [p])
    requires StateTotal(points) + |p.states| <= MAX_TOTAL_STATES && PoolSize(points) + TextSize(p) <= POOL_BYTES
    ensures AddedRow(points, RowFields(p, format), strtod) == Accepted(p)
  {
    hide Identity, Encoding, TextsAdded, RowEncoding, RowTexts, PoolSize, StateTotal, Writable, RowFields, Distinct;
    hide Duplicate, TextSize;
    IdentityReadsBack(p, format);
    NotYetThere(points, p, format);
    EncodingReadsBack(p, strtod, format);
    TextsReadBack(points, p, format);
  }

  // ----- all rows -----

  lemma DigitsArePrintable(s: string)
    requires Digits(s)
    ensures Printable(s)
  {
  }

  lemma NamesArePrintable(p: Point)
    ensures Printable("") && Printable(ObjectName(p.objectType)) && |ObjectName(p.objectType)| <= 3
    ensures Printable(TypeName(p.dataType)) && |TypeName(p.dataType)| <= 5
    ensures Printable(OrderName(p.dataType, p.order)) && |OrderName(p.dataType, p.order)| <= 4
  {
  }

  lemma FieldsAreWritable(p: Point, strtod: Strtod, format: Format)
    requires RowPoint(p) && Writable(p, strtod, format)
    ensures var f := RowFields(p, format);
      forall i :: 0 <= i < FIELD_COUNT ==> Printable(f[i]) && |f[i]| < FIELD_BYTES
  {
    hide DecimalText, Joined, StoredAll, GoodStates, Digits, Printable;
    JoinedPrintable(p.states);
    if p.states != [] {
      JoinedStates(p.states);
    } else {
      NothingJoined();
    }
    NamesArePrintable(p);
    DigitsArePrintable(DecimalText(p.instance));
    DigitsArePrintable(DecimalText(p.function_));
    DigitsArePrintable(DecimalText(p.offset));
    DigitsArePrintable(DecimalText(p.units));
    DigitsArePrintable(DecimalText(p.bit));
    DigitsArePrintable(DecimalText(p.length));
    DigitsArePrintable(DecimalText(p.pollMs));
  }

  lemma TextFields(p: Point, format: Format)
    requires RowPoint(p)
    ensures var f := RowFields(p, format); |f[1]| + |f[11]| + |f[14]| + 3 >= TextSize(p)
  {
    hide RowEncoding, DecimalText, Joined, StoredAll, GoodStates;
    if p.states != [] {
      JoinedStates(p.states);
    } else {
      NothingJoined();
      StatesErrorEnd();
    }
  }

  /** A written row is read as its fifteen fields, and takes at least the space of its texts. */
  lemma PrintedRowReads(p: Point, rest: string, strtod: Strtod, format: Format)
    requires RowPoint(p) && Writable(p, strtod, format)
    ensures ReadRow(PrintRow(p, format) + rest) == Some((RowFields(p, format), rest))
    ensures |PrintRow(p, format)| >= TextSize(p)
  {
    hide RowFields, Writable, RowPoint, ReadRow, PrintFields, TextSize;
    FieldsAreWritable(p, strtod, format);
    var f := RowFields(p, format);
    var fields := seq(FIELD_COUNT, i requires 0 <= i < FIELD_COUNT => Quoted(f[i]));
    QuotedRowReadsBack(f, "\n", rest);
    assert PrintRow(p, format) + rest == PrintFields(fields) + ("\n" + rest);
    RowConsumes(PrintRow(p, format) + rest);
    TotalAtLeast(f, 1, 11, 14);
    TextFields(p, format);
  }

  lemma {:induction false} StateTotalOfPart(points: seq<Point>, more: seq<Point>)
    ensures StateTotal(points) <= StateTotal(points + more)
  {
    if more == [] {
      assert points + more == points;
    } else {
      StateTotalOfPart(points, more[..|more| - 1]);
      assert points + more == points + more[..|more| - 1] + [more[|more| - 1]];
      TotalsAppend(points + more[..|more| - 1], more[|more| - 1]);
    }
  }

  lemma DistinctPart(points: seq<Point>, more: seq<Point>)
    requires Distinct(points + more)
    ensures Distinct(points)
  {
    assert forall i :: 0 <= i < |points| ==> (points + more)[i] == points[i];
  }

  /** The first of the remaining points joins the map. */
  lemma NextPointFits(points: seq<Point>, more: seq<Point>, strtod: Strtod, format: Format)
    requires more != [] && CsvMap(points + more)
    requires forall i :: 0 <= i < |more| ==> Writable(more[i], strtod, format)
    requires PoolSize(points) + |PrintRows(more, format)| <= POOL_BYTES
    ensures AddedRow(points, RowFields(more[0], format), strtod) == Accepted(more[0])
    ensures ReadRow(PrintRows(more, format)) == Some((RowFields(more[0], format), PrintRows(more[1..], format)))
    ensures PoolSize(points + [more[0]]) + |PrintRows(more[1..], format)| <= POOL_BYTES
    ensures PrintRows(more, format) != ""
  {
    hide RowFields, Writable, RowPoint, ReadRow, AddedRow, PoolSize, StateTotal, StoredAll, PrintRow, Distinct;
    var p, rest := more[0], PrintRows(more[1..], format);
    assert PrintRows(more, format) == PrintRow(p, format) + rest;
    assert (points + more)[|points|] == p;
    PrintedRowReads(p, rest, strtod, format);
    assert points + more == points + [p] + more[1..];
    DistinctPart(points + [p], more[1..]);
    StateTotalOfPart(points + [p], more[1..]);
    TotalsAppend(points, p);
    RowReadsBack(points, p, strtod, format);
  }

  lemma {:induction false} RowsReadBack(points: seq<Point>, more: seq<Point>, line: nat, strtod: Strtod, format: Format)
    requires CsvMap(points + more)
    requires forall i :: 0 <= i < |more| ==> Writable(more[i], strtod, format)
    requires PoolSize(points) + |PrintRows(more, format)| <= POOL_BYTES
    ensures ParseRows(points, PrintRows(more, format), line, strtod) == Parsed(points + more)
    decreases |more|
  {
    hide RowFields, Writable, RowPoint, ReadRow, AddedRow, PoolSize, StateTotal, PrintRow, Distinct;
    if more == [] {
      assert points + more == points;
    } else {
      NextPointFits(points, more, strtod, format);
      assert points + more == points + [more[0]] + more[1..];
      RowsReadBack(points + [more[0]], more[1..], line + 1, strtod, format);
    }
  }

  // ----- the header -----

  function Bares(names: seq<string>): (fields: seq<Field>)
    ensures |fields| == |names| && forall i :: 0 <= i < |names| ==> fields[i] == Bare(names[i])
  {
    seq(|names|, i requires 0 <= i < |names| => Bare(names[i]))
  }

  lemma {:induction false} CommasArePrinted(names: seq<string>)
    requires names != []
    ensures PrintFields(Bares(names)) == Commas(names)
  {
    if |names| > 1 {
      CommasArePrinted(names[1..]);
      assert Bares(names)[1..] == Bares(names[1..]);
    }
  }

  lemma FirstColumns()
    ensures forall i :: 0 <= i < 7 ==> BareText(COLUMNS[i]) && |COLUMNS[i]| < FIELD_BYTES
  {
  }

  lemma LastColumns()
    ensures forall i :: 7 <= i < |COLUMNS| ==> BareText(COLUMNS[i]) && |COLUMNS[i]| < FIELD_BYTES
  {
  }

  lemma ColumnsAreBare()
    ensures ValidFields(Bares(COLUMNS))
  {
    hide BareText;
    FirstColumns();
    LastColumns();
  }

  lemma HeaderReads(rest: string)
    ensures ReadRow(HEADER + "\n" + rest).Some? && ReadRow(HEADER + "\n" + rest).value.1 == rest
  {
    hide Commas, PrintFields, Texts, ValidFields, ReadFields;
    CommasArePrinted(COLUMNS);
    ColumnsAreBare();
    FieldsComplete(Bares(COLUMNS), "\n", rest);
    assert HEADER + "\n" + rest == HEADER + ("\n" + rest);
  }

  /** Parser and printer round trip: every map of points that rows can describe, written out within the
      legal size, is parsed as exactly that map. */
  lemma MapReadsBack(points: seq<Point>, strtod: Strtod, format: Format)
    requires CsvMap(points) && forall i :: 0 <= i < |points| ==> Writable(points[i], strtod, format)
    requires |PrintMap(points, format)| <= MAX_CSV_BYTES
    ensures Parse(PrintMap(points, format), strtod) == Parsed(points)
  {
    hide Writable, RowPoint, ReadRow, ParseRows, PrintRows, Commas;
    var rows := PrintRows(points, format);
    HeaderReads(rows);
    assert PrintMap(points, format)[..|HEADER|] == HEADER;
    assert [] + points == points;
    RowsReadBack([], points, 1, strtod, format);
  }

  // ----- nothing else is accepted -----

  predicate Clean(labels: seq<string>) {
    forall k :: 0 <= k < |labels| ==> Printable(labels[k]) && '|' !in labels[k]
  }

  lemma {:induction false} LabelsAreClean(s: string, i: nat, start: nat)
    requires start <= i <= |s| && Printable(s) && NoBar(s, start, i)
    ensures Clean(Labels(s, i, start))
    decreases |s| - i
  {
    assert Printable(s[start..i]) && '|' !in s[start..i];
    if i == |s| {
      assert s[start..] == s[start..i];
    } else if s[i] == '|' {
      LabelsAreClean(s, i + 1, i + 1);
      var labels, rest := Labels(s, i, start), Labels(s, i + 1, i + 1);
      assert forall k :: 1 <= k < |labels| ==> labels[k] == rest[k - 1];
    } else {
      LabelsAreClean(s, i + 1, start);
      assert Labels(s, i, start) == Labels(s, i + 1, start);
    }
  }

  lemma {:induction false} StatesFitTable(taken: seq<string>, labels: seq<string>, statesUsed: nat, stringsUsed: nat)
    requires statesUsed <= MAX_TOTAL_STATES && StatesError(taken, labels, statesUsed, stringsUsed).None?
    ensures statesUsed + |labels| <= MAX_TOTAL_STATES
    decreases |labels|
  {
    if labels != [] {
      StatesFitTable(taken + [labels[0]], labels[1..], statesUsed + 1, stringsUsed + Stored(labels[0]));
    }
  }

  lemma AcceptedTexts(points: seq<Point>, f: seq<string>, p: Point)
    requires |f| == FIELD_COUNT && p.states == [] && TextsAdded(points, f, p).Accepted?
    requires |f[11]| <= 512 && Printable(f[11]) && StateTotal(points) <= MAX_TOTAL_STATES
    ensures var q := TextsAdded(points, f, p).value;
      && (forall k :: 0 <= k < |q.states| ==> LabelText(q.states[k]))
      && StateTotal(points) + |q.states| <= MAX_TOTAL_STATES
  {
    hide PoolSize, StateTotal, StoredAll, StatesError;
    TextsAreGood(points, f, p);
    if p.objectType == OBJECT_MSI {
      LabelsAreClean(f[11], 0, 0);
      var states := TextsAdded(points, f, p).value.states;
      assert states == Labels(f[11], 0, 0);
      forall k | 0 <= k < |states| ensures LabelText(states[k]) {
        assert 1 <= |states[k]| <= 63;
      }
      StatesFitTable([], StateLabels(f[11]), StateTotal(points), PoolSize(points) + Stored(f[1]) + Stored(f[14]));
    }
  }

  /** The number is a default or was read from some text. */
  ghost predicate FromText(x: real, fallback: real, strtod: Strtod) {
    x == fallback || exists s :: strtod(s) == Some(x)
  }

  lemma AcceptedNumbers(f: seq<string>, instance: nat, objectType: nat, strtod: Strtod)
    requires |f| == FIELD_COUNT && Encoding(f, instance, objectType, strtod).Accepted?
    ensures var p := Encoding(f, instance, objectType, strtod).value;
      FromText(p.scale, 1.0, strtod) && FromText(p.scaleOffset, 0.0, strtod)
  {
    var p := Encoding(f, instance, objectType, strtod).value;
    assert p.scale == 1.0 || strtod(f[7]) == Some(p.scale);
    assert p.scaleOffset == 0.0 || strtod(f[8]) == Some(p.scaleOffset);
  }

  lemma RowPointOf(p: Point, q: Point, f: seq<string>)
    requires |f| == FIELD_COUNT && Printable(f[1]) && Printable(f[14])
    requires RowEncoding(p) && GoodPoint(q) && q == p.(name := f[1], description := f[14], states := q.states)
    requires forall k :: 0 <= k < |q.states| ==> LabelText(q.states[k])
    ensures RowPoint(q)
  {
    hide StoredAll, GoodStates, ValidPoint;
  }

  /** The parser adds only points that rows can describe. */
  lemma AddedRowIsRowPoint(points: seq<Point>, f: seq<string>, strtod: Strtod)
    requires |f| == FIELD_COUNT && forall i :: 0 <= i < FIELD_COUNT ==> Printable(f[i]) && |f[i]| <= 512
    requires |points| <= MAX_POINTS && StateTotal(points) <= MAX_TOTAL_STATES && AddedRow(points, f, strtod).Accepted?
    ensures var p := AddedRow(points, f, strtod).value;
      && RowPoint(p) && StateTotal(points + [p]) <= MAX_TOTAL_STATES
      && FromText(p.scale, 1.0, strtod) && FromText(p.scaleOffset, 0.0, strtod)
  {
    hide Encoding, Duplicate, TextsAdded, StoredAll, PoolSize, StateTotal, Printable, GoodStates, FromText;
    hide RowEncoding, GoodPoint, RowPoint, LabelText, ReservedInstance, GatewayPrefix, ParseInteger;
    AddedRowIsGood(points, f, strtod);
    var (instance, objectType) := Identity(f).value;
    AcceptedEncoding(f, instance, objectType, strtod);
    AcceptedNumbers(f, instance, objectType, strtod);
    var p := Encoding(f, instance, objectType, strtod).value;
    TextsAreGood(points, f, p);
    AcceptedTexts(points, f, p);
    var q := TextsAdded(points, f, p).value;
    RowPointOf(p, q, f);
    TotalsAppend(points, q);
  }

  /** A map that a text described, with numbers that were read from it. */
  ghost predicate ReadMap(points: seq<Point>, strtod: Strtod) {
    && StateTotal(points) <= MAX_TOTAL_STATES
    && forall i :: 0 <= i < |points| ==>
      RowPoint(points[i]) && FromText(points[i].scale, 1.0, strtod) && FromText(points[i].scaleOffset, 0.0, strtod)
  }

  lemma {:induction false} RowsAreRead(points: seq<Point>, s: string, line: nat, strtod: Strtod)
    requires |points| <= MAX_POINTS && ReadMap(points, strtod)
    ensures match ParseRows(points, s, line, strtod)
      case Parsed(all) => ReadMap(all, strtod)
      case Failed(_, _) => true
    decreases |s|
  {
    hide AddedRow, ReadRow, RowPoint, StateTotal, FromText;
    if s != "" && ReadRow(s).Some? {
      RowConsumes(s);
      var (f, rest) := ReadRow(s).value;
      var added := AddedRow(points, f, strtod);
      if added.Accepted? {
        AddedRowIsGood(points, f, strtod);
        AddedRowIsRowPoint(points, f, strtod);
        RowsAreRead(points + [added.value], rest, line + 1, strtod);
      }
    }
  }

  /** Soundness of the parser: every accepted text describes a map of row points. */
  lemma AcceptedMapsAreCsvMaps(csv: string, strtod: Strtod)
    requires Parse(csv, strtod).Parsed?
    ensures var points := Parse(csv, strtod).points;
      CsvMap(points) && ReadMap(points, strtod)
  {
    hide AddedRow, ReadRow, ParseRows, RowPoint, GoodPoint, StartsWithHeader, FromText;
    AcceptedMapsAreGood(csv, strtod);
    RowsAreRead([], ReadRow(csv).value.1, 1, strtod);
  }

  /** With numbers printed so that `strtod` reads them back, writing out any accepted map and parsing the
      result gives the same map. */
  lemma AcceptedMapsReprint(csv: string, strtod: Strtod, format: Format)
    requires Parse(csv, strtod).Parsed? && |PrintMap(Parse(csv, strtod).points, format)| <= MAX_CSV_BYTES
    requires forall s :: strtod(s).Some? ==> Writes(strtod, format, strtod(s).value)
    ensures Parse(PrintMap(Parse(csv, strtod).points, format), strtod) == Parse(csv, strtod)
  {
    hide Parse, PrintMap, RowPoint, Writes;
    AcceptedMapsAreCsvMaps(csv, strtod);
    var points := Parse(csv, strtod).points;
    forall i | 0 <= i < |points| ensures Writable(points[i], strtod, format) {
      assert FromText(points[i].scale, 1.0, strtod) && FromText(points[i].scaleOffset, 0.0, strtod);
    }
    MapReadsBack(points, strtod, format);
  }
}
