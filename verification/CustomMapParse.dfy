/**
 `custom_map_parse`: header, rows, all or nothing. Proved here besides: the string pool cannot run
 out on an input of legal size, and what every accepted map satisfies.
 */
module CustomMapParse {
  import opened Base
  import opened CsvReader
  import opened CustomPoint
  import opened CustomMap
  import CustomPoll

  /** The points of an accepted text, or the line and reason of its rejection. */
  datatype Parsed = Parsed(points: seq<Point>) | Failed(line: nat, why: Reason)

  function ParseRows(points: seq<Point>, s: string, line: nat, strtod: Strtod): Parsed
    decreases |s|
  {
    if s == "" then if points == [] then Failed(line, NoPoints) else Parsed(points)
    else
      var row := ReadRow(s);
      if row.None? then Failed(line + 1, Syntax)
      else
        RowConsumes(s);
        var added := AddedRow(points, row.value.0, strtod);
        if added.Rejected? then Failed(line + 1, added.why)
        else ParseRows(points + [added.value], row.value.1, line + 1, strtod)
  }

  predicate StartsWithHeader(csv: string) {
    HEADER <= csv && (|csv| > |HEADER| ==> csv[|HEADER|] == '\r' || csv[|HEADER|] == '\n')
  }

  function Parse(csv: string, strtod: Strtod): Parsed {
    if csv == "" || |csv| > MAX_CSV_BYTES then Failed(1, CsvSize)
    else if !StartsWithHeader(csv) then Failed(1, BadHeader)
    else
      var head := ReadRow(csv);
      if head.None? then Failed(1, Syntax) else ParseRows([], head.value.1, 1, strtod)
  }

  lemma PrintableHasNoNul(s: string)
    requires Printable(s)
    ensures '\0' !in s
  {
  }

  /** Copies a finished scratch map over the caller's. */
  method CopyMap(scratch: Map, map_: Map)
    requires scratch.Valid() && map_.Allocated()
    requires scratch != map_ && scratch.rows != map_.rows
    requires scratch.strings != map_.strings && scratch.stateAt != map_.stateAt
    modifies map_, map_.rows, map_.strings, map_.stateAt
    ensures map_.Valid() && map_.View() == old(scratch.View())
  {
    hide PoolSize, StateTotal, Resolve, CString, LabelsAt;
    ghost var rows, pool, states := scratch.rows[..scratch.count], scratch.strings[..scratch.stringsUsed],
                                    scratch.stateAt[..scratch.statesUsed];
    ghost var points := scratch.View();
    assert points == Points(rows, pool, states);
    forall i | 0 <= i < MAX_POINTS {
      map_.rows[i] := scratch.rows[i];
    }
    forall i | 0 <= i < POOL_BYTES {
      map_.strings[i] := scratch.strings[i];
    }
    forall i | 0 <= i < MAX_TOTAL_STATES {
      map_.stateAt[i] := scratch.stateAt[i];
    }
    map_.count, map_.stringsUsed, map_.statesUsed := scratch.count, scratch.stringsUsed, scratch.statesUsed;
    assert map_.rows[..map_.count] == rows;
    assert map_.strings[..map_.stringsUsed] == pool;
    assert map_.stateAt[..map_.statesUsed] == states;
    assert map_.View() == points;
  }

  lemma {:induction false} OneAtLeast(texts: seq<string>, k: nat)
    requires k < |texts|
    ensures TotalLength(texts) >= |texts[k]|
  {
    if k > 0 {
      OneAtLeast(texts[1..], k - 1);
    }
  }

  lemma {:induction false} PairAtLeast(texts: seq<string>, j: nat, k: nat)
    requires j < k < |texts|
    ensures TotalLength(texts) >= |texts[j]| + |texts[k]|
  {
    if j > 0 {
      PairAtLeast(texts[1..], j - 1, k - 1);
    } else {
      OneAtLeast(texts[1..], k - 1);
    }
  }

  lemma {:induction false} TotalAtLeast(texts: seq<string>, i: nat, j: nat, k: nat)
    requires i < j < k < |texts|
    ensures TotalLength(texts) >= |texts[i]| + |texts[j]| + |texts[k]|
  {
    if i > 0 {
      TotalAtLeast(texts[1..], i - 1, j - 1, k - 1);
    } else {
      PairAtLeast(texts[1..], j - 1, k - 1);
    }
  }

  /** One turn of the row loop: reads a row and adds it. Whether it ends well or not, the pool grows by no
      more than the input consumed. */
  method ParseRow(scratch: Map, csv: string, position: nat, strtod: Strtod) returns (why: Option<Reason>, next: nat)
    requires scratch.Valid() && position <= |csv|
    modifies scratch, scratch.rows, scratch.strings, scratch.stateAt
    ensures position <= next <= |csv|
    ensures scratch.stringsUsed + position <= old(scratch.stringsUsed) + next
    ensures var row := ReadRow(csv[position..]);
      if row.None? then why == Some(Syntax)
      else match AddedRow(old(scratch.View()), row.value.0, strtod)
        case Accepted(p) =>
          why == None && csv[next..] == row.value.1 && scratch.Valid() && scratch.View() == old(scratch.View()) + [p]
        case Rejected(reason) => why == Some(reason)
  {
    hide AddedRow, ReadRow, TotalLength, Printable, PoolSize, StateTotal, Points;
    RowAtIsReadRow(csv, position);
    var ok, row;
    ok, row, next := ReadRowAt(csv, position);
    if !ok {
      return Some(Syntax), next;
    }
    RowConsumes(csv[position..]);
    TotalAtLeast(row, 1, 11, 14);
    forall i | 0 <= i < FIELD_COUNT ensures '\0' !in row[i] {
      PrintableHasNoNul(row[i]);
    }
    why := scratch.AddRow(row, strtod);
  }

  lemma RowsStep(points: seq<Point>, s: string, line: nat, strtod: Strtod)
    requires s != ""
    ensures var row := ReadRow(s);
      && (row.Some? ==> |row.value.1| < |s|)
      && ParseRows(points, s, line, strtod) ==
        if row.None? then Failed(line + 1, Syntax)
        else match AddedRow(points, row.value.0, strtod)
          case Rejected(why) => Failed(line + 1, why)
          case Accepted(p) => ParseRows(points + [p], row.value.1, line + 1, strtod)
  {
    hide AddedRow, ReadRow;
    if ReadRow(s).Some? {
      RowConsumes(s);
    }
  }

  lemma RowsEnd(points: seq<Point>, line: nat, strtod: Strtod)
    ensures ParseRows(points, "", line, strtod) == if points == [] then Failed(line, NoPoints) else Parsed(points)
  {
  }

  /** `custom_map_parse`: on any rejection the caller's map is untouched. At every moment of the parse the
      scratch pool holds no more bytes than were consumed after the header. */
  method ParseMap(map_: Map, csv: string, strtod: Strtod) returns (failure: Option<(nat, Reason)>)
    requires map_.Allocated()
    modifies map_, map_.rows, map_.strings, map_.stateAt
    ensures match Parse(csv, strtod)
      case Parsed(points) => failure == None && map_.Valid() && map_.View() == points
      case Failed(line, why) =>
        failure == Some((line, why)) && unchanged(map_, map_.rows, map_.strings, map_.stateAt)
  {
    hide AddedRow, ReadRow, ParseRows, StartsWithHeader;
    if csv == "" || |csv| > MAX_CSV_BYTES {
      return Some((1, CsvSize));
    }
    if !StartsWithHeader(csv) {
      return Some((1, BadHeader));
    }
    var scratch := new Map();
    assert csv[0..] == csv;
    RowAtIsReadRow(csv, 0);
    var ok, _, position := ReadRowAt(csv, 0);
    if !ok {
      return Some((1, Syntax));
    }
    ghost var header := position;
    var line := 1;
    while position < |csv|
      invariant header <= position <= |csv| && scratch.Valid() && scratch.stringsUsed <= position - header
      invariant fresh(scratch) && fresh(scratch.rows) && fresh(scratch.strings) && fresh(scratch.stateAt)
      invariant unchanged(map_, map_.rows, map_.strings, map_.stateAt)
      invariant Parse(csv, strtod) == ParseRows(scratch.View(), csv[position..], line, strtod)
      decreases |csv| - position
    {
      RowsStep(scratch.View(), csv[position..], line, strtod);
      line := line + 1;
      var why;
      why, position := ParseRow(scratch, csv, position, strtod);
      assert scratch.stringsUsed <= position - header; // also when the row is rejected
      if why.Some? {
        return Some((line, why.value));
      }
    }
    assert csv[position..] == "";
    RowsEnd(scratch.View(), line, strtod);
    assert scratch.count == |scratch.View()|;
    if scratch.count == 0 {
      return Some((line, NoPoints));
    }
    CopyMap(scratch, map_);
    return None;
  }

  // ----- the pool cannot run out -----

  lemma {:induction false} StoredCons(first: string, labels: seq<string>)
    ensures StoredAll([first] + labels) == Stored(first) + StoredAll(labels)
  {
    var all := [first] + labels;
    if labels == [] {
      assert all[..0] == [];
    } else {
      assert all[..|all| - 1] == [first] + labels[..|labels| - 1];
      StoredCons(first, labels[..|labels| - 1]);
    }
  }

  /** The labels of a states field take one byte more than the field. */
  lemma {:induction false} LabelsTake(s: string, i: nat, start: nat)
    requires start <= i <= |s|
    ensures StoredAll(Labels(s, i, start)) == |s| - start + 1
    decreases |s| - i
  {
    if i == |s| {
      assert [s[start..]] == [s[start..]] + [];
      StoredCons(s[start..], []);
    } else if s[i] == '|' {
      LabelsTake(s, i + 1, i + 1);
      StoredCons(s[start..i], Labels(s, i + 1, i + 1));
    } else {
      LabelsTake(s, i + 1, start);
    }
  }

  lemma {:induction false} StatesFit(taken: seq<string>, labels: seq<string>, statesUsed: nat, stringsUsed: nat)
    requires stringsUsed + StoredAll(labels) <= POOL_BYTES
    ensures StatesError(taken, labels, statesUsed, stringsUsed) != Some(StringStorage)
    decreases |labels|
  {
    if labels != [] {
      assert labels == [labels[0]] + labels[1..];
      StoredCons(labels[0], labels[1..]);
      StatesFit(taken + [labels[0]], labels[1..], statesUsed + 1, stringsUsed + Stored(labels[0]));
    }
  }

  /** A row stores no more than its name, description and states fields and three bytes. */
  lemma RowFits(points: seq<Point>, f: seq<string>, p: Point)
    requires |f| == FIELD_COUNT && p.states == []
    ensures var more := |f[1]| + |f[14]| + |f[11]| + 3;
      && (PoolSize(points) + more <= POOL_BYTES ==> TextsAdded(points, f, p) != Rejected(StringStorage))
      && (TextsAdded(points, f, p).Accepted? ==>
            PoolSize(points + [TextsAdded(points, f, p).value]) <= PoolSize(points) + more)
  {
    hide PoolSize, StateTotal, StoredAll, StatesError, Labels;
    StatesErrorEnd();
    LabelsTake(f[11], 0, 0);
    if PoolSize(points) + |f[1]| + |f[14]| + |f[11]| + 3 <= POOL_BYTES {
      StatesFit([], StateLabels(f[11]), StateTotal(points), PoolSize(points) + Stored(f[1]) + Stored(f[14]));
    }
    if TextsAdded(points, f, p).Accepted? {
      TotalsAppend(points, TextsAdded(points, f, p).value);
    }
  }

  lemma EncodingNeverStores(f: seq<string>, instance: nat, objectType: nat, strtod: Strtod)
    requires |f| == FIELD_COUNT
    ensures Encoding(f, instance, objectType, strtod) != Rejected(StringStorage)
  {
  }

  lemma {:induction false} DuplicateNeverStores(points: seq<Point>, name: string, objectType: nat, instance: nat)
    ensures Duplicate(points, name, objectType, instance) != Some(StringStorage)
  {
    if points != [] {
      DuplicateNeverStores(points[1..], name, objectType, instance);
    }
  }

  lemma AddedRowFits(points: seq<Point>, f: seq<string>, strtod: Strtod)
    requires |f| == FIELD_COUNT
    ensures var more := |f[1]| + |f[14]| + |f[11]| + 3;
      && (PoolSize(points) + more <= POOL_BYTES ==> AddedRow(points, f, strtod) != Rejected(StringStorage))
      && (AddedRow(points, f, strtod).Accepted? ==>
            PoolSize(points + [AddedRow(points, f, strtod).value]) <= PoolSize(points) + more)
  {
    hide Encoding, Duplicate, TextsAdded, PoolSize;
    var identity := Identity(f);
    if identity.Accepted? {
      var (instance, objectType) := identity.value;
      DuplicateNeverStores(points, f[1], objectType, instance);
      EncodingNeverStores(f, instance, objectType, strtod);
      var p := Encoding(f, instance, objectType, strtod);
      if p.Accepted? {
        RowFits(points, f, p.value);
      }
    }
  }

  /** Pool conservation: what is stored never exceeds the bytes consumed. */
  lemma {:induction false} RowsFit(points: seq<Point>, s: string, line: nat, strtod: Strtod)
    requires PoolSize(points) + |s| <= POOL_BYTES
    ensures match ParseRows(points, s, line, strtod)
      case Parsed(all) => PoolSize(all) <= PoolSize(points) + |s|
      case Failed(_, why) => why != StringStorage
    decreases |s|
  {
    hide AddedRow, PoolSize, ReadRow;
    if s != "" && ReadRow(s).Some? {
      RowConsumes(s);
      var (f, rest) := ReadRow(s).value;
      TotalAtLeast(f, 1, 11, 14);
      AddedRowFits(points, f, strtod);
      var added := AddedRow(points, f, strtod);
      if added.Accepted? {
        RowsFit(points + [added.value], rest, line + 1, strtod);
      }
    }
  }

  /** No text of legal size is rejected for lack of string storage, and an accepted one leaves in the
      pool at most as many bytes as follow its header line. */
  lemma StringsNeverRunOut(csv: string, strtod: Strtod)
    ensures match Parse(csv, strtod)
      case Parsed(points) => ReadRow(csv).Some? && PoolSize(points) <= |ReadRow(csv).value.1|
      case Failed(_, why) => why != StringStorage
  {
    hide AddedRow, ReadRow, ParseRows, StartsWithHeader;
    if csv != "" && |csv| <= MAX_CSV_BYTES && StartsWithHeader(csv) && ReadRow(csv).Some? {
      RowConsumes(csv);
      RowsFit([], ReadRow(csv).value.1, 1, strtod);
    }
  }

  // ----- what every accepted map satisfies -----

  /** Labels are nonempty, at most 63 characters, different, at most 16. */
  predicate GoodStates(states: seq<string>) {
    && |states| <= MAX_STATES
    && (forall k :: 0 <= k < |states| ==> 1 <= |states[k]| <= 63)
    && (forall j, k :: 0 <= j < k < |states| ==> states[j] != states[k])
  }

  /** A point whose texts and identifier may be published. */
  predicate GoodPoint(p: Point) {
    && ValidPoint(p)
    && 1 <= p.instance <= 4194302 && !ReservedInstance(p.instance)
    && p.objectType in {OBJECT_AI, OBJECT_BI, OBJECT_MSI, OBJECT_CSV}
    && 1 <= |p.name| <= 63 && !GatewayPrefix(p.name) && |p.description| <= 127
    && GoodStates(p.states) && (p.states != [] <==> p.objectType == OBJECT_MSI)
    && StoredAll(p.states) <= 513
  }

  predicate Distinct(points: seq<Point>) {
    forall i, j :: 0 <= i < j < |points| ==>
      points[i].name != points[j].name &&
      !(points[i].objectType == points[j].objectType && points[i].instance == points[j].instance)
  }

  lemma {:induction false} NoDuplicate(points: seq<Point>, name: string, objectType: nat, instance: nat)
    requires Duplicate(points, name, objectType, instance).None?
    ensures forall i :: 0 <= i < |points| ==>
      points[i].name != name && !(points[i].objectType == objectType && points[i].instance == instance)
  {
    if points != [] {
      NoDuplicate(points[1..], name, objectType, instance);
    }
  }

  lemma {:induction false} StatesAreGood(taken: seq<string>, labels: seq<string>, statesUsed: nat, stringsUsed: nat)
    requires GoodStates(taken) && StatesError(taken, labels, statesUsed, stringsUsed).None?
    ensures GoodStates(taken + labels)
    decreases |labels|
  {
    if labels == [] {
      assert taken + labels == taken;
    } else {
      StatesAreGood(taken + [labels[0]], labels[1..], statesUsed + 1, stringsUsed + Stored(labels[0]));
      assert taken + [labels[0]] + labels[1..] == taken + labels;
    }
  }

  lemma TextsAreGood(points: seq<Point>, f: seq<string>, p: Point)
    requires |f| == FIELD_COUNT && p.states == [] && TextsAdded(points, f, p).Accepted? && |f[11]| <= 512
    ensures var q := TextsAdded(points, f, p).value;
      && q == p.(name := f[1], description := f[14], states := q.states)
      && GoodStates(q.states) && (q.states != [] <==> p.objectType == OBJECT_MSI) && StoredAll(q.states) <= 513
  {
    if p.objectType == OBJECT_MSI {
      var labels := StateLabels(f[11]);
      StatesAreGood([], labels, StateTotal(points), PoolSize(points) + Stored(f[1]) + Stored(f[14]));
      assert [] + labels == labels;
      LabelsTake(f[11], 0, 0);
    } else {
      StatesErrorEnd();
    }
  }

  lemma EncodingKeepsIdentity(f: seq<string>, instance: nat, objectType: nat, strtod: Strtod)
    requires |f| == FIELD_COUNT
    ensures var p := Encoding(f, instance, objectType, strtod);
      p.Accepted? ==> p.value.instance == instance && p.value.objectType == objectType
  {
  }

  lemma AddedRowIsGood(points: seq<Point>, f: seq<string>, strtod: Strtod)
    requires |points| <= MAX_POINTS && |f| == FIELD_COUNT && |f[11]| <= 512 && AddedRow(points, f, strtod).Accepted?
    ensures var p := AddedRow(points, f, strtod).value;
      && GoodPoint(p) && |points| < MAX_POINTS
      && (Distinct(points) ==> Distinct(points + [p]))
  {
    hide Encoding, Duplicate, TextsAdded, StoredAll, PoolSize;
    var (instance, objectType) := Identity(f).value;
    NoDuplicate(points, f[1], objectType, instance);
    EncodingKeepsIdentity(f, instance, objectType, strtod);
    TextsAreGood(points, f, Encoding(f, instance, objectType, strtod).value);
  }

  lemma {:induction false} RowsAreGood(points: seq<Point>, s: string, line: nat, strtod: Strtod)
    requires |points| <= MAX_POINTS && Distinct(points) && forall i :: 0 <= i < |points| ==> GoodPoint(points[i])
    ensures match ParseRows(points, s, line, strtod)
      case Parsed(all) => 1 <= |all| <= MAX_POINTS && Distinct(all) && forall i :: 0 <= i < |all| ==> GoodPoint(all[i])
      case Failed(_, _) => true
    decreases |s|
  {
    hide AddedRow, ReadRow, GoodPoint;
    if s != "" && ReadRow(s).Some? {
      RowConsumes(s);
      var (f, rest) := ReadRow(s).value;
      var added := AddedRow(points, f, strtod);
      if added.Accepted? {
        AddedRowIsGood(points, f, strtod);
        RowsAreGood(points + [added.value], rest, line + 1, strtod);
      }
    }
  }

  /** Every accepted map has 1 to 128 points that the poller can poll and that may be published, with
      different names and different object identifiers. */
  lemma AcceptedMapsAreGood(csv: string, strtod: Strtod)
    requires Parse(csv, strtod).Parsed?
    ensures var points := Parse(csv, strtod).points;
      && 1 <= |points| && CustomPoll.ValidMap(points) && Distinct(points)
      && forall i :: 0 <= i < |points| ==> GoodPoint(points[i])
  {
    hide AddedRow, ReadRow, ParseRows, StartsWithHeader;
    RowsAreGood([], ReadRow(csv).value.1, 1, strtod);
  }
}
