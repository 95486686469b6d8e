/**
 The CSV row reader of main/custom_map.c, related to RFC 4180, section 2, without line breaks
 inside fields: 15 fields of printable ASCII, bare or quoted, and a line ending.
 */
module CsvReader {
  import opened Base

  const FIELD_COUNT: nat := 15
  const FIELD_BYTES: nat := 513

  // ----- how rows are written -----

  /** A field as it is written. */
  datatype Field = Bare(text: string) | Quoted(text: string)

  predicate Printable(s: string) { forall i :: 0 <= i < |s| ==> ' ' <= s[i] <= '~' }

  predicate BareText(s: string) { Printable(s) && forall i :: 0 <= i < |s| ==> s[i] != ',' && s[i] != '"' }

  predicate ValidField(f: Field) {
    && |f.text| < FIELD_BYTES
    && match f
       case Bare(text) => BareText(text)
       case Quoted(text) => Printable(text)
  }

  /** A field is at most 512 characters of printable ASCII; a comma or a quote needs quotes around the field. */
  lemma FieldRules(f: Field)
    ensures ValidField(f) <==>
      && |f.text| <= 512
      && forall i :: 0 <= i < |f.text| ==>
           32 <= f.text[i] as int <= 126 && (f.Bare? ==> f.text[i] != ',' && f.text[i] != '"')
  {
  }

  /** Quotes are doubled inside a quoted field. */
  function Escape(s: string): (e: string)
    ensures |e| >= |s|
  {
    if s == "" then "" else (if s[0] == '"' then "\"\"" else [s[0]]) + Escape(s[1..])
  }

  function PrintField(f: Field): (s: string)
    ensures |s| >= |f.text|
  {
    match f
    case Bare(text) => text
    case Quoted(text) => "\"" + Escape(text) + "\""
  }

  function PrintFields(fields: seq<Field>): string
    requires fields != []
  {
    if |fields| == 1 then PrintField(fields[0]) else PrintField(fields[0]) + "," + PrintFields(fields[1..])
  }

  function Texts(fields: seq<Field>): (texts: seq<string>)
    ensures |texts| == |fields|
  {
    if fields == [] then [] else [fields[0].text] + Texts(fields[1..])
  }

  predicate ValidFields(fields: seq<Field>) { forall i :: 0 <= i < |fields| ==> ValidField(fields[i]) }

  /** A row ends with LF, CRLF, or where the input ends. */
  predicate Ending(eol: string, rest: string) {
    eol == "\n" || eol == "\r\n" || (eol == "" && rest == "")
  }

  // ----- the reader -----

  /** Characters of a field from `s` on, `n` already stored: the text and what follows the field. */
  function ReadBody(s: string, quoted: bool, n: nat): (r: Option<(string, string)>)
    ensures r.Some? ==> |r.value.1| <= |s|
    decreases |s|
  {
    if s == "" then if quoted then None else Some(("", ""))
    else if s[0] < ' ' || s[0] > '~' then
      if !quoted && (s[0] == '\r' || s[0] == '\n') then Some(("", s)) else None
    else if quoted && s[0] == '"' && !(|s| > 1 && s[1] == '"') then Some(("", s[1..]))
    else if !quoted && s[0] == ',' then Some(("", s))
    else if !quoted && s[0] == '"' then None
    else if n + 1 >= FIELD_BYTES then None
    else
      var rest := ReadBody(s[if quoted && s[0] == '"' then 2 else 1..], quoted, n + 1);
      if rest.None? then None else Some(([s[0]] + rest.value.0, rest.value.1))
  }

  function ReadField(s: string): (r: Option<(string, string)>)
    ensures r.Some? ==> |r.value.1| <= |s|
  {
    if s != "" && s[0] == '"' then ReadBody(s[1..], true, 0) else ReadBody(s, false, 0)
  }

  /** What follows the line ending. */
  function ReadEnding(s: string): Option<string> {
    if s == "" then Some("")
    else if s[0] == '\r' then if |s| > 1 && s[1] == '\n' then Some(s[2..]) else None
    else if s[0] == '\n' then Some(s[1..])
    else None
  }

  /** `count` fields, separated by commas, and the line ending: the texts and what follows the row. */
  function ReadFields(s: string, count: nat): (r: Option<(seq<string>, string)>)
    requires count >= 1
    ensures r.Some? ==> |r.value.0| == count
    decreases |s|, count
  {
    var field := ReadField(s);
    if field.None? then None
    else
      var (text, rest) := field.value;
      if count == 1 then
        var end := ReadEnding(rest);
        if end.None? then None else Some(([text], end.value))
      else if rest == "" || rest[0] != ',' then None
      else
        var others := ReadFields(rest[1..], count - 1);
        if others.None? then None else Some(([text] + others.value.0, others.value.1))
  }

  function ReadRow(s: string): (r: Option<(seq<string>, string)>)
    ensures r.Some? ==> |r.value.0| == FIELD_COUNT
  {
    ReadFields(s, FIELD_COUNT)
  }

  // The same reader with positions in place of suffixes, as the code has it.

  function Prefixed(text: string, rest: Option<(string, nat)>): Option<(string, nat)> {
    if rest.None? then None else Some((text + rest.value.0, rest.value.1))
  }

  function BodyAt(csv: string, i: nat, quoted: bool, n: nat): (r: Option<(string, nat)>)
    requires i <= |csv|
    ensures r.Some? ==> i <= r.value.1 <= |csv|
    decreases |csv| - i
  {
    if i == |csv| then if quoted then None else Some(("", i))
    else if csv[i] < ' ' || csv[i] > '~' then
      if !quoted && (csv[i] == '\r' || csv[i] == '\n') then Some(("", i)) else None
    else if quoted && csv[i] == '"' && !(i + 1 < |csv| && csv[i + 1] == '"') then Some(("", i + 1))
    else if !quoted && csv[i] == ',' then Some(("", i))
    else if !quoted && csv[i] == '"' then None
    else if n + 1 >= FIELD_BYTES then None
    else Prefixed([csv[i]], BodyAt(csv, i + if quoted && csv[i] == '"' then 2 else 1, quoted, n + 1))
  }

  lemma PrefixedNothing(rest: Option<(string, nat)>)
    ensures Prefixed("", rest) == rest
  {
    if rest.Some? {
      assert "" + rest.value.0 == rest.value.0;
    }
  }

  lemma PrefixedNone(text: string)
    ensures Prefixed(text, None).None?
  {
  }

  lemma PrefixedEnd(text: string, i: nat)
    ensures Prefixed(text, Some(("", i))) == Some((text, i))
  {
    assert text + "" == text;
  }

  lemma PrefixedMore(text: string, c: char, rest: Option<(string, nat)>)
    ensures Prefixed(text, Prefixed([c], rest)) == Prefixed(text + [c], rest)
  {
    if rest.Some? {
      assert text + ([c] + rest.value.0) == (text + [c]) + rest.value.0;
    }
  }

  function FieldAt(csv: string, i: nat): (r: Option<(string, nat)>)
    requires i <= |csv|
    ensures r.Some? ==> i <= r.value.1 <= |csv|
  {
    if i < |csv| && csv[i] == '"' then BodyAt(csv, i + 1, true, 0) else BodyAt(csv, i, false, 0)
  }

  function EndingAt(csv: string, i: nat): (r: Option<nat>)
    requires i <= |csv|
    ensures r.Some? ==> i <= r.value <= |csv|
  {
    if i == |csv| then Some(i)
    else if csv[i] == '\r' then if i + 1 < |csv| && csv[i + 1] == '\n' then Some(i + 2) else None
    else if csv[i] == '\n' then Some(i + 1)
    else None
  }

  /** What separates field `k` of a row from what follows it. */
  function SeparatorAt(csv: string, i: nat, k: nat): (r: Option<nat>)
    requires i <= |csv|
    ensures r.Some? ==> i <= r.value <= |csv|
  {
    if k + 1 == FIELD_COUNT then EndingAt(csv, i)
    else if i < |csv| && csv[i] == ',' then Some(i + 1) else None
  }

  /** The first `k` fields from `i` on. */
  function FieldsAt(csv: string, i: nat, k: nat): (r: Option<(seq<string>, nat)>)
    requires i <= |csv| && k <= FIELD_COUNT
    ensures r.Some? ==> i <= r.value.1 <= |csv| && |r.value.0| == k
    decreases i, k
  {
    if k == 0 then Some(([], i))
    else
      var before := FieldsAt(csv, i, k - 1);
      if before.None? then None
      else
        var field := FieldAt(csv, before.value.1);
        if field.None? then None
        else
          var next := SeparatorAt(csv, field.value.1, k - 1);
          if next.None? then None else Some((before.value.0 + [field.value.0], next.value))
  }

  lemma {:induction false} FieldsStop(csv: string, i: nat, k: nat, n: nat)
    requires i <= |csv| && k <= n <= FIELD_COUNT && FieldsAt(csv, i, k).None?
    ensures FieldsAt(csv, i, n).None?
  {
    if k < n {
      FieldsStop(csv, i, k, n - 1);
    }
  }

  /** The inner loop of `read_row`, from just after the opening quote (if any). */
  method ScanBody(csv: string, start: nat, quoted: bool) returns (ok: bool, text: string, position: nat)
    requires start <= |csv|
    ensures start <= position <= |csv|
    ensures if ok then BodyAt(csv, start, quoted, 0) == Some((text, position)) else BodyAt(csv, start, quoted, 0).None?
  {
    hide Prefixed;
    position, text := start, "";
    var closed := !quoted;
    PrefixedNothing(BodyAt(csv, start, quoted, 0));
    while position < |csv|
      invariant start <= position <= |csv|
      invariant closed == !quoted
      invariant BodyAt(csv, start, quoted, 0) == Prefixed(text, BodyAt(csv, position, quoted, |text|))
    {
      var ch := csv[position];
      if ch < ' ' || ch > '~' {
        if !quoted && (ch == '\r' || ch == '\n') {
          PrefixedEnd(text, position);
          break;
        }
        PrefixedNone(text);
        return false, text, position;
      }
      if quoted && ch == '"' {
        position := position + 1;
        if position < |csv| && csv[position] == '"' {
          position := position + 1;
        } else {
          closed := true;
          PrefixedEnd(text, position);
          break;
        }
      } else {
        if !quoted && ch == ',' {
          PrefixedEnd(text, position);
          break;
        }
        if !quoted && ch == '"' {
          PrefixedNone(text);
          return false, text, position;
        }
        position := position + 1;
      }
      if |text| + 1 >= FIELD_BYTES {
        PrefixedNone(text);
        return false, text, position;
      }
      PrefixedMore(text, ch, BodyAt(csv, position, quoted, |text| + 1));
      text := text + [ch];
    }
    PrefixedEnd(text, position);
    PrefixedNone(text);
    return closed, text, position;
  }

  /** The comma after a field, or the line ending after the last one. */
  method SkipSeparator(csv: string, start: nat, field: nat) returns (ok: bool, position: nat)
    requires start <= |csv| && field < FIELD_COUNT
    ensures start <= position <= |csv|
    ensures if ok then SeparatorAt(csv, start, field) == Some(position) else SeparatorAt(csv, start, field).None?
  {
    position := start;
    if field + 1 < FIELD_COUNT {
      if position >= |csv| || csv[position] != ',' {
        return false, position;
      }
      position := position + 1;
    } else if position < |csv| {
      if csv[position] == '\r' {
        position := position + 1;
        if position >= |csv| || csv[position] != '\n' {
          return false, position;
        }
      }
      if csv[position] != '\n' {
        return false, position;
      }
      position := position + 1;
    }
    return true, position;
  }

  /** `read_row`: fills the fields and moves past the row. */
  method ReadRowAt(csv: string, start: nat) returns (ok: bool, fields: seq<string>, position: nat)
    requires start <= |csv|
    ensures start <= position <= |csv|
    ensures if ok then FieldsAt(csv, start, FIELD_COUNT) == Some((fields, position))
            else FieldsAt(csv, start, FIELD_COUNT).None?
  {
    position, fields := start, [];
    for field := 0 to FIELD_COUNT
      invariant start <= position <= |csv|
      invariant FieldsAt(csv, start, field) == Some((fields, position))
    {
      ghost var first := position;
      var quoted := position < |csv| && csv[position] == '"';
      if quoted {
        position := position + 1;
      }
      var closed, text, next := ScanBody(csv, position, quoted);
      if !closed {
        assert FieldAt(csv, first).None?;
        FieldsStop(csv, start, field + 1, FIELD_COUNT);
        return false, fields, next;
      }
      assert FieldAt(csv, first) == Some((text, next));
      var separated, after := SkipSeparator(csv, next, field);
      if !separated {
        FieldsStop(csv, start, field + 1, FIELD_COUNT);
        return false, fields, after;
      }
      fields, position := fields + [text], after;
    }
    return true, fields, position;
  }

  // Positions and suffixes describe the same reader.

  function Suffixed(csv: string, r: Option<(string, nat)>): Option<(string, string)>
    requires r.Some? ==> r.value.1 <= |csv|
  {
    if r.None? then None else Some((r.value.0, csv[r.value.1..]))
  }

  lemma {:induction false} BodyAtIsReadBody(csv: string, i: nat, quoted: bool, n: nat)
    requires i <= |csv|
    ensures ReadBody(csv[i..], quoted, n) == Suffixed(csv, BodyAt(csv, i, quoted, n))
    decreases |csv| - i
  {
    if i < |csv| {
      var s := csv[i..];
      assert s[1..] == csv[i + 1..];
      if i + 1 < |csv| {
        assert s[1] == csv[i + 1] && s[2..] == csv[i + 2..];
      }
      var k := if quoted && csv[i] == '"' then 2 else 1;
      if i + k <= |csv| {
        BodyAtIsReadBody(csv, i + k, quoted, n + 1);
      }
    }
  }

  lemma FieldAtIsReadField(csv: string, i: nat)
    requires i <= |csv|
    ensures ReadField(csv[i..]) == Suffixed(csv, FieldAt(csv, i))
  {
    if i < |csv| && csv[i] == '"' {
      assert csv[i..][1..] == csv[i + 1..];
      BodyAtIsReadBody(csv, i + 1, true, 0);
    } else {
      BodyAtIsReadBody(csv, i, false, 0);
    }
  }

  lemma EndingAtIsReadEnding(csv: string, i: nat)
    requires i <= |csv|
    ensures ReadEnding(csv[i..]) == if EndingAt(csv, i).None? then None else Some(csv[EndingAt(csv, i).value..])
  {
    var s := csv[i..];
    if i < |csv| {
      assert s[1..] == csv[i + 1..];
      if i + 1 < |csv| {
        assert s[1] == csv[i + 1] && s[2..] == csv[i + 2..];
      }
    }
  }

  /** The row from `start` is the `k` fields read up to `i`, and the rest read from there. */
  predicate Splits(csv: string, start: nat, k: nat, fields: seq<string>, i: nat)
    requires start <= |csv| && i <= |csv| && k < FIELD_COUNT
  {
    var rest := ReadFields(csv[i..], FIELD_COUNT - k);
    var row := FieldsAt(csv, start, FIELD_COUNT);
    if rest.None? then row.None?
    else row.Some? && row.value.0 == fields + rest.value.0 && csv[row.value.1..] == rest.value.1
  }

  lemma SplitsAtLast(csv: string, start: nat, fields: seq<string>, i: nat)
    requires start <= |csv| && FieldsAt(csv, start, FIELD_COUNT - 1) == Some((fields, i)) && FieldAt(csv, i).Some?
    ensures Splits(csv, start, FIELD_COUNT - 1, fields, i)
  {
    FieldAtIsReadField(csv, i);
    var (text, j) := FieldAt(csv, i).value;
    EndingAtIsReadEnding(csv, j);
  }

  lemma SplitsBefore(csv: string, start: nat, k: nat, fields: seq<string>, i: nat, text: string, j: nat)
    requires start <= |csv| && i <= |csv| && k + 1 < FIELD_COUNT
    requires FieldAt(csv, i) == Some((text, j)) && j < |csv| && csv[j] == ','
    requires Splits(csv, start, k + 1, fields + [text], j + 1)
    ensures Splits(csv, start, k, fields, i)
  {
    FieldAtIsReadField(csv, i);
    assert csv[j..][1..] == csv[j + 1..];
    var rest := ReadFields(csv[j + 1..], FIELD_COUNT - k - 1);
    assert rest.Some? ==> fields + [text] + rest.value.0 == fields + ([text] + rest.value.0);
  }

  lemma NoSplit(csv: string, start: nat, k: nat, fields: seq<string>, i: nat)
    requires start <= |csv| && k < FIELD_COUNT && FieldsAt(csv, start, k) == Some((fields, i))
    requires FieldAt(csv, i).None? || (k + 1 < FIELD_COUNT && SeparatorAt(csv, FieldAt(csv, i).value.1, k).None?)
    ensures Splits(csv, start, k, fields, i)
  {
    FieldAtIsReadField(csv, i);
    FieldsStop(csv, start, k + 1, FIELD_COUNT);
  }

  lemma {:induction false} RowSplits(csv: string, start: nat, k: nat, fields: seq<string>, i: nat)
    requires start <= |csv| && k < FIELD_COUNT && FieldsAt(csv, start, k) == Some((fields, i))
    ensures Splits(csv, start, k, fields, i)
    decreases FIELD_COUNT - k
  {
    hide Splits, FieldAt;
    var field := FieldAt(csv, i);
    if field.None? || (k + 1 < FIELD_COUNT && SeparatorAt(csv, field.value.1, k).None?) {
      NoSplit(csv, start, k, fields, i);
    } else if k + 1 == FIELD_COUNT {
      SplitsAtLast(csv, start, fields, i);
    } else {
      var (text, j) := field.value;
      RowSplits(csv, start, k + 1, fields + [text], j + 1);
      SplitsBefore(csv, start, k, fields, i, text, j);
    }
  }

  /** The row at a position is the row at the start of what is left there. */
  lemma RowAtIsReadRow(csv: string, start: nat)
    requires start <= |csv|
    ensures var row := FieldsAt(csv, start, FIELD_COUNT);
      ReadRow(csv[start..]) == if row.None? then None else Some((row.value.0, csv[row.value.1..]))
  {
    RowSplits(csv, start, 0, [], start);
    var rest := ReadFields(csv[start..], FIELD_COUNT);
    assert rest.Some? ==> [] + rest.value.0 == rest.value.0;
  }

  // ----- exactness -----

  /** What may follow a bare field. */
  predicate EndsBare(rest: string) { rest == "" || rest[0] == ',' || rest[0] == '\r' || rest[0] == '\n' }

  /** What may follow a closing quote. */
  predicate EndsQuoted(rest: string) { rest == "" || rest[0] != '"' }

  lemma {:induction false} BareExact(s: string, n: nat, text: string, rest: string)
    requires n < FIELD_BYTES
    ensures ReadBody(s, false, n) == Some((text, rest)) <==>
      s == text + rest && BareText(text) && EndsBare(rest) && n + |text| < FIELD_BYTES
    decreases |s|
  {
    if text == "" {
      assert text + rest == rest;
    } else if s != "" {
      assert text == [text[0]] + text[1..];
      assert (text + rest)[0] == text[0] && (text + rest)[1..] == text[1..] + rest;
      assert s == [s[0]] + s[1..];
      if n + 1 < FIELD_BYTES {
        BareExact(s[1..], n + 1, text[1..], rest);
        assert BareText(text) <==> BareText([text[0]]) && BareText(text[1..]) by {
          assert forall i :: 1 <= i < |text| ==> text[i] == text[1..][i - 1];
        }
      }
    }
  }

  /** The written form of a quoted field from its `n`-th character on. */
  predicate QuotedForm(s: string, n: nat, text: string, rest: string) {
    s == Escape(text) + "\"" + rest && Printable(text) && EndsQuoted(rest) && n + |text| < FIELD_BYTES
  }

  /** `s` goes on with the character `c`, a quote doubled. */
  predicate GoesOn(s: string, c: char) {
    s != "" && s[0] == c && ' ' <= c <= '~' && (c == '"' ==> |s| > 1 && s[1] == '"')
  }

  function Taken(c: char): nat { if c == '"' then 2 else 1 }

  lemma FormStep(s: string, n: nat, text: string, rest: string)
    requires text != ""
    ensures QuotedForm(s, n, text, rest) <==>
      GoesOn(s, text[0]) && n + 1 < FIELD_BYTES && QuotedForm(s[Taken(text[0])..], n + 1, text[1..], rest)
  {
    var k := Taken(text[0]);
    var head := if text[0] == '"' then "\"\"" else [text[0]];
    var tail := Escape(text[1..]) + "\"" + rest;
    assert Escape(text) + "\"" + rest == head + tail;
    assert (head + tail)[k..] == tail;
    assert text == [text[0]] + text[1..];
    assert forall i :: 1 <= i < |text| ==> text[i] == text[1..][i - 1];
    if GoesOn(s, text[0]) {
      assert s == head + s[k..];
    }
  }

  lemma ReadStep(s: string, n: nat, text: string, rest: string)
    requires text != "" && n < FIELD_BYTES
    ensures ReadBody(s, true, n) == Some((text, rest)) <==>
      && GoesOn(s, text[0]) && n + 1 < FIELD_BYTES
      && ReadBody(s[Taken(text[0])..], true, n + 1) == Some((text[1..], rest))
  {
    assert text == [text[0]] + text[1..];
  }

  lemma QuotedEnd(s: string, n: nat, rest: string)
    requires n < FIELD_BYTES
    ensures ReadBody(s, true, n) == Some(("", rest)) <==> QuotedForm(s, n, "", rest)
  {
    var written := Escape("") + "\"" + rest;
    assert written == "\"" + rest && written[1..] == rest;
    if s != "" {
      assert s == [s[0]] + s[1..];
    }
  }

  lemma {:induction false} QuotedExact(s: string, n: nat, text: string, rest: string)
    requires n < FIELD_BYTES
    ensures ReadBody(s, true, n) == Some((text, rest)) <==> QuotedForm(s, n, text, rest)
    decreases |text|
  {
    hide ReadBody, QuotedForm;
    if text == "" {
      QuotedEnd(s, n, rest);
    } else {
      FormStep(s, n, text, rest);
      ReadStep(s, n, text, rest);
      if GoesOn(s, text[0]) && n + 1 < FIELD_BYTES {
        QuotedExact(s[Taken(text[0])..], n + 1, text[1..], rest);
      }
    }
  }

  /** What a field may be followed by. */
  predicate Ends(f: Field, rest: string) { if f.Bare? then EndsBare(rest) else EndsQuoted(rest) }

  lemma FieldComplete(f: Field, rest: string)
    requires ValidField(f) && Ends(f, rest)
    ensures ReadField(PrintField(f) + rest) == Some((f.text, rest))
  {
    var s := PrintField(f) + rest;
    match f {
      case Bare(text) =>
        BareExact(s, 0, text, rest);
        assert text != "" ==> s[0] == text[0];
      case Quoted(text) =>
        assert s[1..] == Escape(text) + "\"" + rest;
        QuotedExact(s[1..], 0, text, rest);
    }
  }

  lemma FieldSound(s: string) returns (f: Field)
    requires ReadField(s).Some?
    ensures var (text, rest) := ReadField(s).value;
      f.text == text && ValidField(f) && Ends(f, rest) && s == PrintField(f) + rest
  {
    var (text, rest) := ReadField(s).value;
    if s != "" && s[0] == '"' {
      QuotedExact(s[1..], 0, text, rest);
      f := Quoted(text);
      assert s == "\"" + s[1..];
    } else {
      BareExact(s, 0, text, rest);
      f := Bare(text);
    }
  }

  lemma LastFieldComplete(f: Field, eol: string, rest: string)
    requires ValidField(f) && Ending(eol, rest)
    ensures ReadFields(PrintField(f) + (eol + rest), 1) == Some(([f.text], rest))
  {
    FieldComplete(f, eol + rest);
    assert eol == "\n" ==> (eol + rest)[1..] == rest;
    assert eol == "\r\n" ==> (eol + rest)[2..] == rest;
    assert eol == "" ==> eol + rest == rest;
  }

  lemma Regroup(first: string, others: string, rest: string)
    ensures (first + "," + others) + rest == first + ("," + (others + rest))
  {
  }

  lemma {:induction false} FieldsComplete(fields: seq<Field>, eol: string, rest: string)
    requires fields != [] && ValidFields(fields) && Ending(eol, rest)
    ensures ReadFields(PrintFields(fields) + (eol + rest), |fields|) == Some((Texts(fields), rest))
    decreases |fields|
  {
    if |fields| == 1 {
      LastFieldComplete(fields[0], eol, rest);
      assert Texts(fields) == [fields[0].text];
    } else {
      var tail := PrintFields(fields[1..]) + (eol + rest);
      FieldComplete(fields[0], "," + tail);
      assert ("," + tail)[1..] == tail;
      FieldsComplete(fields[1..], eol, rest);
      Regroup(PrintField(fields[0]), PrintFields(fields[1..]), eol + rest);
    }
  }

  lemma EndingSound(s: string) returns (eol: string)
    requires ReadEnding(s).Some?
    ensures s == eol + ReadEnding(s).value && Ending(eol, ReadEnding(s).value)
  {
    eol := if s == "" then "" else if s[0] == '\r' then "\r\n" else "\n";
    if s != "" {
      assert s[0] == '\r' ==> s == s[..2] + s[2..];
      assert s == s[..1] + s[1..];
    }
  }

  lemma LastFieldSound(s: string) returns (f: Field, eol: string)
    requires ReadFields(s, 1).Some?
    ensures var (texts, rest) := ReadFields(s, 1).value;
      && texts == [f.text] && ValidField(f) && Ending(eol, rest) && s == PrintField(f) + (eol + rest)
  {
    f := FieldSound(s);
    eol := EndingSound(ReadField(s).value.1);
  }

  lemma {:induction false} FieldsSound(s: string, count: nat) returns (fields: seq<Field>, eol: string)
    requires count >= 1 && ReadFields(s, count).Some?
    ensures var (texts, rest) := ReadFields(s, count).value;
      && |fields| == count && ValidFields(fields) && Texts(fields) == texts
      && Ending(eol, rest) && s == PrintFields(fields) + (eol + rest)
    decreases count
  {
    if count == 1 {
      var f, end := LastFieldSound(s);
      fields, eol := [f], end;
      assert Texts(fields) == [f.text];
    } else {
      var f := FieldSound(s);
      var after := ReadField(s).value.1;
      var others, end := FieldsSound(after[1..], count - 1);
      fields, eol := [f] + others, end;
      assert fields[1..] == others;
      assert after == "," + after[1..];
      Regroup(PrintField(f), PrintFields(others), eol + ReadFields(after[1..], count - 1).value.1);
    }
  }

  /** A row, as text: 15 valid fields and a line ending. */
  ghost predicate WrittenRow(fields: seq<Field>, eol: string, s: string, rest: string) {
    && |fields| == FIELD_COUNT && ValidFields(fields) && Ending(eol, rest)
    && s == PrintFields(fields) + (eol + rest)
  }

  /** CSV exactness: the reader returns `texts` and stops before `rest` exactly when the input starts
      with a well-formed row of those texts. In particular printing any 15 fields and reading them back
      is the identity. */
  lemma RowExact(s: string, texts: seq<string>, rest: string)
    ensures ReadRow(s) == Some((texts, rest)) <==>
      exists fields, eol :: WrittenRow(fields, eol, s, rest) && Texts(fields) == texts
  {
    if ReadRow(s) == Some((texts, rest)) {
      var fields, eol := FieldsSound(s, FIELD_COUNT);
      assert WrittenRow(fields, eol, s, rest) && Texts(fields) == texts;
    }
    if exists fields, eol :: WrittenRow(fields, eol, s, rest) && Texts(fields) == texts {
      var fields, eol :| WrittenRow(fields, eol, s, rest) && Texts(fields) == texts;
      FieldsComplete(fields, eol, rest);
    }
  }

  lemma {:induction false} TextsAt(fields: seq<Field>)
    ensures forall i :: 0 <= i < |fields| ==> Texts(fields)[i] == fields[i].text
  {
    if fields != [] {
      TextsAt(fields[1..]);
    }
  }

  /** Any text of printable characters can be written as a field, so any 15 such texts as a row. */
  lemma QuotedRowReadsBack(texts: seq<string>, eol: string, rest: string)
    requires |texts| == FIELD_COUNT && Ending(eol, rest)
    requires forall i :: 0 <= i < FIELD_COUNT ==> Printable(texts[i]) && |texts[i]| < FIELD_BYTES
    ensures var fields := seq(FIELD_COUNT, i requires 0 <= i < FIELD_COUNT => Quoted(texts[i]));
      ReadRow(PrintFields(fields) + (eol + rest)) == Some((texts, rest))
  {
    var fields := seq(FIELD_COUNT, i requires 0 <= i < FIELD_COUNT => Quoted(texts[i]));
    TextsAt(fields);
    assert Texts(fields) == texts;
    FieldsComplete(fields, eol, rest);
  }

  // ----- how much input a row takes -----

  function TotalLength(texts: seq<string>): nat {
    if texts == [] then 0 else |texts[0]| + TotalLength(texts[1..])
  }

  lemma {:induction false} PrintedLength(fields: seq<Field>)
    requires fields != []
    ensures |PrintFields(fields)| >= TotalLength(Texts(fields)) + |fields| - 1
  {
    if |fields| > 1 {
      PrintedLength(fields[1..]);
      assert Texts(fields)[1..] == Texts(fields[1..]);
    } else {
      assert Texts(fields) == [fields[0].text];
      assert TotalLength(Texts(fields)) == |fields[0].text|;
    }
  }

  /** A row uses up its texts and 14 commas at least, and its texts are printable. */
  lemma RowConsumes(s: string)
    requires ReadRow(s).Some?
    ensures var (texts, rest) := ReadRow(s).value;
      && |texts| == FIELD_COUNT
      && |rest| + TotalLength(texts) + 14 <= |s|
      && forall i :: 0 <= i < FIELD_COUNT ==> Printable(texts[i]) && |texts[i]| <= 512
  {
    var (texts, rest) := ReadRow(s).value;
    var fields, eol := FieldsSound(s, FIELD_COUNT);
    PrintedLength(fields);
    TextsAt(fields);
  }
}
