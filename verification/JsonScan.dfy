/**
 The two scans that main/gateway_config.c runs before the recursive JSON parser: no NUL may appear
 in any decoded string, and values may not nest. Both are related here to the grammar of RFC 8259.
 */
module JsonScan {

  // ----- JSON texts (RFC 8259, sections 2 and 7), with their layout -----

  /** One character of a string as it is written. */
  datatype Unit = Plain(c: char) | Escaped(c: char) | Hex(digits: string)

  /** A JSON value as it is written. An object has a key before each value, an array does not. */
  datatype Json =
    | Scalar(token: string) // number, true, false or null
    | Text(units: seq<Unit>)
    | Container(isObject: bool, slots: Slots)

  datatype Slots = Blank(space: string) | One(slot: Slot) | More(slot: Slot, rest: Slots)

  datatype Key = NoKey | Key(units: seq<Unit>, beforeColon: string, afterColon: string)

  datatype Slot = Slot(before: string, key: Key, value: Json, after: string)

  predicate Space(s: string) {
    forall i :: 0 <= i < |s| ==> s[i] == ' ' || s[i] == '\t' || s[i] == '\n' || s[i] == '\r'
  }

  predicate HexDigit(c: char) { '0' <= c <= '9' || 'a' <= c <= 'f' || 'A' <= c <= 'F' }

  predicate ValidUnit(u: Unit) {
    match u
    case Plain(c) => c >= ' ' && c != '"' && c != '\\'
    case Escaped(c) => c in "\"\\/bfnrt"
    case Hex(digits) => |digits| == 4 && forall i :: 0 <= i < 4 ==> HexDigit(digits[i])
  }

  predicate ValidUnits(units: seq<Unit>) { forall i :: 0 <= i < |units| ==> ValidUnit(units[i]) }

  /** Literals and numbers are written with these characters only. */
  predicate ValidToken(token: string) {
    forall i :: 0 <= i < |token| ==>
      '0' <= token[i] <= '9' || 'a' <= token[i] <= 'z' || token[i] in "+-.E"
  }

  predicate ValidJson(v: Json) {
    match v
    case Scalar(token) => ValidToken(token)
    case Text(units) => ValidUnits(units)
    case Container(isObject, slots) => ValidSlots(slots, isObject)
  }

  predicate ValidSlots(slots: Slots, isObject: bool) {
    match slots
    case Blank(space) => Space(space)
    case One(slot) => ValidSlot(slot, isObject)
    case More(slot, rest) => ValidSlot(slot, isObject) && !rest.Blank? && ValidSlots(rest, isObject)
  }

  predicate ValidSlot(slot: Slot, isObject: bool) {
    && Space(slot.before) && Space(slot.after) && ValidJson(slot.value)
    && slot.key.Key? == isObject
    && (slot.key.Key? ==> ValidUnits(slot.key.units) && Space(slot.key.beforeColon) && Space(slot.key.afterColon))
  }

  // ----- the text of a value -----

  function PrintUnit(u: Unit): string {
    match u
    case Plain(c) => [c]
    case Escaped(c) => ['\\', c]
    case Hex(digits) => "\\u" + digits
  }

  function PrintUnits(units: seq<Unit>): string {
    if units == [] then "" else PrintUnit(units[0]) + PrintUnits(units[1..])
  }

  function PrintText(units: seq<Unit>): string { "\"" + PrintUnits(units) + "\"" }

  function Print(v: Json): string {
    match v
    case Scalar(token) => token
    case Text(units) => PrintText(units)
    case Container(isObject, slots) =>
      (if isObject then "{" else "[") + PrintSlots(slots) + (if isObject then "}" else "]")
  }

  function PrintSlots(slots: Slots): string {
    match slots
    case Blank(space) => space
    case One(slot) => PrintSlot(slot)
    case More(slot, rest) => PrintSlot(slot) + "," + PrintSlots(rest)
  }

  function PrintKey(key: Key): string {
    match key
    case NoKey => ""
    case Key(units, beforeColon, afterColon) => PrintText(units) + beforeColon + ":" + afterColon
  }

  function PrintSlot(slot: Slot): string {
    slot.before + PrintKey(slot.key) + Print(slot.value) + slot.after
  }

  // ----- what the scans are about -----

  /** Scalars and strings have depth 0, every object or array adds one. */
  function Depth(v: Json): nat {
    if v.Container? then 1 + DepthOf(v.slots) else 0
  }

  function DepthOf(slots: Slots): nat {
    match slots
    case Blank(_) => 0
    case One(slot) => Depth(slot.value)
    case More(slot, rest) => if Depth(slot.value) < DepthOf(rest) then DepthOf(rest) else Depth(slot.value)
  }

  /** U+0000 among the decoded characters. Only the escape \u0000 produces it. */
  predicate NulUnits(units: seq<Unit>) { exists i :: 0 <= i < |units| && units[i] == Hex("0000") }

  predicate HasNul(v: Json) {
    match v
    case Scalar(_) => false
    case Text(units) => NulUnits(units)
    case Container(_, slots) => SlotsHaveNul(slots)
  }

  predicate SlotsHaveNul(slots: Slots) {
    match slots
    case Blank(_) => false
    case One(slot) => SlotHasNul(slot)
    case More(slot, rest) => SlotHasNul(slot) || SlotsHaveNul(rest)
  }

  predicate SlotHasNul(slot: Slot) {
    (slot.key.Key? && NulUnits(slot.key.units)) || HasNul(slot.value)
  }

  // ----- the scans -----

  function Skip(s: string, n: nat): (t: string)
    ensures n > 0 && s != "" ==> |t| < |s|
  {
    if n <= |s| then s[n..] else ""
  }

  /** `gateway_json_is_flat` on what is left of the text. */
  predicate FlatFrom(s: string, quoted: bool, depth: nat)
    decreases |s|
  {
    if s == "" then !quoted && depth == 0
    else if quoted && s[0] == '\\' then FlatFrom(Skip(s, 2), quoted, depth)
    else if s[0] == '"' then FlatFrom(s[1..], !quoted, depth)
    else if quoted then FlatFrom(s[1..], quoted, depth)
    else if s[0] == '{' || s[0] == '[' then depth == 0 && FlatFrom(s[1..], quoted, depth + 1)
    else if s[0] == '}' || s[0] == ']' then depth != 0 && FlatFrom(s[1..], quoted, depth - 1)
    else FlatFrom(s[1..], quoted, depth)
  }

  method IsFlat(text: string) returns (flat: bool)
    ensures flat == FlatFrom(text, false, 0)
  {
    var quoted, depth := false, 0;
    var i := 0;
    while i < |text|
      invariant 0 <= i <= |text| + 1
      invariant depth >= 0
      invariant FlatFrom(text, false, 0) == FlatFrom(Skip(text, i), quoted, depth)
    {
      if quoted && text[i] == '\\' {
        assert Skip(Skip(text, i), 2) == Skip(text, i + 2);
        i := i + 2;
      } else {
        assert Skip(text, i)[1..] == Skip(text, i + 1);
        if text[i] == '"' {
          quoted := !quoted;
        } else if !quoted {
          if text[i] == '{' || text[i] == '[' {
            depth := depth + 1;
            if depth > 1 {
              return false;
            }
          } else if text[i] == '}' || text[i] == ']' {
            if depth == 0 {
              return false;
            }
            depth := depth - 1;
          }
        }
        i := i + 1;
      }
    }
    return !quoted && depth == 0;
  }

  /** The escape scan of `gateway_json_has_nul` on what is left of the text. */
  predicate NulEscapeFrom(s: string)
    decreases |s|
  {
    if s == "" then false
    else if s[0] == '\\' && |s| > 1 then "\\u0000" <= s || NulEscapeFrom(s[2..])
    else NulEscapeFrom(s[1..])
  }

  method HasNulCharacter(text: string) returns (found: bool)
    ensures found == ('\0' in text || NulEscapeFrom(text))
  {
    for i := 0 to |text|
      invariant '\0' !in text[..i]
    {
      if text[i] == '\0' {
        return true;
      }
    }
    assert text[..|text|] == text;
    var i := 0;
    while i < |text|
      invariant 0 <= i <= |text|
      invariant NulEscapeFrom(text) == NulEscapeFrom(text[i..])
    {
      if text[i] == '\\' && i + 1 < |text| {
        if i + 5 < |text| && text[i..i + 6] == "\\u0000" {
          assert text[i..][..6] == text[i..i + 6];
          return true;
        }
        if i + 6 <= |text| {
          assert text[i..][..6] == text[i..i + 6];
        }
        assert text[i..][2..] == text[i + 2..];
        i := i + 2;
      } else {
        assert text[i..][1..] == text[i + 1..];
        i := i + 1;
      }
    }
    return false;
  }

  // ----- IsFlat agrees with the grammar -----

  /** Characters that the flat scan passes over outside strings. */
  predicate Neutral(s: string) {
    forall i :: 0 <= i < |s| ==> s[i] !in "\"{}[]"
  }

  lemma {:induction false} FlatNeutral(s: string, rest: string, depth: nat)
    requires Neutral(s)
    ensures FlatFrom(s + rest, false, depth) == FlatFrom(rest, false, depth)
    decreases |s|
  {
    if s == "" {
      assert s + rest == rest;
    } else {
      assert (s + rest)[1..] == s[1..] + rest;
      FlatNeutral(s[1..], rest, depth);
    }
  }

  lemma {:induction false} FlatHex(digits: string, rest: string, depth: nat)
    requires forall i :: 0 <= i < |digits| ==> HexDigit(digits[i])
    ensures FlatFrom(digits + rest, true, depth) == FlatFrom(rest, true, depth)
    decreases |digits|
  {
    if digits == "" {
      assert digits + rest == rest;
    } else {
      assert (digits + rest)[1..] == digits[1..] + rest;
      FlatHex(digits[1..], rest, depth);
    }
  }

  lemma FlatUnit(u: Unit, rest: string, depth: nat)
    requires ValidUnit(u)
    ensures FlatFrom(PrintUnit(u) + rest, true, depth) == FlatFrom(rest, true, depth)
  {
    var s := PrintUnit(u) + rest;
    match u {
      case Plain(c) =>
        assert s[1..] == rest;
      case Escaped(c) =>
        assert Skip(s, 2) == rest;
      case Hex(digits) =>
        assert Skip(s, 2) == digits + rest;
        FlatHex(digits, rest, depth);
    }
  }

  lemma {:induction false} FlatUnits(units: seq<Unit>, rest: string, depth: nat)
    requires ValidUnits(units)
    ensures FlatFrom(PrintUnits(units) + rest, true, depth) == FlatFrom(rest, true, depth)
    decreases |units|
  {
    if units == [] {
      assert PrintUnits(units) + rest == rest;
    } else {
      assert PrintUnits(units) + rest == PrintUnit(units[0]) + (PrintUnits(units[1..]) + rest);
      FlatUnit(units[0], PrintUnits(units[1..]) + rest, depth);
      FlatUnits(units[1..], rest, depth);
    }
  }

  /** Whatever a string contains, the scan comes out of it as it went in. */
  lemma FlatText(units: seq<Unit>, rest: string, depth: nat)
    requires ValidUnits(units)
    ensures FlatFrom(PrintText(units) + rest, false, depth) == FlatFrom(rest, false, depth)
  {
    var tail := "\"" + rest;
    assert (PrintText(units) + rest)[1..] == PrintUnits(units) + tail;
    FlatUnits(units, tail, depth);
    assert tail[1..] == rest;
  }

  lemma FlatOpen(open: string, rest: string, depth: nat)
    requires open == "{" || open == "["
    ensures FlatFrom(open + rest, false, depth) <==> depth == 0 && FlatFrom(rest, false, 1)
  {
    assert (open + rest)[1..] == rest;
  }

  lemma FlatClose(close: string, rest: string)
    requires close == "}" || close == "]"
    ensures FlatFrom(close + rest, false, 1) <==> FlatFrom(rest, false, 0)
  {
    assert (close + rest)[1..] == rest;
  }

  lemma {:induction false} FlatValue(v: Json, rest: string, depth: nat)
    requires ValidJson(v) && depth <= 1
    ensures FlatFrom(Print(v) + rest, false, depth) <==> depth + Depth(v) <= 1 && FlatFrom(rest, false, depth)
    decreases v, 0
  {
    hide FlatFrom, PrintSlots, PrintText, ValidUnits;
    match v {
      case Scalar(token) => FlatNeutral(token, rest, depth);
      case Text(units) => FlatText(units, rest, depth);
      case Container(isObject, slots) =>
        var open, close := if isObject then "{" else "[", if isObject then "}" else "]";
        var tail := PrintSlots(slots) + (close + rest);
        assert Print(v) + rest == open + tail;
        FlatOpen(open, tail, depth);
        FlatSlots(slots, isObject, close + rest, 1);
        FlatClose(close, rest);
    }
  }

  lemma {:induction false} FlatSlots(slots: Slots, isObject: bool, rest: string, depth: nat)
    requires ValidSlots(slots, isObject) && depth <= 1
    ensures FlatFrom(PrintSlots(slots) + rest, false, depth) <==>
      depth + DepthOf(slots) <= 1 && FlatFrom(rest, false, depth)
    decreases slots, 0
  {
    hide FlatFrom, PrintSlot;
    match slots {
      case Blank(space) => FlatNeutral(space, rest, depth);
      case One(slot) => FlatSlot(slot, isObject, rest, depth);
      case More(slot, more) =>
        var tail := "," + (PrintSlots(more) + rest);
        assert PrintSlots(slots) + rest == PrintSlot(slot) + tail;
        FlatSlot(slot, isObject, tail, depth);
        FlatNeutral(",", PrintSlots(more) + rest, depth);
        FlatSlots(more, isObject, rest, depth);
    }
  }

  lemma FlatKey(key: Key, rest: string, depth: nat)
    requires key.Key? ==> ValidUnits(key.units) && Space(key.beforeColon) && Space(key.afterColon)
    ensures FlatFrom(PrintKey(key) + rest, false, depth) == FlatFrom(rest, false, depth)
  {
    hide FlatFrom, PrintText, ValidUnits;
    if key.NoKey? {
      assert PrintKey(key) + rest == rest;
    } else {
      var colon := key.beforeColon + ":" + key.afterColon;
      assert PrintKey(key) + rest == PrintText(key.units) + (colon + rest);
      FlatText(key.units, colon + rest, depth);
      FlatNeutral(colon, rest, depth);
    }
  }

  lemma {:induction false} FlatSlot(slot: Slot, isObject: bool, rest: string, depth: nat)
    requires ValidSlot(slot, isObject) && depth <= 1
    ensures FlatFrom(PrintSlot(slot) + rest, false, depth) <==>
      depth + Depth(slot.value) <= 1 && FlatFrom(rest, false, depth)
    decreases slot, 0
  {
    hide FlatFrom, PrintKey, Print;
    var tail := Print(slot.value) + (slot.after + rest);
    assert PrintSlot(slot) + rest == slot.before + (PrintKey(slot.key) + tail);
    FlatNeutral(slot.before, PrintKey(slot.key) + tail, depth);
    FlatKey(slot.key, tail, depth);
    FlatValue(slot.value, slot.after + rest, depth);
    FlatNeutral(slot.after, rest, depth);
  }

  /** For every JSON text, with any space around it, the scan accepts exactly nesting depth at most one. */
  lemma FlatExactly(before: string, v: Json, after: string)
    requires ValidJson(v) && Space(before) && Space(after)
    ensures FlatFrom(before + Print(v) + after, false, 0) <==> Depth(v) <= 1
  {
    assert before + Print(v) + after == before + (Print(v) + after);
    FlatNeutral(before, Print(v) + after, 0);
    FlatValue(v, after, 0);
    assert after == after + "";
    FlatNeutral(after, "", 0);
  }

  // ----- HasNulCharacter agrees with the grammar -----

  predicate NoBackslash(s: string) { forall i :: 0 <= i < |s| ==> s[i] != '\\' }

  lemma {:induction false} NulSkips(s: string, rest: string)
    requires NoBackslash(s)
    ensures NulEscapeFrom(s + rest) == NulEscapeFrom(rest)
    decreases |s|
  {
    if s == "" {
      assert s + rest == rest;
    } else {
      assert (s + rest)[1..] == s[1..] + rest;
      NulSkips(s[1..], rest);
    }
  }

  lemma HexIsNul(digits: string, rest: string)
    requires |digits| == 4
    ensures "\\u0000" <= "\\u" + digits + rest <==> digits == "0000"
  {
    var s := "\\u" + digits + rest;
    assert s[2..6] == digits && s[..6] == "\\u" + digits;
    assert "\\u0000"[2..6] == "0000";
    if digits == "0000" {
      assert s[..6] == "\\u0000";
    }
  }

  lemma NulUnit(u: Unit, rest: string)
    requires ValidUnit(u)
    ensures NulEscapeFrom(PrintUnit(u) + rest) <==> u == Hex("0000") || NulEscapeFrom(rest)
  {
    var s := PrintUnit(u) + rest;
    match u {
      case Plain(c) =>
        assert s[1..] == rest;
      case Escaped(c) =>
        assert s[1] == c && s[2..] == rest;
      case Hex(digits) =>
        assert s[2..] == digits + rest;
        NulSkips(digits, rest);
        HexIsNul(digits, rest);
    }
  }

  lemma {:induction false} NulInUnits(units: seq<Unit>, rest: string)
    requires ValidUnits(units)
    ensures NulEscapeFrom(PrintUnits(units) + rest) <==> NulUnits(units) || NulEscapeFrom(rest)
    decreases |units|
  {
    if units == [] {
      assert PrintUnits(units) + rest == rest;
    } else {
      assert PrintUnits(units) + rest == PrintUnit(units[0]) + (PrintUnits(units[1..]) + rest);
      NulUnit(units[0], PrintUnits(units[1..]) + rest);
      NulInUnits(units[1..], rest);
      assert NulUnits(units) <==> units[0] == Hex("0000") || NulUnits(units[1..]) by {
        if NulUnits(units) && units[0] != Hex("0000") {
          var i :| 0 <= i < |units| && units[i] == Hex("0000");
          assert units[1..][i - 1] == Hex("0000");
        }
      }
    }
  }

  lemma NulInText(units: seq<Unit>, rest: string)
    requires ValidUnits(units)
    ensures NulEscapeFrom(PrintText(units) + rest) <==> NulUnits(units) || NulEscapeFrom(rest)
  {
    var tail := "\"" + rest;
    assert (PrintText(units) + rest)[1..] == PrintUnits(units) + tail;
    NulInUnits(units, tail);
    assert tail[1..] == rest;
  }

  lemma {:induction false} NulInValue(v: Json, rest: string)
    requires ValidJson(v)
    ensures NulEscapeFrom(Print(v) + rest) <==> HasNul(v) || NulEscapeFrom(rest)
    decreases v, 0
  {
    hide NulEscapeFrom, PrintSlots, PrintText, NulUnits, ValidUnits;
    match v {
      case Scalar(token) => NulSkips(token, rest);
      case Text(units) => NulInText(units, rest);
      case Container(isObject, slots) =>
        var open, close := if isObject then "{" else "[", if isObject then "}" else "]";
        assert Print(v) + rest == open + (PrintSlots(slots) + (close + rest));
        NulSkips(open, PrintSlots(slots) + (close + rest));
        NulInSlots(slots, isObject, close + rest);
        NulSkips(close, rest);
    }
  }

  lemma {:induction false} NulInSlots(slots: Slots, isObject: bool, rest: string)
    requires ValidSlots(slots, isObject)
    ensures NulEscapeFrom(PrintSlots(slots) + rest) <==> SlotsHaveNul(slots) || NulEscapeFrom(rest)
    decreases slots, 0
  {
    hide NulEscapeFrom, PrintSlot, SlotHasNul, ValidSlot;
    match slots {
      case Blank(space) => NulSkips(space, rest);
      case One(slot) => NulInSlot(slot, isObject, rest);
      case More(slot, more) =>
        var tail := "," + (PrintSlots(more) + rest);
        assert PrintSlots(slots) + rest == PrintSlot(slot) + tail;
        NulInSlot(slot, isObject, tail);
        NulSkips(",", PrintSlots(more) + rest);
        NulInSlots(more, isObject, rest);
    }
  }

  lemma NulInKey(key: Key, rest: string)
    requires key.Key? ==> ValidUnits(key.units) && Space(key.beforeColon) && Space(key.afterColon)
    ensures NulEscapeFrom(PrintKey(key) + rest) <==> (key.Key? && NulUnits(key.units)) || NulEscapeFrom(rest)
  {
    hide NulEscapeFrom, PrintText, NulUnits, ValidUnits;
    if key.NoKey? {
      assert PrintKey(key) + rest == rest;
    } else {
      var colon := key.beforeColon + ":" + key.afterColon;
      assert PrintKey(key) + rest == PrintText(key.units) + (colon + rest);
      NulInText(key.units, colon + rest);
      NulSkips(colon, rest);
    }
  }

  lemma {:induction false} NulInSlot(slot: Slot, isObject: bool, rest: string)
    requires ValidSlot(slot, isObject)
    ensures NulEscapeFrom(PrintSlot(slot) + rest) <==> SlotHasNul(slot) || NulEscapeFrom(rest)
    decreases slot, 0
  {
    hide NulEscapeFrom, PrintKey, Print, NulUnits, ValidUnits, HasNul;
    var tail := Print(slot.value) + (slot.after + rest);
    assert PrintSlot(slot) + rest == slot.before + (PrintKey(slot.key) + tail);
    NulSkips(slot.before, PrintKey(slot.key) + tail);
    NulInKey(slot.key, tail);
    NulInValue(slot.value, slot.after + rest);
    NulSkips(slot.after, rest);
  }

  /** No character of a JSON text is NUL itself. */
  predicate Clean(s: string) { '\0' !in s }

  lemma {:induction false} CleanUnits(units: seq<Unit>)
    requires ValidUnits(units)
    ensures Clean(PrintUnits(units))
  {
    if units != [] {
      CleanUnits(units[1..]);
    }
  }

  lemma {:induction false} CleanValue(v: Json)
    requires ValidJson(v)
    ensures Clean(Print(v))
    decreases v, 0
  {
    match v {
      case Scalar(token) =>
      case Text(units) => CleanUnits(units);
      case Container(isObject, slots) => CleanSlots(slots, isObject);
    }
  }

  lemma {:induction false} CleanSlots(slots: Slots, isObject: bool)
    requires ValidSlots(slots, isObject)
    ensures Clean(PrintSlots(slots))
    decreases slots, 0
  {
    match slots {
      case Blank(space) =>
      case One(slot) => CleanSlot(slot, isObject);
      case More(slot, rest) =>
        CleanSlot(slot, isObject);
        CleanSlots(rest, isObject);
    }
  }

  lemma {:induction false} CleanSlot(slot: Slot, isObject: bool)
    requires ValidSlot(slot, isObject)
    ensures Clean(PrintSlot(slot))
    decreases slot, 0
  {
    CleanValue(slot.value);
    if slot.key.Key? {
      CleanUnits(slot.key.units);
      assert Clean(PrintKey(slot.key));
    }
  }

  /** For every JSON text, the scan fires exactly when some decoded string or key contains U+0000,
      whatever escapes, quotes or braces its strings contain. */
  lemma NulExactly(before: string, v: Json, after: string)
    requires ValidJson(v) && Space(before) && Space(after)
    ensures var text := before + Print(v) + after;
      ('\0' in text || NulEscapeFrom(text)) <==> HasNul(v)
  {
    assert before + Print(v) + after == before + (Print(v) + after);
    NulSkips(before, Print(v) + after);
    NulInValue(v, after);
    assert after == after + "";
    NulSkips(after, "");
    CleanValue(v);
  }
}
