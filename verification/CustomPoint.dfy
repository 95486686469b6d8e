/**
 One row of a custom map and how its registers become a value (`custom_map_apply` of
 main/custom_map.c). IEEE 754 decoding is a parameter.
 */
module CustomPoint {
  import opened Base

  const OBJECT_AI: nat := 0
  const OBJECT_BI: nat := 3
  const OBJECT_MSI: nat := 13
  const OBJECT_CSV: nat := 40
  const MAX_POINT_WORDS: nat := 10

  datatype DataType = U16 | S16 | U32 | S32 | F32 | Bit | Ascii | Bool

  /** `ats_point_def_t` and `custom_point_t` of one row. `order`: 0 AB/ABCD, 1 BA/BADC, 2 CDAB, 3 DCBA. */
  datatype Point = Point(
    instance: nat, name: string, description: string, objectType: nat, units: nat, states: seq<string>,
    offset: word, wordCount: nat, bit: nat,
    dataType: DataType, function_: nat, order: nat, length: nat, pollMs: nat, scale: real, scaleOffset: real)

  function WordsFor(dataType: DataType, length: nat): nat {
    match dataType
    case U32 => 2
    case S32 => 2
    case F32 => 2
    case Ascii => (length + 1) / 2
    case _ => 1
  }

  /** What the row validator guarantees and the poller relies on. */
  predicate ValidPoint(p: Point) {
    && 1 <= p.function_ <= 4 && p.order <= 3
    && p.wordCount == WordsFor(p.dataType, p.length)
    && (p.dataType.Ascii? ==> 1 <= p.length <= 2 * MAX_POINT_WORDS)
    && p.offset + p.wordCount <= 0x1_0000
    && 1000 <= p.pollMs <= 3600000
  }

  /** The floating-point unit: single-precision decoding of a bit pattern and the double-precision
      product-and-sum raw * scale + offset. None stands for infinities and NaN. */
  datatype Floats = Floats(single: nat -> Option<real>, affine: (real, real, real) -> Option<real>)

  /** The largest finite single-precision value. */
  const FLT_MAX: real := 340282346638528859811704183484516925440.0

  function Swap16(w: word): word { Be16(w % 256, w / 256) }

  function Unswapped(p: Point, w: word): word { if p.order % 2 == 1 then Swap16(w) else w }

  /** The 32-bit pattern of two registers in the row's byte order. */
  function Pattern32(p: Point, words: seq<word>): nat
    requires |words| == 2
  {
    var a: int, b: int := Unswapped(p, words[0]), Unswapped(p, words[1]);
    if p.order / 2 % 2 == 1 then b * 0x1_0000 + a else a * 0x1_0000 + b
  }

  function Signed(pattern: nat, bits: nat): int {
    if pattern >= Pow2(bits) / 2 then pattern - Pow2(bits) else pattern
  }

  /** The number before scaling; None when the registers hold no valid number. */
  function RawNumber(p: Point, words: seq<word>, fp: Floats): Option<real>
    requires ValidPoint(p) && |words| == p.wordCount && !p.dataType.Ascii?
  {
    match p.dataType
    case U16 => Some(Unswapped(p, words[0]) as real)
    case S16 =>
      var a := Unswapped(p, words[0]);
      Some(if a >= 0x8000 then a as real - 65536.0 else a as real)
    case U32 => Some(Pattern32(p, words) as real)
    case S32 =>
      var full := Pattern32(p, words);
      Some(if full >= 0x8000_0000 then full as real - 4294967296.0 else full as real)
    case F32 => fp.single(Pattern32(p, words))
    case Bit => Some((Unswapped(p, words[0]) / Pow2(p.bit) % 2) as real)
    case Bool => if words[0] > 1 then None else Some(words[0] as real)
  }

  predicate Representable(p: Point, n: real) {
    && -FLT_MAX <= n <= FLT_MAX
    && (p.objectType == OBJECT_MSI ==> 1.0 <= n <= |p.states| as real && n.Floor as real == n)
  }

  function CharAt(words: seq<word>, swap: bool, i: nat): byte
    requires i / 2 < |words|
  {
    var w := if swap then Swap16(words[i / 2]) else words[i / 2];
    if i % 2 == 0 then w / 256 else w % 256
  }

  /** Characters `i .. length`: printable until the first NUL, only NULs after it. */
  function TextFrom(words: seq<word>, swap: bool, length: nat, i: nat, ended: bool): Option<string>
    requires i <= length <= 2 * |words|
    decreases length - i
  {
    if i == length then Some("")
    else
      var ch := CharAt(words, swap, i);
      if ch == 0 then TextFrom(words, swap, length, i + 1, true)
      else if ended || ch < 32 || ch > 126 then None
      else
        var rest := TextFrom(words, swap, length, i + 1, false);
        if rest.None? then None else Some([ch as char] + rest.value)
  }

  /** The decoded point: a number, or a text for ASCII rows. */
  datatype Reading = Number(n: real) | Text(t: string)

  function Scaled(p: Point, raw: real, fp: Floats): Option<Reading> {
    var n := fp.affine(raw, p.scale, p.scaleOffset);
    if n.None? || !Representable(p, n.value) then None else Some(Number(n.value))
  }

  function Decoded(p: Point, words: seq<word>, fp: Floats): Option<Reading>
    requires ValidPoint(p) && |words| == p.wordCount
  {
    if p.dataType.Ascii? then
      var t := TextFrom(words, p.order != 0, p.length, 0, false);
      if t.None? then None else Some(Text(t.value))
    else
      var raw := RawNumber(p, words, fp);
      if raw.None? then None else Scaled(p, raw.value, fp)
  }

  /** A valid reading replaces the sample; an invalid one only marks it unverified. */
  function Applied(p: Point, words: seq<word>, fp: Floats, now: nat, value: Value): Value
    requires ValidPoint(p) && |words| == p.wordCount
  {
    var reading := Decoded(p, words, fp);
    if reading.None? then value.(quality := Unverified)
    else match reading.value
      case Number(n) => Value(Some(n), value.text, Good, now, words)
      case Text(t) => Value(value.numeric, t, Good, now, words)
  }

  function Prepend(t: string, rest: Option<string>): Option<string> {
    if rest.None? then None else Some(t + rest.value)
  }

  /** The character loop of an ASCII point. */
  method ReadText(words: seq<word>, swap: bool, length: nat) returns (text: Option<string>)
    requires length <= 2 * |words|
    ensures text == TextFrom(words, swap, length, 0, false)
  {
    var ended, t := false, "";
    assert forall s: string :: t + s == s;
    for i := 0 to length
      invariant TextFrom(words, swap, length, 0, false) == Prepend(t, TextFrom(words, swap, length, i, ended))
    {
      var ch := CharAt(words, swap, i);
      if ch == 0 {
        ended := true;
      } else {
        if ch < 32 || ch > 126 || ended {
          return None;
        }
        ghost var rest := TextFrom(words, swap, length, i + 1, false);
        assert rest.Some? ==> t + ([ch as char] + rest.value) == (t + [ch as char]) + rest.value;
        t := t + [ch as char];
      }
    }
    assert t + "" == t;
    return Some(t);
  }

  /** `custom_map_apply` on a point of the map. */
  method ApplyPoint(p: Point, words: seq<word>, fp: Floats, now: nat, value: Value)
    returns (ok: bool, next: Value)
    requires ValidPoint(p)
    ensures ok ==> |words| == p.wordCount && Decoded(p, words, fp).Some?
    ensures |words| == p.wordCount ==> ok == Decoded(p, words, fp).Some? && next == Applied(p, words, fp, now, value)
    ensures |words| != p.wordCount ==> !ok && next == value
  {
    if |words| != p.wordCount {
      return false, value;
    }
    if p.dataType.Ascii? {
      var text := ReadText(words, p.order != 0, p.length);
      if text.None? {
        return false, value.(quality := Unverified);
      }
      return true, value.(text := text.value, raw := words, quality := Good, lastGood := now);
    }
    var raw := RawNumber(p, words, fp);
    if raw.None? {
      return false, value.(quality := Unverified);
    }
    var n := fp.affine(raw.value, p.scale, p.scaleOffset);
    if n.None? || n.value < -FLT_MAX || n.value > FLT_MAX {
      return false, value.(quality := Unverified);
    }
    if p.objectType == OBJECT_MSI
       && (n.value < 1.0 || n.value > |p.states| as real || n.value.Floor as real != n.value) {
      return false, value.(quality := Unverified);
    }
    return true, value.(numeric := n, raw := words, quality := Good, lastGood := now);
  }

  // ----- the byte orders mean what their names say -----

  /** Big-endian bytes of a 32-bit pattern, most significant first: A, B, C, D. */
  function BigEndian32(pattern: nat): seq<byte>
    requires pattern < 0x1_0000_0000
  {
    var high, low := pattern / 0x1_0000, pattern % 0x1_0000;
    [high / 256, high % 256, low / 256, low % 256]
  }

  /** The two registers a device sends for bytes A, B, C, D in the named order. */
  function Wire32(order: nat, bytes: seq<byte>): (words: seq<word>)
    requires order <= 3 && |bytes| == 4
    ensures |words| == 2
  {
    var a, b, c, d := bytes[0], bytes[1], bytes[2], bytes[3];
    match order
    case 0 => [Be16(a, b), Be16(c, d)] // ABCD
    case 1 => [Be16(b, a), Be16(d, c)] // BADC
    case 2 => [Be16(c, d), Be16(a, b)] // CDAB
    case _ => [Be16(d, c), Be16(b, a)] // DCBA
  }

  lemma SwapBe16(high: byte, low: byte)
    ensures Swap16(Be16(high, low)) == Be16(low, high)
  {
    Be16Parts(high, low);
  }

  lemma JoinedAgain(w: word)
    ensures Be16(w / 256, w % 256) == w
  {
  }

  lemma PatternRoundTrip(p: Point, pattern: nat)
    requires p.order <= 3 && pattern < 0x1_0000_0000
    ensures Pattern32(p, Wire32(p.order, BigEndian32(pattern))) == pattern
  {
    hide Be16, Swap16;
    var high: word, low: word := pattern / 0x1_0000, pattern % 0x1_0000;
    var a: byte, b: byte, c: byte, d: byte := high / 256, high % 256, low / 256, low % 256;
    assert BigEndian32(pattern) == [a, b, c, d];
    SwapBe16(b, a);
    SwapBe16(d, c);
    JoinedAgain(high);
    JoinedAgain(low);
    assert high * 0x1_0000 + low == pattern;
  }

  /** The registers that carry an integer in the row's type and byte order (two's complement). */
  function WireInteger(p: Point, v: int): seq<word>
    requires ValidPoint(p)
  {
    if p.dataType.U16? || p.dataType.S16? then [Unswapped(p, v % 0x1_0000)]
    else Wire32(p.order, BigEndian32(v % 0x1_0000_0000))
  }

  predicate InRange(dataType: DataType, v: int) {
    match dataType
    case U16 => 0 <= v < 0x1_0000
    case S16 => -0x8000 <= v < 0x8000
    case U32 => 0 <= v < U32_RANGE
    case S32 => -0x8000_0000 <= v < 0x8000_0000
    case _ => false
  }

  lemma SwapTwice(w: word)
    ensures Swap16(Swap16(w)) == w
  {
    Be16Parts(w % 256, w / 256);
  }

  lemma TwosComplement(v: int, range: int)
    requires 0 < range && -range <= v < range
    ensures v % range == if v < 0 then v + range else v
  {
    if v < 0 {
      assert (v + range) % range == v % range;
    }
  }

  lemma Integer16(p: Point, v: int, fp: Floats)
    requires ValidPoint(p) && InRange(p.dataType, v) && (p.dataType.U16? || p.dataType.S16?)
    ensures RawNumber(p, WireInteger(p, v), fp) == Some(v as real)
  {
    hide Swap16;
    var w: word := if v < 0 then v + 0x1_0000 else v;
    TwosComplement(v, 0x1_0000);
    SwapTwice(w);
    assert WireInteger(p, v)[0] == Unswapped(p, w);
  }

  lemma SignOf32(p: Point, v: int, words: seq<word>, fp: Floats)
    requires ValidPoint(p) && InRange(p.dataType, v) && (p.dataType.U32? || p.dataType.S32?)
    requires |words| == 2 && Pattern32(p, words) == if v < 0 then v + 0x1_0000_0000 else v
    ensures RawNumber(p, words, fp) == Some(v as real)
  {
  }

  lemma Integer32(p: Point, v: int, fp: Floats)
    requires ValidPoint(p) && InRange(p.dataType, v) && (p.dataType.U32? || p.dataType.S32?)
    ensures RawNumber(p, WireInteger(p, v), fp) == Some(v as real)
  {
    hide RawNumber, Pattern32, Wire32, BigEndian32;
    var pattern: nat := if v < 0 then v + 0x1_0000_0000 else v;
    TwosComplement(v, 0x1_0000_0000);
    PatternRoundTrip(p, pattern);
    SignOf32(p, v, WireInteger(p, v), fp);
  }

  /** Every integer a device sends, in any type and byte order, is read back as itself, scaled and
      offset, and rejected exactly when that is not a representable value (or not a state, for MSI). */
  lemma IntegersReadBack(p: Point, v: int, fp: Floats)
    requires ValidPoint(p) && InRange(p.dataType, v)
    ensures |WireInteger(p, v)| == p.wordCount
    ensures Decoded(p, WireInteger(p, v), fp) == Scaled(p, v as real, fp)
  {
    if p.dataType.U16? || p.dataType.S16? {
      Integer16(p, v, fp);
    } else {
      Integer32(p, v, fp);
    }
  }

  lemma CharacterAt(words: seq<word>, swap: bool, i: nat)
    requires i < 2 * |words|
    ensures CharAt(words, swap, i) == Characters(words, swap)[i]
  {
    Be16Parts(words[i / 2] % 256, words[i / 2] / 256);
  }

  /** From character `i` on, the registers spell `text` in printable characters, NUL-padded. */
  predicate Spells(words: seq<word>, swap: bool, length: nat, i: nat, text: string)
    requires i <= length <= 2 * |words|
  {
    && i + |text| <= length && SpelledAt(Characters(words, swap), i, text)
    && forall k :: i + |text| <= k < length ==> CharAt(words, swap, k) == 0
  }

  lemma SpellsStep(words: seq<word>, swap: bool, length: nat, i: nat, text: string)
    requires i < length <= 2 * |words| && text != ""
    ensures Spells(words, swap, length, i, text) <==>
      && ' ' <= text[0] <= '~' && CharAt(words, swap, i) == text[0] as int
      && Spells(words, swap, length, i + 1, text[1..])
  {
    hide CharAt, SpelledAt;
    CharacterAt(words, swap, i);
    SpelledStep(Characters(words, swap), i, text);
  }

  lemma SpellsNothing(words: seq<word>, swap: bool, length: nat, i: nat)
    requires i <= length <= 2 * |words|
    ensures Spells(words, swap, length, i, "") <==> forall k :: i <= k < length ==> CharAt(words, swap, k) == 0
    ensures forall text :: Spells(words, swap, length, i, text) ==> |text| <= length - i
  {
  }

  lemma {:induction false} OnlyPadding(words: seq<word>, swap: bool, length: nat, i: nat)
    requires i <= length <= 2 * |words|
    ensures var t := TextFrom(words, swap, length, i, true);
      (t == None || t == Some("")) && (t == Some("") <==> forall k :: i <= k < length ==> CharAt(words, swap, k) == 0)
    decreases length - i
  {
    if i < length {
      OnlyPadding(words, swap, length, i + 1);
    }
  }

  lemma {:induction false} TextExact(words: seq<word>, swap: bool, length: nat, i: nat, text: string)
    requires i <= length <= 2 * |words|
    ensures TextFrom(words, swap, length, i, false) == Some(text) <==> Spells(words, swap, length, i, text)
    decreases length - i
  {
    hide CharAt, Spells;
    SpellsNothing(words, swap, length, i);
    if i < length {
      OnlyPadding(words, swap, length, i + 1);
      if text != "" {
        SpellsStep(words, swap, length, i, text);
        TextExact(words, swap, length, i + 1, text[1..]);
        assert text == [text[0]] + text[1..];
      }
    }
  }

  /** An ASCII point is accepted with value `text` exactly when its registers are `text`, NUL-padded. */
  lemma TextsReadBack(p: Point, words: seq<word>, text: string, fp: Floats)
    requires ValidPoint(p) && p.dataType.Ascii? && |words| == p.wordCount
    ensures Decoded(p, words, fp) == Some(Text(text)) <==> Spells(words, p.order != 0, p.length, 0, text)
  {
    TextExact(words, p.order != 0, p.length, 0, text);
  }

  // ----- single bits, flags and limits -----

  /** A bit point reads the bit of that weight, in the order of bytes of the row. */
  lemma BitExact(p: Point, words: seq<word>, low: nat, isSet: bool, high: nat, fp: Floats)
    requires ValidPoint(p) && |words| == p.wordCount && p.dataType.Bit? && low < Pow2(p.bit)
    requires (if p.order % 2 == 1 then 256 * (words[0] % 256) + words[0] / 256 else words[0])
          == low + Pow2(p.bit) * ((if isSet then 1 else 0) + 2 * high)
    ensures RawNumber(p, words, fp) == Some(if isSet then 1.0 else 0.0)
  {
    hide Pow2;
    QuotientOf(low, Pow2(p.bit), (if isSet then 1 else 0) + 2 * high);
  }

  /** A flag is zero or one; anything else in its register is no reading. */
  lemma FlagExact(p: Point, words: seq<word>, fp: Floats)
    requires ValidPoint(p) && |words| == p.wordCount && p.dataType.Bool?
    ensures RawNumber(p, words, fp) == if words[0] == 0 then Some(0.0) else if words[0] == 1 then Some(1.0) else None
  {
  }

  /** A single-precision point is what the floating-point unit makes of its 32-bit pattern. */
  lemma SingleExact(p: Point, words: seq<word>, fp: Floats)
    requires ValidPoint(p) && |words| == p.wordCount && p.dataType.F32?
    ensures Decoded(p, words, fp) ==
      if fp.single(Pattern32(p, words)).None? then None else Scaled(p, fp.single(Pattern32(p, words)).value, fp)
  {
  }

  /** What scaling accepts: a finite result that a single-precision number can hold, and for a multi-state point
      one of its states, counted from 1. */
  lemma ScaledExactly(p: Point, raw: real, fp: Floats, n: real)
    ensures Scaled(p, raw, fp) == Some(Number(n)) <==>
      && fp.affine(raw, p.scale, p.scaleOffset) == Some(n)
      && -16777215.0 * 20282409603651670423947251286016.0 <= n <= 16777215.0 * 20282409603651670423947251286016.0
      && (p.objectType == 13 ==> n == n.Floor as real && 1 <= n.Floor <= |p.states|)
    ensures Scaled(p, raw, fp).Some? ==> Scaled(p, raw, fp).value.Number?
  {
  }

  /** What a row may ask for. */
  lemma PointLimits(p: Point)
    ensures ValidPoint(p) <==>
      && 1 <= p.function_ <= 4 && 0 <= p.order <= 3 && 1000 <= p.pollMs <= 3600000
      && (p.dataType.Ascii? ==> 1 <= p.length <= 20)
      && p.wordCount == (if p.dataType.U32? || p.dataType.S32? || p.dataType.F32? then 2
                         else if p.dataType.Ascii? then (p.length + 1) / 2 else 1)
      && p.offset + p.wordCount <= 65536
  {
  }
}
