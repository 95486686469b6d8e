/**
 What the ATS value decoder of main/ats_model.c means: bit fields, enumerations and texts are related
 here to the way the controller writes them.
 */
module AtsDecoding {
  import opened Base
  import opened AtsModel
  import opened Decimal

  // ----- bit fields -----

  /** A field of `bitWidth` bits at `bitLsb` is read as itself, whatever the register holds around it. */
  lemma FieldReadsBack(def: PointDef, low: nat, field: nat, high: nat)
    requires def.bitWidth > 0 && low < Pow2(def.bitLsb) && field < Pow2(def.bitWidth)
    requires low + Pow2(def.bitLsb) * (field + Pow2(def.bitWidth) * high) <= 0xffff
    ensures Extract(def, low + Pow2(def.bitLsb) * (field + Pow2(def.bitWidth) * high)) == field
  {
    hide Pow2;
    QuotientOf(low, Pow2(def.bitLsb), field + Pow2(def.bitWidth) * high);
    QuotientOf(field, Pow2(def.bitWidth), high);
  }

  // ----- numbers -----

  /** A counter of two registers, the more significant one first, is read as itself. */
  lemma CounterExact(def: PointDef, high: word, low: word)
    requires ValidPoint(def) && def.encoding.U32?
    ensures DecodedNumber(def, [high, low]) == Some((0x1_0000 * high + low) as real)
    ensures DecodedQuality(def, [high, low]).Good?
  {
  }

  /** A plain register, or field of one, is read as its value times numerator over denominator. */
  lemma RegisterExact(def: PointDef, words: seq<word>)
    requires ValidPoint(def) && |words| == def.wordCount && def.encoding.U16? && def.bitWidth == 0
    ensures DecodedQuality(def, words).Good? && DecodedNumber(def, words).Some?
    ensures DecodedNumber(def, words).value * def.denominator as real == words[0] as real * def.numerator as real
  {
  }

  lemma RegisterFieldExact(def: PointDef, words: seq<word>, low: nat, field: nat, high: nat)
    requires ValidPoint(def) && |words| == def.wordCount && (def.encoding.U16? || def.encoding.Bool?)
    requires def.bitWidth > 0 && low < Pow2(def.bitLsb) && field < Pow2(def.bitWidth)
    requires words[0] as int == low + Pow2(def.bitLsb) * (field + Pow2(def.bitWidth) * high)
    ensures DecodedNumber(def, words).Some?
    ensures def.encoding.U16? ==>
      DecodedNumber(def, words).value * def.denominator as real == field as real * def.numerator as real
    ensures def.encoding.Bool? ==> DecodedNumber(def, words).value == field as real
    ensures DecodedQuality(def, words).Good? <==> def.encoding.U16? || field <= 1
    ensures !DecodedQuality(def, words).Good? ==> DecodedQuality(def, words).Unverified?
  {
    hide Pow2;
    FieldReadsBack(def, low, field, high);
  }

  /** A whole register as a flag: zero or one, anything else is shown but not verified. */
  lemma FlagExact(def: PointDef, words: seq<word>)
    requires ValidPoint(def) && |words| == def.wordCount && def.encoding.Bool? && def.bitWidth == 0
    ensures DecodedNumber(def, words) == Some(words[0] as real)
    ensures DecodedQuality(def, words) == if words[0] == 0 || words[0] == 1 then Good else Unverified
  {
  }

  // ----- enumerations -----

  /** The one combination that is documented as reserved. */
  predicate ReservedMode(def: PointDef, raw: nat) { def.offset == 56 && def.bitLsb == 0 && raw == 3 }

  /** An enumeration is shown as a state of its object, documented values in order from 1; it is good
      exactly when it is a documented, unreserved value, and the last state stands for all others. */
  lemma EnumerationExact(def: PointDef, words: seq<word>, state: nat) returns (shown: nat)
    requires ValidPoint(def) && |words| == def.wordCount && def.encoding.Enum?
    ensures 1 <= shown <= def.stateCount && DecodedNumber(def, words) == Some(shown as real)
    ensures 1 <= state < def.stateCount ==>
      (DecodedNumber(def, words) == Some(state as real) <==> Extract(def, words[0]) == state - 1)
    ensures DecodedQuality(def, words).Good? <==>
      Extract(def, words[0]) + 1 < def.stateCount && !ReservedMode(def, Extract(def, words[0]))
    ensures DecodedNumber(def, words) == Some(def.stateCount as real) ==> DecodedQuality(def, words).Unverified?
  {
    var raw := Extract(def, words[0]);
    shown := if raw < def.stateCount - 1 then raw + 1 else def.stateCount;
  }

  // ----- texts -----

  /** From byte `i` on the registers spell `text`, low byte first, up to a NUL or the end. */
  predicate Spells(words: seq<word>, i: nat, text: string) {
    var bytes := Characters(words, true);
    SpelledAt(bytes, i, text) && (i + |text| < |bytes| ==> bytes[i + |text|] == 0)
  }

  /** A text is good with content `text` exactly when the registers spell it. */
  lemma {:induction false} TextExact(words: seq<word>, i: nat, text: string)
    requires i <= 2 * |words|
    ensures AsciiText(words, i) == (text, true) <==> Spells(words, i, text)
    decreases 2 * |words| - i
  {
    if i < 2 * |words| && text != "" {
      SpelledStep(Characters(words, true), i, text);
      TextExact(words, i + 1, text[1..]);
      assert text == [text[0]] + text[1..];
    }
  }

  // ----- clocks, dates and versions -----

  lemma TwoDigitsApart(m: nat, n: nat)
    requires TwoDigits(m) == TwoDigits(n)
    ensures m == n
  {
    assert DecimalValue(TwoDigits(m)) == DecimalValue(TwoDigits(n));
  }

  /** A clock is good with text "hh:mm" exactly when its register counts the minutes since midnight. */
  lemma ClockExact(def: PointDef, words: seq<word>, hour: nat, minute: nat)
    requires ValidPoint(def) && |words| == def.wordCount && def.encoding.Clock? && hour < 24 && minute < 60
    ensures DecodedQuality(def, words).Good? && DecodedText(def, words) == TwoDigits(hour) + ":" + TwoDigits(minute)
       <==> Extract(def, words[0]) == 60 * hour + minute
    ensures DecodedQuality(def, words).Good? <==> Extract(def, words[0]) < 24 * 60
  {
    hide TwoDigits, DecimalText, Extract;
    var raw := Extract(def, words[0]);
    if raw < 1440 && TwoDigits(raw / 60) + ":" + TwoDigits(raw % 60) == TwoDigits(hour) + ":" + TwoDigits(minute) {
      SplitAt(TwoDigits(raw / 60), TwoDigits(raw % 60), TwoDigits(hour), TwoDigits(minute), ':');
      TwoDigitsApart(raw / 60, hour);
      TwoDigitsApart(raw % 60, minute);
    }
  }

  /** A day of the Gregorian calendar. */
  predicate Gregorian(year: nat, month: nat, day: nat) {
    && 1 <= month <= 12
    && 1 <= day <=
       match month
       case 2 => if year % 400 == 0 || (year % 4 == 0 && year % 100 != 0) then 29 else 28
       case 4 => 30
       case 6 => 30
       case 9 => 30
       case 11 => 30
       case _ => 31
  }

  function Packed(year: nat, month: nat, day: nat): int { 512 * (year - 2000) + 32 * month + day }

  lemma Unpacked(year: nat, month: nat, day: nat)
    requires year >= 2000 && month < 16 && day < 32
    ensures var p := Packed(year, month, day); p / 512 == year - 2000 && p / 32 % 16 == month && p % 32 == day
  {
    var p := Packed(year, month, day);
    var upper := 16 * (year - 2000) + month;
    assert p == 32 * upper + day;
    assert p / 32 == upper && p % 32 == day;
    assert p / 512 == upper / 16;
  }

  lemma DateFields(raw: word)
    ensures var y, m, d := 2000 + raw / 512, raw / 32 % 16, raw % 32;
      raw as int == Packed(y, m, d) && (CalendarDate(raw) <==> Gregorian(y, m, d))
  {
    assert raw / 512 == raw / 32 / 16;
  }

  lemma DateUnpacked(raw: word, year: nat, month: nat, day: nat)
    requires year >= 2000 && Gregorian(year, month, day) && raw as int == Packed(year, month, day)
    ensures year == 2000 + raw / 512 && month == raw / 32 % 16 && day == raw % 32
  {
    Unpacked(year, month, day);
  }

  function DateText(year: nat, month: nat, day: nat): string {
    DecimalText(year) + "-" + TwoDigits(month) + "-" + TwoDigits(day)
  }

  lemma DateTextApart(y: nat, m: nat, d: nat, y': nat, m': nat, d': nat)
    requires DateText(y, m, d) == DateText(y', m', d')
    ensures y == y' && m == m' && d == d'
  {
    hide TwoDigits, DecimalText;
    var tail, tail' := TwoDigits(m) + "-" + TwoDigits(d), TwoDigits(m') + "-" + TwoDigits(d');
    assert DateText(y, m, d) == DecimalText(y) + "-" + tail;
    assert DateText(y', m', d') == DecimalText(y') + "-" + tail';
    SplitAt(DecimalText(y), tail, DecimalText(y'), tail', '-');
    SplitAt(TwoDigits(m), TwoDigits(d), TwoDigits(m'), TwoDigits(d'), '-');
    TwoDigitsApart(m, m');
    TwoDigitsApart(d, d');
    assert DecimalValue(DecimalText(y)) == DecimalValue(DecimalText(y'));
  }

  /** A date is good with text "yyyy-mm-dd" exactly when its register packs that day, and good for no other
      register. */
  lemma DateExact(def: PointDef, words: seq<word>, year: nat, month: nat, day: nat)
    requires ValidPoint(def) && |words| == def.wordCount && def.encoding.Date?
    requires year >= 2000 && Gregorian(year, month, day)
    ensures DecodedQuality(def, words).Good?
       && DecodedText(def, words) == DateText(year, month, day)
       <==> Extract(def, words[0]) == Packed(year, month, day)
    ensures DecodedQuality(def, words).Good? <==>
      exists y: nat, m: nat, d: nat ::
        y >= 2000 && Gregorian(y, m, d) && Extract(def, words[0]) == Packed(y, m, d)
  {
    hide TwoDigits, DecimalText, Extract, FourHexDigits, CalendarDate, Gregorian, Packed;
    var raw := Extract(def, words[0]);
    var y, m, d := 2000 + raw / 512, raw / 32 % 16, raw % 32;
    DateFields(raw);
    if raw == Packed(year, month, day) {
      DateUnpacked(raw, year, month, day);
    }
    if y': nat, m': nat, d': nat :| y' >= 2000 && Gregorian(y', m', d') && raw == Packed(y', m', d') {
      DateUnpacked(raw, y', m', d');
    }
    if CalendarDate(raw) && DateText(y, m, d) == DateText(year, month, day) {
      DateTextApart(y, m, d, year, month, day);
    }
  }

  /** A version "major.minor" is shown exactly for the register that has them as its high and low byte. */
  lemma VersionExact(def: PointDef, words: seq<word>, major: byte, minor: byte)
    requires ValidPoint(def) && |words| == def.wordCount && def.encoding.Version?
    ensures DecodedQuality(def, words).Good?
    ensures DecodedText(def, words) == DecimalText(major) + "." + TwoDigits(minor) <==> words[0] == Be16(major, minor)
  {
    hide TwoDigits, DecimalText, Extract;
    var high, low := words[0] / 256, words[0] % 256;
    if DecimalText(high) + "." + TwoDigits(low) == DecimalText(major) + "." + TwoDigits(minor) {
      SplitAt(DecimalText(high), TwoDigits(low), DecimalText(major), TwoDigits(minor), '.');
      TwoDigitsApart(low, minor);
      assert DecimalValue(DecimalText(high)) == DecimalValue(DecimalText(major));
    }
  }

  predicate Printable(b: byte) { 32 <= b <= 126 }

  function Glyph(b: byte): char { if Printable(b) then b as char else '?' }

  /** `text` shows the bytes up to the first NUL, one for one. */
  predicate ShownAs(bytes: seq<byte>, text: string) {
    && |text| <= |bytes| && (|text| < |bytes| ==> bytes[|text|] == 0)
    && forall k :: 0 <= k < |text| ==> bytes[k] != 0 && text[k] == Glyph(bytes[k])
  }

  lemma ShownStep(bytes: seq<byte>, text: string)
    requires bytes != [] && bytes[0] != 0 && ShownAs(bytes[1..], text)
    ensures ShownAs(bytes, [Glyph(bytes[0])] + text)
  {
    var longer := [Glyph(bytes[0])] + text;
    forall k | 0 <= k < |longer| ensures bytes[k] != 0 && longer[k] == Glyph(bytes[k]) {
      if k > 0 {
        assert bytes[k] == bytes[1..][k - 1];
      }
    }
  }

  /** What is shown of a text whatever its characters are: those before the first NUL, with '?' for each that
      cannot be printed; one such character makes the text unverified. */
  lemma {:induction false} TextShown(words: seq<word>, i: nat)
    requires i <= 2 * |words|
    ensures var bytes, shown := Characters(words, true)[i..], AsciiText(words, i);
      && ShownAs(bytes, shown.0)
      && (shown.1 <==> forall k :: 0 <= k < |shown.0| ==> Printable(bytes[k]))
    decreases 2 * |words| - i
  {
    var bytes := Characters(words, true)[i..];
    if bytes != [] && bytes[0] != 0 {
      TextShown(words, i + 1);
      var text, rest := AsciiText(words, i).0, AsciiText(words, i + 1).0;
      assert bytes[1..] == Characters(words, true)[i + 1..];
      assert text == [Glyph(bytes[0])] + rest;
      ShownStep(bytes, rest);
      assert forall k :: 0 <= k < |rest| ==> bytes[1..][k] == bytes[k + 1];
      assert forall k :: 0 < k < |text| ==> bytes[k] == bytes[1..][k - 1];
    }
  }

  /** What a register outside its encoding shows, and what each encoding leaves empty. */
  lemma OtherFormsExact(def: PointDef, words: seq<word>)
    requires ValidPoint(def) && |words| == def.wordCount
    ensures var raw, number, text := Extract(def, words[0]), DecodedNumber(def, words), DecodedText(def, words);
      && (number.Some? <==> def.encoding.U16? || def.encoding.Bool? || def.encoding.Enum? || def.encoding.U32?)
      && (number.Some? ==> text == "" && (DecodedQuality(def, words).Good? || DecodedQuality(def, words).Unverified?))
      && (def.encoding.Clock? && raw >= 1440 ==>
            DecodedQuality(def, words).Unverified? && text == "Invalid clock (" + DecimalText(raw) + ")")
      && (def.encoding.Date? && !DecodedQuality(def, words).Good? ==>
            DecodedQuality(def, words).Unverified? && text == "Invalid date (0x" + FourHexDigits(raw) + ")")
      && (def.encoding.Ascii? ==>
            && text == AsciiText(words, 0).0
            && DecodedQuality(def, words) == if AsciiText(words, 0).1 then Good else Unverified)
      && (def.bitWidth == 0 ==> raw == words[0])
  {
  }

  // ----- qualification -----

  /** Bit `k` of a register. */
  predicate BitSet(w: word, k: nat) { w / Pow2(k) % 2 == 1 }

  lemma BitsOf(w: word)
    ensures (BitSet(w, 13) && BitSet(w, 14) <==> w / 0x2000 % 4 == 3)
    ensures (BitSet(w, 0) <==> w % 2 == 1) && (BitSet(w, 1) <==> w / 2 % 2 == 1) && (BitSet(w, 15) <==> w >= 0x8000)
  {
    assert Pow2(13) == 0x2000 && Pow2(14) == 0x4000 && Pow2(15) == 0x8000 && Pow2(1) == 2 && Pow2(0) == 1 by {
      assert Pow2(4) == 16 && Pow2(8) == 256 && Pow2(12) == 4096;
    }
    assert w / 0x4000 == w / 0x2000 / 2;
  }

  /** One more binary digit. */
  lemma NextBit(w: nat, p: nat)
    requires p >= 1
    ensures w % (2 * p) == w % p + p * (w / p % 2)
  {
    var q := w / p;
    var low: nat := p * (q % 2) + w % p;
    assert w == p * q + w % p;
    assert p * q == p * (2 * (q / 2) + q % 2) == 2 * p * (q / 2) + p * (q % 2);
    assert low < 2 * p;
    QuotientOf(low, 2 * p, q / 2);
  }

  lemma LowBitsSum(w: nat)
    ensures w % 4 == w % 2 + 2 * (w / 2 % 2) && w % 8 == w % 4 + 4 * (w / 4 % 2)
    ensures w % 16 == w % 8 + 8 * (w / 8 % 2) && w % 32 == w % 16 + 16 * (w / 16 % 2)
  {
    NextBit(w, 2);
    NextBit(w, 4);
    NextBit(w, 8);
    NextBit(w, 16);
  }

  lemma LowBits(w: word)
    ensures (BitSet(w, 0) <==> w % 2 == 1) && (BitSet(w, 1) <==> w / 2 % 2 == 1) && (BitSet(w, 2) <==> w / 4 % 2 == 1)
    ensures (BitSet(w, 3) <==> w / 8 % 2 == 1) && (BitSet(w, 4) <==> w / 16 % 2 == 1)
  {
    assert Pow2(0) == 1 && Pow2(1) == 2 && Pow2(2) == 4 && Pow2(3) == 8 && Pow2(4) == 16;
  }

  lemma LowBitsClear(w: word)
    ensures w % 16 == 0 <==> !BitSet(w, 0) && !BitSet(w, 1) && !BitSet(w, 2) && !BitSet(w, 3)
    ensures w % 32 == 0 <==> w % 16 == 0 && !BitSet(w, 4)
  {
    hide BitSet;
    LowBits(w);
    LowBitsSum(w);
  }

  /** The registers that the qualification of a reading depends on, as far as they can be read now. */
  predicate Reads(blocks: seq<BlockState>, offset: word, now: nat, w: word)
    requires ValidBlocks(blocks)
  {
    Register(blocks, offset, now) == Some(w)
  }

  /** A context register is the word that the point at its place would show. */
  lemma ContextIsShown(blocks: seq<BlockState>, def: PointDef, now: nat)
    requires ValidBlocks(blocks) && ValidPoint(def) && def.wordCount == 1
    ensures Register(blocks, def.offset, now).Some? <==> BlockGood(blocks, ContainingBlock(def.offset, 1), now)
    ensures Register(blocks, def.offset, now).Some? ==>
      DecodePoint(blocks, def, now).raw == [Register(blocks, def.offset, now).value]
  {
  }

  /** An angle between the sources: applicable while both are available and, for offset 18, in the transition
      mode in which it means something; never verified. */
  lemma AngleQualified(blocks: seq<BlockState>, def: PointDef, raw: seq<word>, now: nat, overview: word, mode: word)
    requires ValidBlocks(blocks) && |raw| >= 1 && (def.offset == 18 || def.offset == 40)
    requires Reads(blocks, 0, now, overview) && Reads(blocks, 56, now, mode)
    ensures Qualified(blocks, def, raw, now) ==
      if BitSet(overview, 13) && BitSet(overview, 14) && (def.offset == 18 ==> !BitSet(mode, 0) && BitSet(mode, 1))
      then Unverified else NotApplicable
  {
    BitsOf(overview);
    BitsOf(mode);
    hide BitSet, Register;
    assert mode % 4 == mode % 2 + 2 * (mode / 2 % 2);
  }

  /** A register of expansion board 0..3, twice four of them: applicable if the board is installed, good if its
      type is known. */
  lemma BoardQualified(blocks: seq<BlockState>, def: PointDef, raw: seq<word>, now: nat, board: nat, kind: word)
    requires ValidBlocks(blocks) && |raw| >= 1 && board < 4 && (def.offset == 195 + board || def.offset == 199 + board)
    requires Reads(blocks, 153 + board, now, kind)
    ensures Qualified(blocks, def, raw, now) ==
      if kind == 0 then NotApplicable else if kind == 1 || kind == 2 then Good else Unverified
  {
  }

  /** Outputs and inputs: applicable if the next register assigns any of the four, or five, of them. */
  lemma AssignmentQualified(blocks: seq<BlockState>, def: PointDef, raw: seq<word>, now: nat, chosen: word)
    requires ValidBlocks(blocks) && |raw| >= 1 && (def.offset == 249 || def.offset == 251)
    requires Reads(blocks, def.offset + 1, now, chosen)
    ensures Qualified(blocks, def, raw, now) ==
      if && !BitSet(chosen, 0) && !BitSet(chosen, 1) && !BitSet(chosen, 2) && !BitSet(chosen, 3)
         && (def.offset == 251 ==> !BitSet(chosen, 4))
      then NotApplicable else Good
  {
    LowBitsClear(chosen);
    hide BitSet, Register;
  }

  /** Everything else is good, apart from readings that are known not to be trustworthy. */
  lemma OthersQualified(blocks: seq<BlockState>, def: PointDef, raw: seq<word>, now: nat)
    requires ValidBlocks(blocks) && |raw| >= 1
    requires def.offset != 18 && def.offset != 40 && def.offset != 249 && def.offset != 251
    requires !(195 <= def.offset <= 202)
    ensures Qualified(blocks, def, raw, now) ==
      if || def.offset == 15 || def.offset == 16 || def.offset == 17 || def.offset == 1011
         || (1294 <= def.offset <= 1298 && raw[0] == 0)
         || (def.offset == 1319 && raw[0] == 0x0221)
         || (def.offset == 0 && def.bitWidth == 0 && BitSet(raw[0], 15))
      then Unverified else Good
  {
    BitsOf(raw[0]);
  }

  /** What a point shows: nothing before its block was ever read. From then on words, time, number and text of
      the last good read; and a quality that is communication failure unless the block is good, that of the
      encoding if the words are outside it, and that of the qualification otherwise. */
  lemma PointShown(blocks: seq<BlockState>, def: PointDef, now: nat)
    requires ValidBlocks(blocks) && ValidPoint(def)
    ensures var value, i := DecodePoint(blocks, def, now), ContainingBlock(def.offset, def.wordCount);
      if i < 0 || !blocks[i].acquired then
        && value.numeric.None? && value.text == "" && value.quality.CommFailure?
        && value.lastGood == 0 && value.raw == []
      else
        && value.raw == blocks[i].words[def.offset - Block(i).offset..][..def.wordCount]
        && value.lastGood == blocks[i].lastGood
        && value.numeric == DecodedNumber(def, value.raw) && value.text == DecodedText(def, value.raw)
        && value.quality ==
           if !BlockGood(blocks, i, now) then CommFailure
           else if !DecodedQuality(def, value.raw).Good? then DecodedQuality(def, value.raw)
           else Qualified(blocks, def, value.raw, now)
  {
    var i := ContainingBlock(def.offset, def.wordCount);
    if i >= 0 {
      var start := def.offset - Block(i).offset;
      assert blocks[i].words[start..start + def.wordCount] == blocks[i].words[start..][..def.wordCount];
    }
  }
}
