/**
 The sample model of main/ats_model.c: 23 scan blocks of raw words, and the decoder that
 turns them into qualified point values. The scan table is that of main/ats_map.inc; the
 164-row point catalog is a parameter.
 */
module AtsModel {
  import opened Base
  import opened Decimal

  const BLOCK_COUNT: nat := 23
  const MAX_BLOCK_WORDS: nat := 40
  const MAX_POINT_WORDS: nat := 10
  const TEXT_CAPACITY: nat := 80

  datatype ScanBlock = ScanBlock(offset: word, count: nat, periodMs: nat, staleMs: nat)

  function Block(index: nat): (b: ScanBlock)
    requires index < BLOCK_COUNT
    ensures 1 <= b.count <= MAX_BLOCK_WORDS && b.periodMs >= 2000
  {
    match index
    case 0 => ScanBlock(0, 19, 2000, 6000)
    case 1 => ScanBlock(40, 1, 10000, 30000)
    case 2 => ScanBlock(44, 1, 10000, 30000)
    case 3 => ScanBlock(56, 1, 10000, 30000)
    case 4 => ScanBlock(74, 3, 10000, 30000)
    case 5 => ScanBlock(193, 10, 10000, 30000)
    case 6 => ScanBlock(249, 4, 10000, 30000)
    case 7 => ScanBlock(741, 2, 5000, 15000)
    case 8 => ScanBlock(3449, 1, 10000, 30000)
    case 9 => ScanBlock(45, 8, 60000, 180000)
    case 10 => ScanBlock(58, 14, 60000, 180000)
    case 11 => ScanBlock(77, 26, 60000, 180000)
    case 12 => ScanBlock(153, 4, 60000, 180000)
    case 13 => ScanBlock(159, 2, 60000, 180000)
    case 14 => ScanBlock(739, 1, 60000, 180000)
    case 15 => ScanBlock(904, 4, 60000, 180000)
    case 16 => ScanBlock(909, 4, 60000, 180000)
    case 17 => ScanBlock(1009, 4, 60000, 180000)
    case 18 => ScanBlock(1109, 40, 60000, 180000)
    case 19 => ScanBlock(1199, 3, 60000, 180000)
    case 20 => ScanBlock(1249, 3, 60000, 180000)
    case 21 => ScanBlock(1294, 26, 60000, 180000)
    case _ => ScanBlock(9998, 1, 60000, 180000)
  }

  datatype BlockState = BlockState(words: seq<word>, lastGood: nat, lastFailure: nat, acquired: bool, failed: bool)

  predicate ValidState(state: BlockState) { |state.words| == MAX_BLOCK_WORDS }

  predicate ValidBlocks(blocks: seq<BlockState>) {
    |blocks| == BLOCK_COUNT && forall i :: 0 <= i < BLOCK_COUNT ==> ValidState(blocks[i])
  }

  // ----- finding a block -----

  function ExactFrom(offset: word, count: nat, i: nat): (index: int)
    requires i <= BLOCK_COUNT
    ensures index == -1 || i <= index < BLOCK_COUNT
    ensures index >= 0 ==> Block(index).offset == offset && Block(index).count == count
    decreases BLOCK_COUNT - i
  {
    if i == BLOCK_COUNT then -1
    else if Block(i).offset == offset && Block(i).count == count then i
    else ExactFrom(offset, count, i + 1)
  }

  function ExactBlock(offset: word, count: nat): (index: int)
    ensures -1 <= index < BLOCK_COUNT
  {
    ExactFrom(offset, count, 0)
  }

  predicate Contains(index: nat, offset: word, count: nat)
    requires index < BLOCK_COUNT
  {
    offset >= Block(index).offset && offset + count <= Block(index).offset + Block(index).count
  }

  function ContainingFrom(offset: word, count: nat, i: nat): (index: int)
    requires i <= BLOCK_COUNT
    ensures index == -1 || (i <= index < BLOCK_COUNT && Contains(index, offset, count))
    ensures index == -1 ==> forall j :: i <= j < BLOCK_COUNT ==> !Contains(j, offset, count)
    decreases BLOCK_COUNT - i
  {
    if i == BLOCK_COUNT then -1
    else if Contains(i, offset, count) then i
    else ContainingFrom(offset, count, i + 1)
  }

  function ContainingBlock(offset: word, count: nat): (index: int)
    ensures index == -1 || (0 <= index < BLOCK_COUNT && Contains(index, offset, count))
  {
    ContainingFrom(offset, count, 0)
  }

  method FindExactBlock(offset: word, count: nat) returns (index: int)
    ensures index == ExactBlock(offset, count)
  {
    for i := 0 to BLOCK_COUNT
      invariant ExactBlock(offset, count) == ExactFrom(offset, count, i)
    {
      if Block(i).offset == offset && Block(i).count == count {
        return i;
      }
    }
    return -1;
  }

  method FindContainingBlock(offset: word, count: nat) returns (index: int)
    ensures index == ContainingBlock(offset, count)
  {
    for i := 0 to BLOCK_COUNT
      invariant ContainingBlock(offset, count) == ContainingFrom(offset, count, i)
    {
      if Contains(i, offset, count) {
        return i;
      }
    }
    return -1;
  }

  /** Inverse of the scan table: each start offset names one block. */
  function BlockAt(offset: word): int {
    match offset
    case 0 => 0 case 40 => 1 case 44 => 2 case 56 => 3 case 74 => 4 case 193 => 5 case 249 => 6
    case 741 => 7 case 3449 => 8 case 45 => 9 case 58 => 10 case 77 => 11 case 153 => 12 case 159 => 13
    case 739 => 14 case 904 => 15 case 909 => 16 case 1009 => 17 case 1109 => 18 case 1199 => 19
    case 1249 => 20 case 1294 => 21 case 9998 => 22
    case _ => -1
  }

  /** The register after the last one of each block. */
  function EndOf(offset: word): int {
    match offset
    case 0 => 19 case 40 => 41 case 44 => 45 case 56 => 57 case 74 => 77 case 193 => 203 case 249 => 253
    case 741 => 743 case 3449 => 3450 case 45 => 53 case 58 => 72 case 77 => 103 case 153 => 157 case 159 => 161
    case 739 => 740 case 904 => 908 case 909 => 913 case 1009 => 1013 case 1109 => 1149 case 1199 => 1202
    case 1249 => 1252 case 1294 => 1320 case 9998 => 9999
    case _ => -1
  }

  /** The scan plan: the overview every two seconds, the two engine registers every five, eight further blocks
      every ten and the rest once a minute; three missed periods make a block stale. */
  lemma ScanPlan(i: nat)
    requires i < BLOCK_COUNT
    ensures BLOCK_COUNT == 23 && Block(i).offset + Block(i).count == EndOf(Block(i).offset)
    ensures Block(i).staleMs == 3 * Block(i).periodMs
    ensures Block(i).periodMs == if Block(i).offset == 0 then 2000 else if Block(i).offset == 741 then 5000
                                 else if 1 <= i <= 6 || i == 8 then 10000 else 60000
  {
  }

  lemma OffsetsDistinct(i: nat)
    requires i < BLOCK_COUNT
    ensures BlockAt(Block(i).offset) == i
  {
  }

  /** Looking up a block's own offset and count finds that block. */
  lemma {:induction false} ExactFinds(index: nat, i: nat)
    requires i <= index < BLOCK_COUNT
    ensures ExactFrom(Block(index).offset, Block(index).count, i) == index
    decreases index - i
  {
    if i < index {
      OffsetsDistinct(i);
      OffsetsDistinct(index);
      ExactFinds(index, i + 1);
    }
  }

  // ----- storing results -----

  /** A fault is recorded unless it is dated before the last good read. */
  function Fail(state: BlockState, now: nat): (after: BlockState)
  {
    if state.acquired && now < state.lastGood then state else state.(failed := true, lastFailure := now)
  }

  /** A good read replaces the first `|words|` words and clears the fault. */
  function Apply(state: BlockState, words: seq<word>, now: nat): (after: BlockState)
    requires ValidState(state) && |words| <= MAX_BLOCK_WORDS
    ensures ValidState(after)
  {
    if state.acquired && now < state.lastGood then state
    else state.(words := words + state.words[|words|..], lastGood := now, acquired := true, failed := false)
  }

  function FailAll(blocks: seq<BlockState>, now: nat): (after: seq<BlockState>)
    ensures |after| == |blocks|
    ensures forall i :: 0 <= i < |blocks| ==> after[i] == Fail(blocks[i], now)
  {
    seq(|blocks|, i requires 0 <= i < |blocks| => Fail(blocks[i], now))
  }

  /** `ats_model_apply_block`: only an exact declared block is accepted, never a partial update. */
  method ApplyBlock(blocks: array<BlockState>, offset: word, count: nat, words: Buffer, now: nat) returns (ok: bool)
    requires ValidBlocks(blocks[..])
    modifies blocks
    ensures ValidBlocks(blocks[..])
    ensures var index := ExactBlock(offset, count);
      if index < 0 then !ok && blocks[..] == old(blocks[..])
      else
        && ok == !(old(blocks[index]).acquired && now < old(blocks[index]).lastGood)
        && blocks[..] == old(blocks[..])[index := Apply(old(blocks[index]), words[..count], now)]
  {
    var index := FindExactBlock(offset, count);
    if index < 0 {
      return false;
    }
    var state := blocks[index];
    if state.acquired && now < state.lastGood {
      return false;
    }
    blocks[index] := state.(words := words[..count] + state.words[count..],
                            lastGood := now, acquired := true, failed := false);
    return true;
  }

  method FailBlock(blocks: array<BlockState>, offset: word, count: nat, now: nat) returns (ok: bool)
    requires ValidBlocks(blocks[..])
    modifies blocks
    ensures ValidBlocks(blocks[..])
    ensures var index := ExactBlock(offset, count);
      if index < 0 then !ok && blocks[..] == old(blocks[..])
      else
        && ok == !(old(blocks[index]).acquired && now < old(blocks[index]).lastGood)
        && blocks[..] == old(blocks[..])[index := Fail(old(blocks[index]), now)]
  {
    var index := FindExactBlock(offset, count);
    if index < 0 {
      return false;
    }
    var state := blocks[index];
    if state.acquired && now < state.lastGood {
      return false;
    }
    blocks[index] := state.(failed := true, lastFailure := now);
    return true;
  }

  // ----- decoding -----

  datatype Encoding = U16 | Bool | Enum | U32 | Ascii | Clock | Date | Version

  datatype PointDef = PointDef(offset: word, wordCount: nat, bitLsb: nat, bitWidth: nat, stateCount: nat,
                               encoding: Encoding, numerator: nat, denominator: nat)

  /** What the decoder needs of a catalog row. */
  predicate ValidPoint(def: PointDef) {
    && 1 <= def.wordCount <= MAX_POINT_WORDS && def.denominator > 0
    && (def.encoding.U32? ==> def.wordCount == 2)
    && (def.encoding.Enum? ==> def.stateCount >= 1)
  }

  predicate BlockGood(blocks: seq<BlockState>, index: int, now: nat)
    requires |blocks| == BLOCK_COUNT && index < BLOCK_COUNT
  {
    && index >= 0
    && blocks[index].acquired && !blocks[index].failed
    && now >= blocks[index].lastGood && now - blocks[index].lastGood <= Block(index).staleMs
  }

  /** A single register of context, if its block is good. */
  function Register(blocks: seq<BlockState>, offset: word, now: nat): Option<word>
    requires ValidBlocks(blocks)
  {
    var index := ContainingBlock(offset, 1);
    if BlockGood(blocks, index, now) then Some(blocks[index].words[offset - Block(index).offset]) else None
  }

  predicate CalendarDate(w: word) {
    var year, month, day := 2000 + w / 512, w / 32 % 16, w % 32;
    var leap := year % 4 == 0 && (year % 100 != 0 || year % 400 == 0);
    var limit := if month == 2 then (if leap then 29 else 28)
                 else if month == 4 || month == 6 || month == 9 || month == 11 then 30 else 31;
    1 <= month <= 12 && 1 <= day <= limit
  }

  lemma QuotientAndRemainder(n: nat, p: nat)
    requires p >= 1
    ensures 0 <= n / p <= n && 0 <= n % p <= n
  {
    var q := n / p;
    assert n == p * q + n % p;
    assert p * q == q + (p - 1) * q;
  }

  function Extract(def: PointDef, w: word): (raw: nat)
    ensures raw <= w
  {
    if def.bitWidth == 0 then w
    else
      QuotientAndRemainder(w, Pow2(def.bitLsb));
      var shifted: nat := w / Pow2(def.bitLsb);
      QuotientAndRemainder(shifted, Pow2(def.bitWidth));
      shifted % Pow2(def.bitWidth)
  }

  /** Low byte first, up to the first NUL; characters outside printable ASCII become '?'. */
  function AsciiText(words: seq<word>, i: nat): (r: (string, bool))
    requires i <= 2 * |words|
    decreases 2 * |words| - i
  {
    if i == 2 * |words| then ("", true)
    else
      var c := if i % 2 == 0 then words[i / 2] % 256 else words[i / 2] / 256;
      if c == 0 then ("", true)
      else
        var (rest, printable) := AsciiText(words, i + 1);
        if 32 <= c <= 126 then ([c as char] + rest, printable) else ("?" + rest, false)
  }

  /** The quality that `decode_value` leaves: GOOD unless the raw value is outside its encoding. */
  function DecodedQuality(def: PointDef, words: seq<word>): Quality
    requires ValidPoint(def) && |words| == def.wordCount
  {
    var raw := Extract(def, words[0]);
    match def.encoding
    case U16 => Good
    case U32 => Good
    case Version => Good
    case Bool => if raw > 1 then Unverified else Good
    case Enum =>
      if raw >= def.stateCount - 1 || (def.offset == 56 && def.bitLsb == 0 && raw == 3) then Unverified else Good
    case Clock => if raw < 1440 then Good else Unverified
    case Date => if CalendarDate(raw) then Good else Unverified
    case Ascii => if AsciiText(words, 0).1 then Good else Unverified
  }

  function DecodedNumber(def: PointDef, words: seq<word>): Option<real>
    requires ValidPoint(def) && |words| == def.wordCount
  {
    var raw := Extract(def, words[0]);
    match def.encoding
    case U16 => Some(raw as real * def.numerator as real / def.denominator as real)
    case Bool => Some(raw as real)
    case Enum => Some(if raw < def.stateCount - 1 then raw as real + 1.0 else def.stateCount as real)
    case U32 => var high: int := words[0]; Some((high * 0x1_0000 + words[1]) as real)
    case _ => None
  }

  /** `qualify`: what is known about the installation can demote a good reading. */
  function Qualified(blocks: seq<BlockState>, def: PointDef, raw: seq<word>, now: nat): Quality
    requires ValidBlocks(blocks) && |raw| >= 1
  {
    if 15 <= def.offset <= 17 then Unverified
    else if def.offset == 18 || def.offset == 40 then
      var overview, mode := Register(blocks, 0, now), Register(blocks, 56, now);
      if overview.None? || mode.None? then CommFailure
      else if overview.value / 0x2000 % 4 != 3 || (def.offset == 18 && mode.value % 4 != 2) then NotApplicable
      else Unverified
    else if 195 <= def.offset <= 202 then
      var context := Register(blocks, 153 + (def.offset - 195) % 4, now);
      if context.None? then CommFailure
      else if context.value == 0 then NotApplicable
      else if context.value > 2 then Unverified
      else Good
    else if def.offset == 249 || def.offset == 251 then
      var context := Register(blocks, def.offset + 1, now);
      if context.None? then CommFailure
      else if context.value % (if def.offset == 249 then 16 else 32) == 0 then NotApplicable
      else Good
    else if def.offset == 1011 then Unverified
    else if 1294 <= def.offset <= 1298 && raw[0] == 0 then Unverified
    else if def.offset == 1319 && raw[0] == 0x0221 then Unverified
    else if def.offset == 0 && def.bitWidth == 0 && raw[0] >= 0x8000 then Unverified
    else Good
  }

  /** The registers `Qualified` consults for a point. */
  function Context(def: PointDef): set<word> {
    if def.offset == 18 || def.offset == 40 then {0, 56}
    else if 195 <= def.offset <= 202 then {153 + (def.offset - 195) % 4}
    else if def.offset == 249 || def.offset == 251 then {def.offset + 1}
    else {}
  }

  /** The text that `decode_value` leaves. */
  function DecodedText(def: PointDef, words: seq<word>): string
    requires ValidPoint(def) && |words| == def.wordCount
  {
    var raw := Extract(def, words[0]);
    match def.encoding
    case Version => DecimalText(words[0] / 256) + "." + TwoDigits(words[0] % 256)
    case Clock =>
      if raw < 1440 then TwoDigits(raw / 60) + ":" + TwoDigits(raw % 60)
      else "Invalid clock (" + DecimalText(raw) + ")"
    case Date =>
      if CalendarDate(raw)
      then DecimalText(2000 + raw / 512) + "-" + TwoDigits(raw / 32 % 16) + "-" + TwoDigits(raw % 32)
      else "Invalid date (0x" + FourHexDigits(raw) + ")"
    case Ascii => AsciiText(words, 0).0
    case _ => ""
  }

  /** One point of `ats_model_decode_all`. */
  function DecodePoint(blocks: seq<BlockState>, def: PointDef, now: nat): (value: Value)
    requires ValidBlocks(blocks) && ValidPoint(def)
  {
    var index := ContainingBlock(def.offset, def.wordCount);
    if index < 0 || !blocks[index].acquired then Value(None, "", CommFailure, 0, [])
    else
      var start := def.offset - Block(index).offset;
      var words := blocks[index].words[start..start + def.wordCount];
      var quality := DecodedQuality(def, words);
      Value(DecodedNumber(def, words), DecodedText(def, words),
            if !BlockGood(blocks, index, now) then CommFailure
            else if quality.Good? then Qualified(blocks, def, words, now) else quality,
            blocks[index].lastGood, words)
  }

  /** The body of the loop below. */
  method DecodeOne(blocks: array<BlockState>, def: PointDef, now: nat) returns (value: Value)
    requires ValidBlocks(blocks[..]) && ValidPoint(def)
    ensures value == DecodePoint(blocks[..], def, now)
  {
    var index := FindContainingBlock(def.offset, def.wordCount);
    if index < 0 || !blocks[index].acquired {
      return Value(None, "", CommFailure, 0, []);
    }
    var start := def.offset - Block(index).offset;
    var words := blocks[index].words[start..start + def.wordCount];
    var quality := DecodedQuality(def, words);
    if !BlockGood(blocks[..], index, now) {
      quality := CommFailure;
    } else if quality.Good? {
      quality := Qualified(blocks[..], def, words, now);
    }
    value := Value(DecodedNumber(def, words), DecodedText(def, words), quality, blocks[index].lastGood, words);
  }

  method DecodeAll(blocks: array<BlockState>, points: seq<PointDef>, now: nat, values: array<Value>)
    requires ValidBlocks(blocks[..])
    requires values.Length == |points| && forall i :: 0 <= i < |points| ==> ValidPoint(points[i])
    modifies values
    ensures forall i :: 0 <= i < |points| ==> values[i] == DecodePoint(blocks[..], points[i], now)
  {
    for i := 0 to |points|
      invariant forall j :: 0 <= j < i ==> values[j] == DecodePoint(blocks[..], points[j], now)
    {
      values[i] := DecodeOne(blocks, points[i], now);
    }
  }

  /** A register the point is qualified against cannot be read. */
  predicate ContextMissing(blocks: seq<BlockState>, def: PointDef, now: nat)
    requires ValidBlocks(blocks)
  {
    exists r :: r in Context(def) && Register(blocks, r, now).None?
  }

  lemma QualifiedNeedsContext(blocks: seq<BlockState>, def: PointDef, raw: seq<word>, now: nat)
    requires ValidBlocks(blocks) && |raw| >= 1
    ensures Qualified(blocks, def, raw, now).CommFailure? <==> ContextMissing(blocks, def, now)
  {
    if def.offset == 18 || def.offset == 40 {
      assert Context(def) == {0, 56};
      assert 0 in Context(def) && 56 in Context(def);
    } else if 195 <= def.offset <= 202 {
      assert Context(def) == {153 + (def.offset - 195) % 4};
      assert 153 + (def.offset - 195) % 4 in Context(def);
    } else if def.offset == 249 || def.offset == 251 {
      assert Context(def) == {def.offset + 1};
      assert def.offset + 1 in Context(def);
    }
  }

  /** A point shows communication failure exactly when its own block is not good, or its raw value is
      well formed and a register it is qualified against is not available. Otherwise it carries the
      words its block last received, dated by that read. */
  lemma DecodedQualityMeansGoodBlock(blocks: seq<BlockState>, def: PointDef, now: nat)
    requires ValidBlocks(blocks) && ValidPoint(def)
    ensures var value := DecodePoint(blocks, def, now);
      var index := ContainingBlock(def.offset, def.wordCount);
      if !BlockGood(blocks, index, now) then value.quality.CommFailure?
      else
        && value.lastGood == blocks[index].lastGood
        && value.raw == blocks[index].words[def.offset - Block(index).offset..][..def.wordCount]
        && (value.quality.CommFailure? <==>
              DecodedQuality(def, value.raw).Good? && ContextMissing(blocks, def, now))
  {
    var index := ContainingBlock(def.offset, def.wordCount);
    if BlockGood(blocks, index, now) {
      var start := def.offset - Block(index).offset;
      var words := blocks[index].words[start..start + def.wordCount];
      assert words == blocks[index].words[start..][..def.wordCount];
      QualifiedNeedsContext(blocks, def, words, now);
      assert DecodedQuality(def, words) != CommFailure;
    }
  }
}
