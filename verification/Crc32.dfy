/**
 The reflected CRC-32 of main/error_history.c, one bit at a time. Every step is a bijection of the
 32-bit register, so a change confined to four adjacent bytes always changes the result.
 */
module Crc32 {

  const POLYNOMIAL: bv32 := 0xedb88320

  function Xor(a: bv32, b: bv32): bv32 { a ^ b }

  function Down(crc: bv32): bv32 { crc >> 1 }

  /** The polynomial if the bit shifted out is set. */
  function Feedback(crc: bv32): bv32 { POLYNOMIAL & (0 - (crc & 1)) }

  /** One bit. */
  function Shift(crc: bv32): bv32 { Xor(Down(crc), Feedback(crc)) }

  function Shift8(crc: bv32): bv32 {
    Shift(Shift(Shift(Shift(Shift(Shift(Shift(Shift(crc))))))))
  }

  function Wide(b: bv8): bv32 { b as bv32 }

  /** One byte. */
  function Feed(crc: bv32, b: bv8): bv32 { Shift8(Xor(crc, Wide(b))) }

  function Crc(crc: bv32, bytes: seq<bv8>): bv32
    decreases |bytes|
  {
    if bytes == [] then crc else Crc(Feed(crc, bytes[0]), bytes[1..])
  }

  lemma ShiftInjective(a: bv32, b: bv32)
    requires Shift(a) == Shift(b)
    ensures a == b
  {
  }

  lemma Shift8Injective(a: bv32, b: bv32)
    requires Shift8(a) == Shift8(b)
    ensures a == b
  {
    hide Shift;
    var a1, b1 := Shift(a), Shift(b);
    var a2, b2 := Shift(a1), Shift(b1);
    var a3, b3 := Shift(a2), Shift(b2);
    var a4, b4 := Shift(a3), Shift(b3);
    var a5, b5 := Shift(a4), Shift(b4);
    var a6, b6 := Shift(a5), Shift(b5);
    var a7, b7 := Shift(a6), Shift(b6);
    ShiftInjective(a7, b7);
    ShiftInjective(a6, b6);
    ShiftInjective(a5, b5);
    ShiftInjective(a4, b4);
    ShiftInjective(a3, b3);
    ShiftInjective(a2, b2);
    ShiftInjective(a1, b1);
    ShiftInjective(a, b);
  }

  lemma XorInputs(a: bv32, b: bv32, x: bv8, y: bv8)
    requires Xor(a, Wide(x)) == Xor(b, Wide(y))
    ensures x == y ==> a == b
    ensures a == b ==> x == y
  {
  }

  /** For a given byte the register before and after determine each other, and for a given register
      the byte is determined by the register after it. */
  lemma FeedInjective(a: bv32, b: bv32, x: bv8, y: bv8)
    requires Feed(a, x) == Feed(b, y)
    ensures x == y ==> a == b
    ensures a == b ==> x == y
  {
    hide Shift8, Xor, Wide;
    Shift8Injective(Xor(a, Wide(x)), Xor(b, Wide(y)));
    XorInputs(a, b, x, y);
  }

  lemma {:induction false} CrcInjective(a: bv32, b: bv32, bytes: seq<bv8>)
    requires Crc(a, bytes) == Crc(b, bytes)
    ensures a == b
    decreases |bytes|
  {
    hide Feed;
    if bytes != [] {
      CrcInjective(Feed(a, bytes[0]), Feed(b, bytes[0]), bytes[1..]);
      FeedInjective(a, b, bytes[0], bytes[0]);
    }
  }

  lemma {:induction false} CrcConcat(crc: bv32, x: seq<bv8>, y: seq<bv8>)
    ensures Crc(crc, x + y) == Crc(Crc(crc, x), y)
    decreases |x|
  {
    hide Feed;
    if x == [] {
      assert x + y == y;
    } else {
      assert (x + y)[1..] == x[1..] + y;
      CrcConcat(Feed(crc, x[0]), x[1..], y);
    }
  }

  // ----- four adjacent bytes -----

  function Up(z: bv32): bv32 { z << 1 }

  function Up8(z: bv32): bv32 { Up(Up(Up(Up(Up(Up(Up(Up(z)))))))) }

  predicate TopClear(z: bv32) { z & 0x8000_0000 == 0 }

  predicate TopByteClear(z: bv32) { z & 0xff00_0000 == 0 }

  lemma LowBitKept(x: bv32, z: bv32)
    ensures Feedback(Xor(x, Up(z))) == Feedback(x)
  {
    assert (x ^ (z << 1)) & 1 == x & 1;
  }

  lemma HighBitsMove(x: bv32, z: bv32)
    requires TopClear(z)
    ensures Down(Xor(x, Up(z))) == Xor(Down(x), z)
  {
  }

  lemma XorCommutative(a: bv32, b: bv32)
    ensures Xor(a, b) == Xor(b, a)
  {
  }

  lemma XorAssociative(a: bv32, b: bv32, c: bv32)
    ensures Xor(a, Xor(b, c)) == Xor(Xor(a, b), c)
  {
  }

  lemma Regroup(a: bv32, b: bv32, c: bv32)
    ensures Xor(Xor(a, b), c) == Xor(Xor(a, c), b)
  {
    hide Xor;
    XorAssociative(a, b, c);
    XorAssociative(a, c, b);
    XorCommutative(b, c);
  }

  /** Higher bits pass through a step unchanged, one place lower. */
  lemma ShiftThrough(x: bv32, z: bv32)
    requires TopClear(z)
    ensures Shift(Xor(x, Up(z))) == Xor(Shift(x), z)
  {
    hide Xor, Down, Up, Feedback, TopClear;
    LowBitKept(x, z);
    HighBitsMove(x, z);
    Regroup(Down(x), z, Feedback(x));
  }

  lemma RoomAbove(z: bv32)
    requires TopByteClear(z)
    ensures TopClear(z) && TopClear(Up(z)) && TopClear(Up(Up(z))) && TopClear(Up(Up(Up(z))))
    ensures TopClear(Up(Up(Up(Up(z))))) && TopClear(Up(Up(Up(Up(Up(z))))))
    ensures TopClear(Up(Up(Up(Up(Up(Up(z))))))) && TopClear(Up(Up(Up(Up(Up(Up(Up(z))))))))
  {
  }

  lemma Shift8Through(x: bv32, z: bv32)
    requires TopByteClear(z)
    ensures Shift8(Xor(x, Up8(z))) == Xor(Shift8(x), z)
  {
    hide Shift, Up, Xor, TopClear, TopByteClear;
    RoomAbove(z);
    var z1 := Up(z);
    var z2 := Up(z1);
    var z3 := Up(z2);
    var z4 := Up(z3);
    var z5 := Up(z4);
    var z6 := Up(z5);
    var z7 := Up(z6);
    var x1 := Shift(x);
    var x2 := Shift(x1);
    var x3 := Shift(x2);
    var x4 := Shift(x3);
    var x5 := Shift(x4);
    var x6 := Shift(x5);
    var x7 := Shift(x6);
    ShiftThrough(x, z7);
    ShiftThrough(x1, z6);
    ShiftThrough(x2, z5);
    ShiftThrough(x3, z4);
    ShiftThrough(x4, z3);
    ShiftThrough(x5, z2);
    ShiftThrough(x6, z1);
    ShiftThrough(x7, z);
  }

  /** Four bytes as a little-endian word, built from the last byte down. */
  function Pair(c: bv8, d: bv8): bv32 { Xor(Wide(c), Up8(Wide(d))) }

  function Triple(b: bv8, c: bv8, d: bv8): bv32 { Xor(Wide(b), Up8(Pair(c, d))) }

  function Word(a: bv8, b: bv8, c: bv8, d: bv8): bv32 { Xor(Wide(a), Up8(Triple(b, c, d))) }

  lemma RoomForBytes(b: bv8, c: bv8, d: bv8)
    ensures TopByteClear(Wide(d)) && TopByteClear(Pair(c, d)) && TopByteClear(Triple(b, c, d))
  {
  }

  /** Four bytes fed one after the other act as one 32-bit word fed at once. */
  lemma FeedWord(crc: bv32, a: bv8, b: bv8, c: bv8, d: bv8)
    ensures Feed(Feed(Feed(Feed(crc, a), b), c), d) == Shift8(Shift8(Shift8(Shift8(Xor(crc, Word(a, b, c, d))))))
  {
    hide Shift8, Up8, Xor, Wide, TopByteClear;
    RoomForBytes(b, c, d);
    XorAssociative(crc, Wide(a), Up8(Triple(b, c, d)));
    Shift8Through(Xor(crc, Wide(a)), Triple(b, c, d));
    var s1 := Feed(crc, a);
    XorAssociative(s1, Wide(b), Up8(Pair(c, d)));
    Shift8Through(Xor(s1, Wide(b)), Pair(c, d));
    var s2 := Feed(s1, b);
    XorAssociative(s2, Wide(c), Up8(Wide(d)));
    Shift8Through(Xor(s2, Wide(c)), Wide(d));
  }

  lemma WordInjective(crc: bv32, a: bv8, b: bv8, c: bv8, d: bv8, a': bv8, b': bv8, c': bv8, d': bv8)
    requires Xor(crc, Word(a, b, c, d)) == Xor(crc, Word(a', b', c', d'))
    ensures a == a' && b == b' && c == c' && d == d'
  {
  }

  lemma CrcOfFour(crc: bv32, x: seq<bv8>)
    requires |x| == 4
    ensures Crc(crc, x) == Feed(Feed(Feed(Feed(crc, x[0]), x[1]), x[2]), x[3])
  {
    hide Feed;
    var c1 := Feed(crc, x[0]);
    var c2 := Feed(c1, x[1]);
    var c3 := Feed(c2, x[2]);
    assert x[1..][1..] == x[2..] && x[2..][1..] == x[3..] && x[3..][1..] == [];
    assert Crc(c1, x[1..]) == Crc(c2, x[2..]);
    assert Crc(c2, x[2..]) == Crc(c3, x[3..]);
    assert Crc(c3, x[3..]) == Crc(Feed(c3, x[3]), []);
  }

  /** Different words of four bytes leave different registers. */
  lemma FourBytesDetermined(crc: bv32, x: seq<bv8>, y: seq<bv8>)
    requires |x| == |y| == 4 && Crc(crc, x) == Crc(crc, y)
    ensures x == y
  {
    hide Shift8, Feed, Word, Crc, Xor;
    CrcOfFour(crc, x);
    CrcOfFour(crc, y);
    FeedWord(crc, x[0], x[1], x[2], x[3]);
    FeedWord(crc, y[0], y[1], y[2], y[3]);
    var u, v := Xor(crc, Word(x[0], x[1], x[2], x[3])), Xor(crc, Word(y[0], y[1], y[2], y[3]));
    Shift8Injective(Shift8(Shift8(Shift8(u))), Shift8(Shift8(Shift8(v))));
    Shift8Injective(Shift8(Shift8(u)), Shift8(Shift8(v)));
    Shift8Injective(Shift8(u), Shift8(v));
    Shift8Injective(u, v);
    WordInjective(crc, x[0], x[1], x[2], x[3], y[0], y[1], y[2], y[3]);
  }

  /** Two inputs that agree outside one byte, and have the same CRC, are equal. */
  lemma ByteChangeDetected(crc: bv32, before: seq<bv8>, x: bv8, y: bv8, after: seq<bv8>)
    requires Crc(crc, before + [x] + after) == Crc(crc, before + [y] + after)
    ensures x == y
  {
    hide Feed;
    CrcConcat(crc, before + [x], after);
    CrcConcat(crc, before + [y], after);
    CrcConcat(crc, before, [x]);
    CrcConcat(crc, before, [y]);
    CrcInjective(Crc(crc, before + [x]), Crc(crc, before + [y]), after);
    var c := Crc(crc, before);
    assert [x][1..] == [] && [y][1..] == [];
    assert Crc(c, [x]) == Crc(Feed(c, x), []) && Crc(c, [y]) == Crc(Feed(c, y), []);
    FeedInjective(c, c, x, y);
  }

  /** Two inputs that agree outside four adjacent bytes, and have the same CRC, are equal. */
  lemma WordChangeDetected(crc: bv32, before: seq<bv8>, x: seq<bv8>, y: seq<bv8>, after: seq<bv8>)
    requires |x| == |y| == 4
    requires Crc(crc, before + x + after) == Crc(crc, before + y + after)
    ensures x == y
  {
    CrcConcat(crc, before + x, after);
    CrcConcat(crc, before + y, after);
    CrcConcat(crc, before, x);
    CrcConcat(crc, before, y);
    CrcInjective(Crc(crc, before + x), Crc(crc, before + y), after);
    FourBytesDetermined(Crc(crc, before), x, y);
  }

  lemma FeedFirst(crc: bv32, b: bv8, rest: seq<bv8>)
    ensures Crc(crc, [b] + rest) == Crc(Feed(crc, b), rest)
  {
    assert ([b] + rest)[1..] == rest;
  }

  /** The register after the nine digits "123456789", by which CRC variants are told apart. */
  lemma NineDigits()
    ensures Crc(0xffff_ffff, [0x31, 0x32, 0x33, 0x34, 0x35, 0x36, 0x37, 0x38, 0x39]) == 0x340bc6d9
  {
    assert Feed(0xffffffff, 0x31) == 0x7c231048;
    assert Feed(0x7c231048, 0x32) == 0xb0acbb32;
    assert Feed(0xb0acbb32, 0x33) == 0x77b79c2d;
    assert Feed(0x77b79c2d, 0x34) == 0x641c1f5c;
    assert Feed(0x641c1f5c, 0x35) == 0x340ac5e3;
    assert Feed(0x340ac5e3, 0x36) == 0xf68d2c9e;
    assert Feed(0xf68d2c9e, 0x37) == 0xaffc9660;
    assert Feed(0xaffc9660, 0x38) == 0x651f2550;
    assert Feed(0x651f2550, 0x39) == 0x340bc6d9;
    hide Feed;
    FeedFirst(0xffffffff, 0x31, [0x32, 0x33, 0x34, 0x35, 0x36, 0x37, 0x38, 0x39]);
    FeedFirst(0x7c231048, 0x32, [0x33, 0x34, 0x35, 0x36, 0x37, 0x38, 0x39]);
    FeedFirst(0xb0acbb32, 0x33, [0x34, 0x35, 0x36, 0x37, 0x38, 0x39]);
    FeedFirst(0x77b79c2d, 0x34, [0x35, 0x36, 0x37, 0x38, 0x39]);
    FeedFirst(0x641c1f5c, 0x35, [0x36, 0x37, 0x38, 0x39]);
    FeedFirst(0x340ac5e3, 0x36, [0x37, 0x38, 0x39]);
    FeedFirst(0xf68d2c9e, 0x37, [0x38, 0x39]);
    FeedFirst(0xaffc9660, 0x38, [0x39]);
    FeedFirst(0x651f2550, 0x39, []);
  }
}
