/** Machine words and results shared by every component of the gateway model. */
module Base {

  type byte = x: int | 0 <= x < 0x100
  type word = x: int | 0 <= x < 0x1_0000

  /** Two bytes, most significant first. */
  function Be16(high: byte, low: byte): word { 256 * high + low }

  lemma Be16Parts(high: byte, low: byte)
    ensures Be16(high, low) / 256 == high && Be16(high, low) % 256 == low
  {
  }

  const U32_RANGE: nat := 0x1_0000_0000
  const U32_MAX: nat := 0xffff_ffff
  const U64_MAX: nat := 0xffff_ffff_ffff_ffff

  /** Largest number of registers or bits in one request (main/modbus_tcp.h). */
  const MB_MAX_REGISTERS: nat := 50

  datatype Option<+T> = None | Some(value: T)

  /** `mb_error_t`, in the order of its enumeration values. */
  datatype MbError =
    | Ok
    | Argument
    | Connect
    | Io
    | Timeout
    | Truncated
    | Transaction
    | Protocol
    | Unit
    | Length
    | Function
    | ByteCount
    | Exception

  /** What one Modbus transaction reports back to a poller. */
  datatype MbResult = MbResult(error: MbError, exceptionCode: byte, elapsedMs: nat, systemError: int)

  /** The caller's word buffer: only its first `quantity` entries are meaningful. */
  type Buffer = s: seq<word> | |s| == MB_MAX_REGISTERS
    witness seq(MB_MAX_REGISTERS, i => 0)

  /** The peer's answer to a request: an oracle, never constrained unless a lemma says so. */
  datatype Reply = Reply(result: MbResult, words: Buffer)

  datatype Quality = Good | CommFailure | Unverified | NotApplicable

  /** `ats_value_t`: a decoded point. `numeric` is None where the firmware stores NaN. */
  datatype Value = Value(numeric: Option<real>, text: string, quality: Quality, lastGood: nat, raw: seq<word>)

  /** A 32-bit event counter that wraps (`uint32_t` incremented with `++`). */
  function Bump32(n: nat): nat { (n + 1) % U32_RANGE }

  /** A 16-bit counter that wraps. */
  function Bump16(n: word): word { (n + 1) % 0x1_0000 }

  function Pow2(k: nat): (p: nat)
    ensures p > 0
  {
    if k == 0 then 1 else 2 * Pow2(k - 1)
  }

  lemma AtLeastOnce(p: nat, d: nat)
    requires d >= 1
    ensures p * d >= p
  {
  }

  lemma SameQuotient(p: nat, q: nat, r: nat, q': nat, r': nat)
    requires r < p && r' < p && p * q + r == p * q' + r'
    ensures q == q' && r == r'
  {
    if q < q' {
      assert p * q' == p * q + p * (q' - q);
      AtLeastOnce(p, q' - q);
    } else if q' < q {
      assert p * q == p * q' + p * (q - q');
      AtLeastOnce(p, q - q');
    }
  }

  lemma QuotientOf(low: nat, p: nat, x: nat)
    requires low < p
    ensures (low + p * x) / p == x && (low + p * x) % p == low
  {
    var n: nat := p * x + low;
    assert n == p * (n / p) + n % p;
    SameQuotient(p, x, low, n / p, n % p);
  }

  /** `before` with `part` written over it from index `at` on. */
  function Splice<T>(before: seq<T>, at: nat, part: seq<T>): (after: seq<T>)
    requires at + |part| <= |before|
    ensures |after| == |before|
  {
    before[..at] + part + before[at + |part|..]
  }

  lemma SubsetSize<T>(a: set<T>, b: set<T>)
    requires a <= b
    ensures |a| <= |b|
  {
    assert b == a + (b - a);
  }

  /** The pause both pollers make after that many failures in a row, in milliseconds. */
  function Backoff(consecutiveFailures: nat): nat {
    if consecutiveFailures < 6 then consecutiveFailures * 5000 else 30000
  }

  /** The bytes of a text in registers, each register's low or high byte first. */
  function Characters(words: seq<word>, lowFirst: bool): (bytes: seq<byte>)
    ensures |bytes| == 2 * |words|
  {
    seq(2 * |words|, i requires 0 <= i < 2 * |words| =>
      if (i % 2 == 0) == lowFirst then words[i / 2] % 256 else words[i / 2] / 256)
  }

  /** The bytes from `i` on begin with `text`, in printable characters. */
  predicate SpelledAt(bytes: seq<byte>, i: nat, text: string) {
    && i + |text| <= |bytes|
    && forall k :: 0 <= k < |text| ==> ' ' <= text[k] <= '~' && bytes[i + k] == text[k] as int
  }

  lemma SpelledStep(bytes: seq<byte>, i: nat, text: string)
    requires i < |bytes| && text != ""
    ensures SpelledAt(bytes, i, text) <==>
      ' ' <= text[0] <= '~' && bytes[i] == text[0] as int && SpelledAt(bytes, i + 1, text[1..])
  {
    var rest := text[1..];
    if SpelledAt(bytes, i, text) {
      assert bytes[i + 0] == text[0] as int;
      forall k | 0 <= k < |rest| ensures ' ' <= rest[k] <= '~' && bytes[i + 1 + k] == rest[k] as int {
        assert rest[k] == text[k + 1] && i + 1 + k == i + (k + 1);
      }
    }
    if ' ' <= text[0] <= '~' && bytes[i] == text[0] as int && SpelledAt(bytes, i + 1, rest) {
      forall k | 0 <= k < |text| ensures ' ' <= text[k] <= '~' && bytes[i + k] == text[k] as int {
        if k > 0 {
          assert text[k] == rest[k - 1] && i + k == i + 1 + (k - 1);
        }
      }
    }
  }

  function Max(a: int, b: int): int { if a < b then b else a }

  function Min(a: int, b: int): int { if a < b then a else b }
}
