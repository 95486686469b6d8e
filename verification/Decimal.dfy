/** Numbers as `printf` writes them and as a reader of digits takes them. */
module Decimal {

  predicate Digits(s: string) { forall i :: 0 <= i < |s| ==> '0' <= s[i] <= '9' }

  function DecimalValue(s: string): nat
    requires Digits(s)
  {
    if s == "" then 0 else 10 * DecimalValue(s[..|s| - 1]) + (s[|s| - 1] - '0') as nat
  }

  function DigitChar(n: nat): (c: char)
    requires n < 10
    ensures '0' <= c <= '9' && (c - '0') as nat == n
  {
    '0' + n as char
  }

  function DecimalText(n: nat): (s: string)
    ensures s != "" && Digits(s) && DecimalValue(s) == n
    ensures n < 10 ==> |s| == 1
    ensures n < 100 ==> |s| <= 2
    ensures n < 1000 ==> |s| <= 3
    ensures n < 1_0000 ==> |s| <= 4
    ensures n < 10_0000 ==> |s| <= 5
    ensures n < 100_0000 ==> |s| <= 6
    ensures n < 1000_0000 ==> |s| <= 7
  {
    if n < 10 then
      assert DecimalValue([DigitChar(n)][..0]) == 0;
      [DigitChar(n)]
    else
      var head := DecimalText(n / 10);
      assert (head + [DigitChar(n % 10)])[..|head|] == head;
      head + [DigitChar(n % 10)]
  }

  /** `%02u`: at least two digits. */
  function TwoDigits(n: nat): (s: string)
    ensures Digits(s) && DecimalValue(s) == n && |s| >= 2 && (n < 100 ==> |s| == 2)
  {
    var s := DecimalText(n);
    if n < 10 then
      assert ("0" + s)[..1][..0] == "" && ("0" + s)[..1] == "0" && s[..0] == "";
      "0" + s
    else s
  }

  function HexChar(n: nat): char
    requires n < 16
  {
    if n < 10 then '0' + n as char else 'A' + (n - 10) as char
  }

  /** `%04X` of a register. */
  function FourHexDigits(n: nat): string
    requires n < 0x1_0000
  {
    [HexChar(n / 0x1000), HexChar(n / 0x100 % 16), HexChar(n / 16 % 16), HexChar(n % 16)]
  }

  /** Two numbers around a separator that is no digit. */
  lemma SplitAt(a: string, b: string, a': string, b': string, separator: char)
    requires Digits(a) && Digits(a') && !('0' <= separator <= '9')
    requires a + [separator] + b == a' + [separator] + b'
    ensures a == a' && b == b'
  {
    var s := a + [separator] + b;
    assert s[|a|] == separator == s[|a'|];
    assert forall k :: 0 <= k < |a| ==> s[k] == a[k];
    assert forall k :: 0 <= k < |a'| ==> s[k] == a'[k];
    assert s[..|a|] == a && s[..|a'|] == a' && s[|a| + 1..] == b && s[|a'| + 1..] == b';
  }

  /** How a reader takes a hexadecimal digit. */
  function HexDigitValue(c: char): nat
    requires '0' <= c <= '9' || 'A' <= c <= 'F'
  {
    if c <= '9' then (c - '0') as nat else 10 + (c - 'A') as nat
  }

  lemma HexReadsBack(n: nat)
    requires n < 0x1_0000
    ensures var s := FourHexDigits(n);
      && |s| == 4 && (forall k :: 0 <= k < 4 ==> '0' <= s[k] <= '9' || 'A' <= s[k] <= 'F')
      && 4096 * HexDigitValue(s[0]) + 256 * HexDigitValue(s[1]) + 16 * HexDigitValue(s[2]) + HexDigitValue(s[3]) == n
  {
    assert n / 0x100 == n / 16 / 16 && n / 0x1000 == n / 16 / 16 / 16;
  }
}
