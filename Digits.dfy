/** Text renderings of numbers used by the dice engine: Ruby's Integer#to_s
    (decimal, used for the nonce inside the hashed message), the lowercase
    hexadecimal form a digest takes from `hexdigest`, and String#to_i(16),
    which reads that hexadecimal text back as an integer. */
module Digits {

  newtype byte = x: int | 0 <= x < 256

  // ---------------------------------------------------------------- decimal

  predicate IsDecimalDigit(c: char) { '0' <= c <= '9' }

  function DigitChar(d: nat): (c: char)
    requires d < 10
    ensures IsDecimalDigit(c)
    ensures c as int == '0' as int + d
  {
    ['0', '1', '2', '3', '4', '5', '6', '7', '8', '9'][d]
  }

  function DigitValue(c: char): (d: nat)
    requires IsDecimalDigit(c)
    ensures d < 10
  {
    (c as int - '0' as int)
  }

  lemma DigitValueOfChar(d: nat)
    requires d < 10
    ensures DigitValue(DigitChar(d)) == d
  {
  }

  /** Decimal digits of a non-negative integer, most significant first,
      with no leading zero. */
  function NatToDecimal(n: nat): (s: string)
    ensures |s| > 0
    ensures AllDecimalDigits(s)
    ensures s[0] == '0' <==> n == 0
  {
    if n < 10 then [DigitChar(n)]
    else NatToDecimal(n / 10) + [DigitChar(n % 10)]
  }

  /** Integer#to_s: a leading '-' for negative values, then the digits. */
  function IntToDecimal(n: int): (s: string)
    ensures IsDecimalText(s)
    ensures ':' !in s
    ensures s[0] == '0' ==> |s| == 1
    ensures s[0] == '-' ==> |s| > 1 && s[1] != '0'
  {
    if n < 0 then "-" + NatToDecimal(-n) else NatToDecimal(n)
  }

  predicate AllDecimalDigits(s: string) {
    forall i :: 0 <= i < |s| ==> IsDecimalDigit(s[i])
  }

  /** The shape of Integer#to_s output: digits, optionally after a '-'. */
  predicate IsDecimalText(s: string) {
    || (|s| > 0 && AllDecimalDigits(s))
    || (|s| > 1 && s[0] == '-' && AllDecimalDigits(s[1..]))
  }

  /** Value of a string of decimal digits. */
  function DecimalValue(s: string): nat
    requires AllDecimalDigits(s)
  {
    if s == [] then 0
    else DecimalValue(s[..|s| - 1]) * 10 + DigitValue(s[|s| - 1])
  }

  /** Reads back what IntToDecimal writes. */
  function ParseDecimal(s: string): int
    requires IsDecimalText(s)
  {
    if s[0] == '-' then -(DecimalValue(s[1..]) as int) else DecimalValue(s)
  }

  lemma {:induction false} NatToDecimalRoundTrip(n: nat)
    ensures DecimalValue(NatToDecimal(n)) == n
  {
    if n >= 10 {
      var s := NatToDecimal(n);
      assert s[..|s| - 1] == NatToDecimal(n / 10);
      NatToDecimalRoundTrip(n / 10);
      DigitValueOfChar(n % 10);
    } else {
      DigitValueOfChar(n);
    }
  }

  lemma NegativeDecimalRoundTrip(k: nat)
    requires k > 0
    ensures IsDecimalText("-" + NatToDecimal(k))
    ensures ParseDecimal("-" + NatToDecimal(k)) == -(k as int)
  {
    var digits := NatToDecimal(k);
    var s := "-" + digits;
    assert s[1..] == digits;
    NatToDecimalRoundTrip(k);
  }

  lemma IntToDecimalRoundTrip(n: int)
    ensures ParseDecimal(IntToDecimal(n)) == n
  {
    if n < 0 {
      NegativeDecimalRoundTrip(-n);
    } else {
      NatToDecimalRoundTrip(n);
    }
  }

  /** Distinct integers have distinct decimal renderings. */
  lemma IntToDecimalInjective(m: int, n: int)
    ensures IntToDecimal(m) == IntToDecimal(n) ==> m == n
  {
    IntToDecimalRoundTrip(m);
    IntToDecimalRoundTrip(n);
  }

  // ------------------------------------------------------------ hexadecimal

  predicate IsHexDigit(c: char) {
    '0' <= c <= '9' || 'a' <= c <= 'f' || 'A' <= c <= 'F'
  }

  predicate IsLowerHex(s: string) {
    forall i :: 0 <= i < |s| ==> ('0' <= s[i] <= '9' || 'a' <= s[i] <= 'f')
  }

  function HexValue(c: char): (d: nat)
    requires IsHexDigit(c)
    ensures d < 16
  {
    if c <= '9' then c as int - '0' as int
    else if c <= 'F' then c as int - 'A' as int + 10
    else c as int - 'a' as int + 10
  }

  function HexChar(d: nat): (c: char)
    requires d < 16
    ensures IsHexDigit(c) && HexValue(c) == d
    ensures '0' <= c <= '9' || 'a' <= c <= 'f'
  {
    "0123456789abcdef"[d]
  }

  /** Digest#hexdigest: two lowercase hexadecimal characters per byte,
      high nibble first, bytes in order. */
  function HexDigest(b: seq<byte>): (s: string)
    ensures |s| == 2 * |b|
    ensures IsLowerHex(s)
  {
    if b == [] then []
    else
      var last := b[|b| - 1] as int;
      HexDigest(b[..|b| - 1]) + [HexChar(last / 16), HexChar(last % 16)]
  }

  /** Unsigned big-endian value of a byte string: the number a digest is. */
  function BigEndian(b: seq<byte>): nat
  {
    if b == [] then 0 else BigEndian(b[..|b| - 1]) * 256 + b[|b| - 1] as int
  }

  /** Number of leading hexadecimal digits of s. */
  function HexPrefixLength(s: string): (k: nat)
    ensures k <= |s|
    ensures forall i :: 0 <= i < k ==> IsHexDigit(s[i])
    ensures k < |s| ==> !IsHexDigit(s[k])
    ensures (forall i :: 0 <= i < |s| ==> IsHexDigit(s[i])) ==> k == |s|
  {
    if s == [] || !IsHexDigit(s[0]) then 0
    else
      assert forall i :: 0 <= i < |s| - 1 ==> s[1..][i] == s[i + 1];
      1 + HexPrefixLength(s[1..])
  }

  /** Value of a string made only of hexadecimal digits. */
  function HexDigitsValue(s: string): nat
    requires forall i :: 0 <= i < |s| ==> IsHexDigit(s[i])
  {
    if s == [] then 0
    else HexDigitsValue(s[..|s| - 1]) * 16 + HexValue(s[|s| - 1])
  }

  /** String#to_i(16): the value of the leading run of hexadecimal digits,
      0 when there is none. */
  function HexToInt(s: string): (v: nat)
    ensures s == [] || !IsHexDigit(s[0]) ==> v == 0
    ensures (forall i :: 0 <= i < |s| ==> IsHexDigit(s[i])) ==> v == HexDigitsValue(s)
  {
    assert s[..|s|] == s;
    HexDigitsValue(s[..HexPrefixLength(s)])
  }

  lemma {:induction false} HexDigestValue(b: seq<byte>)
    ensures HexDigitsValue(HexDigest(b)) == BigEndian(b)
  {
    if b != [] {
      var init := b[..|b| - 1];
      var last := b[|b| - 1] as int;
      var h := HexDigest(b);
      var hi := HexChar(last / 16);
      var lo := HexChar(last % 16);
      assert h == HexDigest(init) + [hi, lo];
      assert h[..|h| - 1] == HexDigest(init) + [hi];
      assert h[..|h| - 1][..|h| - 2] == HexDigest(init);
      HexDigestValue(init);
      calc {
        HexDigitsValue(h);
        HexDigitsValue(h[..|h| - 1]) * 16 + HexValue(lo);
        (HexDigitsValue(HexDigest(init)) * 16 + HexValue(hi)) * 16 + HexValue(lo);
        (BigEndian(init) * 16 + last / 16) * 16 + last % 16;
        BigEndian(init) * 256 + last;
      }
    }
  }

  /** Reading a hexdigest back with to_i(16) gives the digest's value. */
  lemma HexDigestRoundTrip(b: seq<byte>)
    ensures HexToInt(HexDigest(b)) == BigEndian(b)
  {
    HexDigestValue(b);
  }
}
