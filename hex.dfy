/** Bytes and the lowercase hexadecimal rendering of `fmt.Sprintf("%x", ...)`. */
module Hex {

  type byte = b: int | 0 <= b < 256

  predicate IsHexChar(c: char)
  {
    '0' <= c <= '9' || 'a' <= c <= 'f'
  }

  /** Every character is a lowercase hexadecimal digit. */
  predicate IsLowerHex(s: string)
  {
    forall i :: 0 <= i < |s| ==> IsHexChar(s[i])
  }

  /** The lowercase digit for a value below 16. */
  function Digit(n: int): (c: char)
    requires 0 <= n < 16
    ensures IsHexChar(c)
  {
    if n < 10 then ('0' as int + n) as char else ('a' as int + n - 10) as char
  }

  /** The value of a lowercase digit; Digit inverts it. */
  function DigitValue(c: char): (n: int)
    requires IsHexChar(c)
    ensures 0 <= n < 16
    ensures Digit(n) == c
  {
    if c <= '9' then c as int - '0' as int else c as int - 'a' as int + 10
  }

  lemma DigitRoundTrip(n: int)
    requires 0 <= n < 16
    ensures DigitValue(Digit(n)) == n
  {
  }

  /** `%x` of a byte slice: two lowercase digits per byte, high nibble first. */
  function HexEncode(bs: seq<byte>): (s: string)
    ensures |s| == 2 * |bs|
    ensures IsLowerHex(s)
  {
    if bs == [] then ""
    else [Digit(bs[0] / 16), Digit(bs[0] % 16)] + HexEncode(bs[1..])
  }

  /** Reads back pairs of lowercase digits as bytes. */
  function HexDecode(s: string): (bs: seq<byte>)
    requires IsLowerHex(s) && |s| % 2 == 0
    ensures |bs| == |s| / 2
  {
    if s == [] then []
    else
      assert IsLowerHex(s[2..]) by {
        forall i | 0 <= i < |s[2..]| ensures IsHexChar(s[2..][i]) { assert s[2..][i] == s[i + 2]; }
      }
      [DigitValue(s[0]) * 16 + DigitValue(s[1])] + HexDecode(s[2..])
  }

  /** Decoding an encoding gives back the bytes. */
  lemma {:induction false} HexRoundTrip(bs: seq<byte>)
    ensures HexDecode(HexEncode(bs)) == bs
  {
    if bs != [] {
      var s := HexEncode(bs);
      DigitRoundTrip(bs[0] / 16);
      DigitRoundTrip(bs[0] % 16);
      assert s[2..] == HexEncode(bs[1..]);
      HexRoundTrip(bs[1..]);
      assert bs == [bs[0]] + bs[1..];
    }
  }

  /** Distinct byte strings have distinct renderings. */
  lemma HexEncodeInjective(a: seq<byte>, b: seq<byte>)
    requires HexEncode(a) == HexEncode(b)
    ensures a == b
  {
    HexRoundTrip(a);
    HexRoundTrip(b);
  }

  /** A hexadecimal text holds no newline. */
  lemma LowerHexHasNoNewline(s: string)
    requires IsLowerHex(s)
    ensures '\n' !in s
  {
  }

  /** A concatenation of hexadecimal texts is hexadecimal. */
  lemma ConcatLowerHex(a: string, b: string)
    requires IsLowerHex(a) && IsLowerHex(b)
    ensures IsLowerHex(a + b)
  {
    forall i | 0 <= i < |a + b| ensures IsHexChar((a + b)[i]) {
      if i >= |a| { assert (a + b)[i] == b[i - |a|]; }
    }
  }

  /** The bytes of a hexadecimal text, as `io.WriteString` hands them to a hash. */
  function AsciiBytes(s: string): (bs: seq<byte>)
    requires IsLowerHex(s)
    ensures |bs| == |s|
    ensures forall i :: 0 <= i < |s| ==> bs[i] == s[i] as int
  {
    seq(|s|, i requires 0 <= i < |s| => s[i] as int)
  }
}
