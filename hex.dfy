/** Lowercase Base16, the text form of a byte sequence: binary metadata values are
    written this way, and an ObjectId prints and parses through it. */
module Hex {

  newtype byte = b: int | 0 <= b < 256

  predicate IsHexDigit(c: char) {
    '0' <= c <= '9' || 'a' <= c <= 'f' || 'A' <= c <= 'F'
  }

  predicate IsLowerHexDigit(c: char) {
    '0' <= c <= '9' || 'a' <= c <= 'f'
  }

  /** The value of one hexadecimal digit, in either case. */
  function DigitValue(c: char): (v: nat)
    requires IsHexDigit(c)
    ensures v < 16
  {
    if '0' <= c <= '9' then c as int - '0' as int
    else if 'a' <= c <= 'f' then c as int - 'a' as int + 10
    else c as int - 'A' as int + 10
  }

  /** The lowercase digit for a value below 16. */
  function LowerDigit(v: nat): (c: char)
    requires v < 16
    ensures IsLowerHexDigit(c) && DigitValue(c) == v
  {
    if v < 10 then ('0' as int + v) as char else ('a' as int + v - 10) as char
  }

  /** The lowercase form of a hexadecimal digit. */
  function ToLowerDigit(c: char): (d: char)
    requires IsHexDigit(c)
    ensures IsLowerHexDigit(d) && DigitValue(d) == DigitValue(c)
    ensures IsLowerHexDigit(c) ==> d == c
  {
    LowerDigit(DigitValue(c))
  }

  /** Two lowercase hex digits per byte, high nibble first. */
  function EncodeHex(bytes: seq<byte>): (s: string)
    ensures |s| == 2 * |bytes|
    ensures forall i :: 0 <= i < |s| ==> IsLowerHexDigit(s[i])
  {
    if |bytes| == 0 then []
    else [LowerDigit(bytes[0] as int / 16), LowerDigit(bytes[0] as int % 16)] + EncodeHex(bytes[1..])
  }

  predicate IsHexString(s: string) {
    |s| % 2 == 0 && forall i :: 0 <= i < |s| ==> IsHexDigit(s[i])
  }

  /** Reads pairs of hexadecimal digits (either case) back into bytes. */
  function DecodeHex(s: string): (bytes: seq<byte>)
    requires IsHexString(s)
    ensures |bytes| == |s| / 2
  {
    if |s| == 0 then []
    else
      assert IsHexDigit(s[0]) && IsHexDigit(s[1]);
      [(DigitValue(s[0]) * 16 + DigitValue(s[1])) as byte] + DecodeHex(s[2..])
  }

  /** The lowercase form of a hexadecimal string. */
  function ToLowerHex(s: string): (t: string)
    requires forall i :: 0 <= i < |s| ==> IsHexDigit(s[i])
    ensures |t| == |s|
    ensures forall i :: 0 <= i < |s| ==> t[i] == ToLowerDigit(s[i])
  {
    seq(|s|, i requires 0 <= i < |s| => ToLowerDigit(s[i]))
  }

  /** Decoding undoes encoding: the text is a faithful image of the bytes. */
  lemma {:induction false} DecodeEncodeHex(bytes: seq<byte>)
    ensures IsHexString(EncodeHex(bytes))
    ensures DecodeHex(EncodeHex(bytes)) == bytes
  {
    if |bytes| > 0 {
      var s := EncodeHex(bytes);
      DecodeEncodeHex(bytes[1..]);
      assert s[2..] == EncodeHex(bytes[1..]);
      assert DigitValue(s[0]) * 16 + DigitValue(s[1]) == bytes[0] as int;
    }
  }

  /** A byte made of two nibbles splits back into them. */
  lemma NibbleSplit(hi: nat, lo: nat)
    requires hi < 16 && lo < 16
    ensures (hi * 16 + lo) / 16 == hi && (hi * 16 + lo) % 16 == lo
  {
  }

  /** Lowercasing a hex string lowercases its first two digits and then the rest. */
  lemma ToLowerHexPair(s: string)
    requires |s| >= 2 && forall i :: 0 <= i < |s| ==> IsHexDigit(s[i])
    ensures ToLowerHex(s) == [ToLowerDigit(s[0]), ToLowerDigit(s[1])] + ToLowerHex(s[2..])
  {
    var t := [ToLowerDigit(s[0]), ToLowerDigit(s[1])] + ToLowerHex(s[2..]);
    assert forall i :: 2 <= i < |s| ==> t[i] == ToLowerHex(s[2..])[i - 2];
  }

  /** Encoding a decoded string gives back that string in lowercase. */
  lemma {:induction false} EncodeDecodeHex(s: string)
    requires IsHexString(s)
    ensures EncodeHex(DecodeHex(s)) == ToLowerHex(s)
  {
    if |s| > 0 {
      assert IsHexDigit(s[0]) && IsHexDigit(s[1]);
      var hi, lo := DigitValue(s[0]), DigitValue(s[1]);
      NibbleSplit(hi, lo);
      var b := DecodeHex(s);
      assert b[0] as int == hi * 16 + lo && b[1..] == DecodeHex(s[2..]);
      assert IsHexString(s[2..]);
      EncodeDecodeHex(s[2..]);
      ToLowerHexPair(s);
    }
  }
}
