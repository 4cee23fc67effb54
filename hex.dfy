/**
 * The EDID fingerprint encoding: `hex::encode`, base16 as in section 8 of
 * RFC 4648 but with the lowercase alphabet `0123456789abcdef`, high nibble
 * first. `Decode` is its inverse, used here to prove that the encoding loses
 * nothing: two different EDID blocks never share a fingerprint.
 */
module Hex {
  import opened Wrappers

  type Byte = b: int | 0 <= b < 256

  /** One of the sixteen characters the encoder emits. */
  predicate IsLowerHexDigit(c: char)
  {
    '0' <= c <= '9' || 'a' <= c <= 'f'
  }

  /** The character for a nibble. */
  function Digit(n: int): (c: char)
    requires 0 <= n < 16
    ensures IsLowerHexDigit(c)
  {
    if n < 10 then ('0' as int + n) as char else ('a' as int + n - 10) as char
  }

  /** The nibble a lowercase hex character stands for; `None` for any other character. */
  function DigitValue(c: char): (r: Option<int>)
    ensures r.Some? <==> IsLowerHexDigit(c)
    ensures r.Some? ==> 0 <= r.value < 16 && Digit(r.value) == c
  {
    if '0' <= c <= '9' then Some(c as int - '0' as int)
    else if 'a' <= c <= 'f' then Some(c as int - 'a' as int + 10)
    else None
  }

  /** `hex::encode`: two characters per byte, high nibble first. */
  function Encode(bytes: seq<Byte>): (s: string)
    ensures |s| == 2 * |bytes|
    ensures forall i :: 0 <= i < |s| ==> IsLowerHexDigit(s[i])
    ensures forall i :: 0 <= i < |bytes| ==> s[2 * i] == Digit(bytes[i] / 16) && s[2 * i + 1] == Digit(bytes[i] % 16)
  {
    if bytes == [] then []
    else
      var rest := Encode(bytes[1..]);
      var s := [Digit(bytes[0] / 16), Digit(bytes[0] % 16)] + rest;
      assert forall n :: 2 <= n < |s| ==> s[n] == rest[n - 2];
      assert forall i :: 1 <= i < |bytes| ==> bytes[i] == bytes[1..][i - 1];
      s
  }

  /** The inverse of `Encode`: even length, lowercase digits only. */
  function Decode(s: string): (r: Option<seq<Byte>>)
    ensures r.Some? ==> 2 * |r.value| == |s|
  {
    if s == [] then Some([])
    else if |s| == 1 then None
    else
      match (DigitValue(s[0]), DigitValue(s[1]), Decode(s[2..]))
      case (Some(hi), Some(lo), Some(rest)) => Some([hi * 16 + lo] + rest)
      case _ => None
  }

  /** Reading back the character of a nibble gives the nibble. */
  lemma DigitRoundTrip(n: int)
    requires 0 <= n < 16
    ensures DigitValue(Digit(n)) == Some(n)
  {
  }

  lemma {:induction false} DecodeEncode(bytes: seq<Byte>)
    ensures Decode(Encode(bytes)) == Some(bytes)
  {
    if bytes != [] {
      DigitRoundTrip(bytes[0] / 16);
      DigitRoundTrip(bytes[0] % 16);
      var s := Encode(bytes);
      assert s[2..] == Encode(bytes[1..]);
      DecodeEncode(bytes[1..]);
      assert bytes == [bytes[0] / 16 * 16 + bytes[0] % 16] + bytes[1..];
    }
  }

  lemma {:induction false} EncodeDecode(s: string)
    requires Decode(s).Some?
    ensures Encode(Decode(s).value) == s
  {
    if s != [] {
      var hi, lo := DigitValue(s[0]).value, DigitValue(s[1]).value;
      var rest := Decode(s[2..]).value;
      var b: Byte := hi * 16 + lo;
      assert Decode(s).value == [b] + rest;
      assert b / 16 == hi && b % 16 == lo;
      EncodeDecode(s[2..]);
      assert ([b] + rest)[1..] == rest;
      assert Encode([b] + rest) == [Digit(hi), Digit(lo)] + Encode(rest);
      assert s == [s[0], s[1]] + s[2..];
    }
  }

  /** Distinct EDID blocks give distinct fingerprints. */
  lemma EncodeInjective(a: seq<Byte>, b: seq<Byte>)
    requires Encode(a) == Encode(b)
    ensures a == b
  {
    DecodeEncode(a);
    DecodeEncode(b);
  }

  /** Every even-length lowercase hex string is the fingerprint of exactly one block. */
  lemma {:induction false} DecodeTotalOnHex(s: string)
    requires |s| % 2 == 0
    requires forall i :: 0 <= i < |s| ==> IsLowerHexDigit(s[i])
    ensures Decode(s).Some?
  {
    if s != [] {
      DecodeTotalOnHex(s[2..]);
    }
  }
}
