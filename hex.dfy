/**
 * Lowercase hexadecimal text of a byte string, as Go's `hex.EncodeToString`
 * writes it (the base 16 encoding of section 8 of RFC 4648, in lowercase),
 * and the decoder `hex.DecodeString` that reads it back.
 */
module Hex {
  import opened Wrappers
  import opened ByteOrder

  predicate IsLowerHexDigit(c: char) {
    '0' <= c <= '9' || 'a' <= c <= 'f'
  }

  /** The lowercase digit for a nibble. */
  function Digit(d: nat): (c: char)
    requires d < 16
    ensures IsLowerHexDigit(c)
  {
    if d < 10 then ('0' as int + d) as char else ('a' as int + d - 10) as char
  }

  /** The value of a hex digit in either case; `None` for any other character. */
  function DigitValue(c: char): (v: Option<nat>)
    ensures v.Some? ==> v.value < 16
  {
    if '0' <= c <= '9' then Some(c as int - '0' as int)
    else if 'a' <= c <= 'f' then Some(c as int - 'a' as int + 10)
    else if 'A' <= c <= 'F' then Some(c as int - 'A' as int + 10)
    else None
  }

  /** Two digits per byte, high nibble first. */
  function Encode(bs: seq<Byte>): (s: string)
    ensures |s| == 2 * |bs|
    ensures forall i :: 0 <= i < |s| ==> IsLowerHexDigit(s[i])
  {
    if bs == [] then [] else [Digit(bs[0] / 16), Digit(bs[0] % 16)] + Encode(bs[1..])
  }

  /** `None` for text of odd length or with a character that is not a hex digit. */
  function Decode(s: string): (r: Option<seq<Byte>>)
    ensures r.Some? <==> |s| % 2 == 0 && forall i :: 0 <= i < |s| ==> DigitValue(s[i]).Some?
    ensures r.Some? ==> 2 * |r.value| == |s|
  {
    if |s| == 0 then Some([])
    else if |s| == 1 then None
    else
      var hi, lo, rest := DigitValue(s[0]), DigitValue(s[1]), Decode(s[2..]);
      if hi.None? || lo.None? || rest.None? then None
      else Some([hi.value * 16 + lo.value] + rest.value)
  }

  /** Decoding the encoding of any byte string gives the bytes back. */
  lemma {:induction false} DecodeEncode(bs: seq<Byte>)
    ensures Decode(Encode(bs)) == Some(bs)
  {
    if bs != [] {
      var s := Encode(bs);
      assert s[2..] == Encode(bs[1..]);
      DecodeEncode(bs[1..]);
      assert bs == [bs[0]] + bs[1..];
    }
  }

  /** A lowercase digit reads as a nibble whose digit it is. */
  lemma DigitOfValue(c: char)
    requires IsLowerHexDigit(c)
    ensures DigitValue(c).Some? && Digit(DigitValue(c).value) == c
  {
  }

  /** A byte made of two nibbles splits back into them. */
  lemma Nibbles(hi: nat, lo: nat)
    requires hi < 16 && lo < 16
    ensures (hi * 16 + lo) / 16 == hi && (hi * 16 + lo) % 16 == lo
  {
  }

  /** Lowercase hex text of even length decodes, and is the encoding of what it decodes to. */
  lemma {:induction false} EncodeDecode(s: string)
    requires |s| % 2 == 0
    requires forall i :: 0 <= i < |s| ==> IsLowerHexDigit(s[i])
    ensures Decode(s).Some? && Encode(Decode(s).value) == s
  {
    if |s| > 0 {
      var tail := s[2..];
      EncodeDecode(tail);
      DigitOfValue(s[0]);
      DigitOfValue(s[1]);
      var hi, lo := DigitValue(s[0]).value, DigitValue(s[1]).value;
      Nibbles(hi, lo);
      var b: Byte := hi * 16 + lo;
      var rest := Decode(tail).value;
      assert Decode(s) == Some([b] + rest);
      assert ([b] + rest)[1..] == rest;
      assert Encode([b] + rest) == [Digit(hi), Digit(lo)] + Encode(rest);
      assert s == [s[0], s[1]] + tail;
    }
  }
}
