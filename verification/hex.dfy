/**
 Lower-case hexadecimal encoding of byte sequences, as Go's
 `hex.EncodeToString` produces it: two digits per byte, high nibble first,
 digits '0'-'9' then 'a'-'f'. `Decode` is its inverse and is what gives the
 signature comparison a meaning ("the header names this digest").
 */
module Hex {
  import opened Wrappers
  import opened Bytes

  /** ASCII '0'..'9' or 'a'..'f'. */
  predicate IsLowerHexDigit(c: byte)
  {
    0x30 <= c <= 0x39 || 0x61 <= c <= 0x66
  }

  /** The digit that stands for the nibble `n`. */
  function Digit(n: byte): (c: byte)
    requires n < 16
    ensures IsLowerHexDigit(c)
    ensures n < 10 <==> c <= 0x39
  {
    if n < 10 then 0x30 + n else 0x57 + n
  }

  /** The nibble a lower-case digit stands for; None for any other byte. */
  function DigitValue(c: byte): (v: Option<byte>)
    ensures v.Some? <==> IsLowerHexDigit(c)
    ensures v.Some? ==> v.value < 16 && Digit(v.value) == c
  {
    if 0x30 <= c <= 0x39 then Some(c - 0x30)
    else if 0x61 <= c <= 0x66 then Some(c - 0x57)
    else None
  }

  /** Every nibble survives a trip through its digit. */
  lemma DigitRoundTrip(n: byte)
    requires n < 16
    ensures DigitValue(Digit(n)) == Some(n)
  {
  }

  function Encode(bs: seq<byte>): (s: seq<byte>)
    ensures |s| == 2 * |bs|
    ensures forall i :: 0 <= i < |s| ==> IsLowerHexDigit(s[i])
    ensures forall k :: 0 <= k < |bs| ==>
              s[2 * k] == Digit(bs[k] / 16) && s[2 * k + 1] == Digit(bs[k] % 16)
  {
    if |bs| == 0 then []
    else [Digit(bs[0] / 16), Digit(bs[0] % 16)] + Encode(bs[1..])
  }

  /** Inverse of `Encode`: None on an odd length or on any byte that is not a lower-case digit. */
  function Decode(s: seq<byte>): (r: Option<seq<byte>>)
    ensures r.Some? ==> |s| == 2 * |r.value|
    decreases |s|
  {
    if |s| == 0 then Some([])
    else if |s| == 1 then None
    else
      var hi := DigitValue(s[0]);
      var lo := DigitValue(s[1]);
      var rest := Decode(s[2..]);
      if hi.None? || lo.None? || rest.None? then None
      else Some([hi.value * 16 + lo.value] + rest.value)
  }

  /** Decoding one step: two digits in front of a decodable rest. */
  lemma DecodeCons(hi: byte, lo: byte, rest: seq<byte>, tail: seq<byte>)
    requires hi < 16 && lo < 16
    requires Decode(rest) == Some(tail)
    ensures Decode([Digit(hi), Digit(lo)] + rest) == Some([hi * 16 + lo] + tail)
  {
  }

  /** Decoding an encoding gives back the bytes. */
  lemma {:induction false} DecodeEncode(bs: seq<byte>)
    ensures Decode(Encode(bs)) == Some(bs)
  {
    if |bs| > 0 {
      DecodeEncode(bs[1..]);
      DecodeCons(bs[0] / 16, bs[0] % 16, Encode(bs[1..]), bs[1..]);
      assert [bs[0]] + bs[1..] == bs;
    }
  }

  /** A string that decodes is exactly the encoding of what it decodes to. */
  lemma {:induction false} EncodeDecode(s: seq<byte>, bs: seq<byte>)
    requires Decode(s) == Some(bs)
    ensures Encode(bs) == s
  {
    if |s| > 0 {
      var hi := DigitValue(s[0]).value;
      var lo := DigitValue(s[1]).value;
      var rest := Decode(s[2..]).value;
      EncodeDecode(s[2..], rest);
      var b := hi * 16 + lo;
      assert bs == [b] + rest;
      assert b / 16 == hi && b % 16 == lo;
      assert bs[1..] == rest;
      assert Encode(bs) == [s[0], s[1]] + s[2..];
    }
  }

  /** `Decode` and `Encode` are each other's inverse, in both directions. */
  lemma DecodeIffEncode(s: seq<byte>, bs: seq<byte>)
    ensures Decode(s) == Some(bs) <==> Encode(bs) == s
  {
    if Decode(s) == Some(bs) {
      EncodeDecode(s, bs);
    }
    if Encode(bs) == s {
      DecodeEncode(bs);
    }
  }

  /** Distinct byte sequences have distinct encodings. */
  lemma EncodeInjective(a: seq<byte>, b: seq<byte>)
    requires Encode(a) == Encode(b)
    ensures a == b
  {
  }
}
