/**
 The X-Hub-Signature scheme: the header carries "sha1=" followed by the
 lower-case hex encoding of HMAC-SHA1(secret, body). HMAC-SHA1 (RFC 2104 over
 the SHA-1 of FIPS 180-4) is not modelled; it is a parameter `mac` whose only
 known property, carried by its type, is that it yields 20 bytes.
 */
module Signature {
  import opened Wrappers
  import opened Bytes
  import Hex

  /** Size of a SHA-1 digest in bytes. */
  const DigestLength: nat := 20

  type Digest = d: seq<byte> | |d| == DigestLength witness seq(20, _ => 0)

  /** HMAC-SHA1 keyed by the first argument, over the message in the second. */
  type Mac = (seq<byte>, seq<byte>) -> Digest

  const Prefix: seq<byte> := Ascii("sha1=")

  /** |"sha1="| plus two hex digits per digest byte. */
  const SignatureLength: nat := 45

  /**
   The digest a header names: the hex after a leading "sha1=", decoded.
   None when the prefix is missing or the rest is not lower-case hex.
   */
  function Parse(header: seq<byte>): (d: Option<seq<byte>>)
    ensures d.Some? ==> header == Prefix + Hex.Encode(d.value)
    ensures d.Some? ==> forall i :: |Prefix| <= i < |header| ==> Hex.IsLowerHexDigit(header[i])
  {
    if |header| >= |Prefix| && header[..|Prefix|] == Prefix then
      var hex := header[|Prefix|..];
      var d := Hex.Decode(hex);
      if d.Some? then
        Hex.EncodeDecode(hex, d.value);
        assert header == Prefix + hex;
        d
      else None
    else None
  }

  /** The header value a genuine delivery of `body` carries. */
  function Expected(mac: Mac, secret: seq<byte>, body: seq<byte>): (sig: seq<byte>)
    ensures |sig| == SignatureLength
    ensures sig[..|Prefix|] == Prefix
    ensures forall i :: |Prefix| <= i < |sig| ==> Hex.IsLowerHexDigit(sig[i])
    ensures Parse(sig) == Some(mac(secret, body))
  {
    var sig := Prefix + Hex.Encode(mac(secret, body));
    assert sig[|Prefix|..] == Hex.Encode(mac(secret, body));
    Hex.DecodeEncode(mac(secret, body));
    sig
  }

  /** A header parses to a digest exactly when it is that digest's signature. */
  lemma {:induction false} ParseIffExpected(mac: Mac, secret: seq<byte>, body: seq<byte>, header: seq<byte>)
    ensures Parse(header) == Some(mac(secret, body)) <==> header == Expected(mac, secret, body)
  {
    var d := mac(secret, body);
    if Parse(header) == Some(d) {
      Hex.EncodeDecode(header[|Prefix|..], d);
      assert header == header[..|Prefix|] + header[|Prefix|..];
    }
  }

  /**
   The comparison `hmac.Equal([]byte(header), []byte(signature))`, taken as
   plain equality of the two byte sequences.
   */
  function Matches(mac: Mac, secret: seq<byte>, body: seq<byte>, header: seq<byte>): (ok: bool)
    ensures ok <==> Parse(header) == Some(mac(secret, body))
    ensures ok ==> |header| == SignatureLength && header[..|Prefix|] == Prefix
    ensures ok ==> forall i :: |Prefix| <= i < |header| ==> Hex.IsLowerHexDigit(header[i])
  {
    ParseIffExpected(mac, secret, body, header);
    header == Expected(mac, secret, body)
  }

  /** A signature made for one body is rejected for a body whose MAC differs. */
  lemma RejectsTamperedBody(mac: Mac, secret: seq<byte>, body: seq<byte>, tampered: seq<byte>)
    requires mac(secret, tampered) != mac(secret, body)
    ensures !Matches(mac, secret, tampered, Expected(mac, secret, body))
  {
  }

  /** A signature made with one secret is rejected under a secret whose MAC differs. */
  lemma RejectsOtherSecret(mac: Mac, secret: seq<byte>, other: seq<byte>, body: seq<byte>)
    requires mac(other, body) != mac(secret, body)
    ensures !Matches(mac, secret, body, Expected(mac, other, body))
  {
  }
}
