/** Optional values, used for decoders that can reject their input. */
module Wrappers {

  datatype Option<+T> = None | Some(value: T)
}

/**
 Go's `[]byte` and, since a Go `string` is an immutable byte sequence, the
 header values the webhook reads. ASCII literals of the program ("sha1=",
 "push", ...) are turned into bytes with `Ascii`.
 */
module Bytes {

  newtype byte = b: int | 0 <= b < 256

  predicate IsAscii(s: string)
  {
    forall i :: 0 <= i < |s| ==> s[i] as int < 128
  }

  /** The bytes of an ASCII string literal, one byte per character. */
  function Ascii(s: string): (b: seq<byte>)
    requires IsAscii(s)
    ensures |b| == |s|
    ensures forall i :: 0 <= i < |s| ==> b[i] as int == s[i] as int
  {
    seq(|s|, i requires 0 <= i < |s| => (s[i] as int) as byte)
  }
}
