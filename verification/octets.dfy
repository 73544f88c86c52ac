/** Octets, and the ASCII byte strings the stream writes on the wire. */
module Octets {

  newtype byte = x: int | 0 <= x < 256

  /** A Python `bytes` object. */
  type Bytes = seq<byte>

  /** The octets of an ASCII text: every character becomes the byte holding its code point. */
  function Ascii(s: string): (r: Bytes)
    ensures |r| == |s|
    ensures forall i :: 0 <= i < |s| && s[i] as int < 256 ==> r[i] as int == s[i] as int
  {
    seq(|s|, i requires 0 <= i < |s| => (s[i] as int % 256) as byte)
  }
}
