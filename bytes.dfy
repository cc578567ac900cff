/** Go strings are indexed byte by byte; this module gives the byte type the
    string-processing exercises work on, and a way to write their ASCII demo
    inputs as string literals. */
module Bytes {

  newtype byte = x: int | 0 <= x < 256

  /** The bytes of a string whose characters are all single-byte (ASCII or Latin-1). */
  function Ascii(s: string): (r: seq<byte>)
    requires forall i :: 0 <= i < |s| ==> s[i] as int < 256
    ensures |r| == |s|
    ensures forall i :: 0 <= i < |s| ==> r[i] as int == s[i] as int
  {
    if s == [] then [] else [s[0] as int as byte] + Ascii(s[1..])
  }
}
