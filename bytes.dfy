/** Raw bytes, as Go's `string` and `[]byte` hold them. */
module Bytes {

  /** One octet. */
  type byte = x: int | 0 <= x < 256

  /** An ASCII decimal digit, `0` to `9`. */
  predicate IsDigit(c: byte) { 48 <= c <= 57 }

  /** The code of an ASCII character. */
  function Code(c: char): (b: byte)
    requires c as int < 128
    ensures b as char == c
  {
    c as int
  }

  /** The bytes of an ASCII literal, as a Go string literal stores them. */
  function Ascii(s: string): (r: seq<byte>)
    requires forall i :: 0 <= i < |s| ==> s[i] as int < 128
    ensures |r| == |s|
    ensures forall i :: 0 <= i < |s| ==> r[i] as char == s[i]
  {
    seq(|s|, i requires 0 <= i < |s| => Code(s[i]))
  }
}
