/**
 * Bytes and "binary strings": the strings of characters U+0000..U+00FF with
 * which `btoa` and `atob` exchange bytes (`String.fromCodePoint(x)` for each
 * byte, `charCodeAt(0)` or `codePointAt(0)` back).
 */
module Octets {

  type byte = b: int | 0 <= b < 0x100

  /** Every character is at most U+00FF. */
  predicate IsBinaryString(s: string) {
    forall i :: 0 <= i < |s| ==> (s[i] as int) < 0x100
  }

  /** One character per byte, `String.fromCodePoint(x)` joined. */
  function ToBinaryString(b: seq<byte>): (s: string)
    ensures |s| == |b|
    ensures forall i :: 0 <= i < |b| ==> s[i] as int == b[i]
    ensures IsBinaryString(s)
  {
    seq(|b|, i requires 0 <= i < |b| => b[i] as char)
  }

  /** The character codes of a binary string, `Uint8Array.from(s, x => x.charCodeAt(0))`. */
  function FromBinaryString(s: string): (b: seq<byte>)
    requires IsBinaryString(s)
    ensures |b| == |s|
    ensures forall i :: 0 <= i < |s| ==> b[i] == s[i] as int
  {
    seq(|s|, i requires 0 <= i < |s| => s[i] as int)
  }

  lemma BinaryStringRoundTrip(b: seq<byte>)
    ensures FromBinaryString(ToBinaryString(b)) == b
  {
  }
}
