/**
 * UTF-8 as defined by section 3 of RFC 3629: the encoding `TextEncoder`
 * produces, the WHATWG decoder that `TextDecoder` runs (ill-formed input
 * becomes U+FFFD, one replacement per maximal ill-formed subpart, and a
 * leading byte order mark is dropped unless `ignoreBOM` is set), and the
 * single-scalar check that `decodeURIComponent` applies to the octets of a
 * percent-escape.
 */
module Utf8 {
  import opened Wrappers
  import opened Octets

  /** The bytes of one code point. */
  function EncodeChar(c: char): (b: seq<byte>)
    ensures 1 <= |b| <= 4
    ensures (|b| == 1) == ((c as int) < 0x80)
  {
    var cp := c as int;
    var q1 := cp / 0x40;
    var q2 := q1 / 0x40;
    var q3 := q2 / 0x40;
    if cp < 0x80 then [cp]
    else if cp < 0x800 then [0xC0 + q1, 0x80 + cp % 0x40]
    else if cp < 0x10000 then [0xE0 + q2, 0x80 + q1 % 0x40, 0x80 + cp % 0x40]
    else [0xF0 + q3, 0x80 + q2 % 0x40, 0x80 + q1 % 0x40, 0x80 + cp % 0x40]
  }

  /** `new TextEncoder().encode(s)`. */
  function Encode(s: string): seq<byte> {
    if s == [] then [] else EncodeChar(s[0]) + Encode(s[1..])
  }

  predicate IsContinuation(b: byte) {
    0x80 <= b < 0xC0
  }

  /** One step of the decoder: a well-formed sequence and its length, or the length of an ill-formed subpart. */
  datatype Step = Scalar(c: char, len: nat) | Invalid(len: nat)

  /** The range the second byte must fall in after a leading byte `b0` of a multi-byte sequence. */
  function SecondLow(b0: byte): byte {
    if b0 == 0xE0 then 0xA0 else if b0 == 0xF0 then 0x90 else 0x80
  }

  function SecondHigh(b0: byte): byte {
    if b0 == 0xED then 0x9F else if b0 == 0xF4 then 0x8F else 0xBF
  }

  /** The number of bytes a sequence led by `b0` has, 0 when `b0` cannot lead one. */
  function SequenceLength(b0: byte): nat {
    if b0 < 0x80 then 1
    else if 0xC2 <= b0 <= 0xDF then 2
    else if 0xE0 <= b0 <= 0xEF then 3
    else if 0xF0 <= b0 <= 0xF4 then 4
    else 0
  }

  /**
   * Decodes the sequence at the front of `b`. A sequence that breaks off, at a
   * byte out of range or at the end of the input, yields the bytes before that
   * point as one ill-formed subpart (at least one byte).
   */
  function DecodeStep(b: seq<byte>): (r: Step)
    requires b != []
    ensures 1 <= r.len <= |b| && r.len <= 4
  {
    var b0: int := b[0];
    var n := SequenceLength(b[0]);
    if n == 0 then Invalid(1)
    else if n == 1 then Scalar(b0 as char, 1)
    else if |b| < 2 || !(SecondLow(b[0]) <= b[1] <= SecondHigh(b[0])) then Invalid(1)
    else if n == 2 then
      var cp: int := (b0 - 0xC0) * 0x40 + (b[1] as int - 0x80);
      Scalar(cp as char, 2)
    else if |b| < 3 || !IsContinuation(b[2]) then Invalid(2)
    else if n == 3 then
      var cp: int := (b0 - 0xE0) * 0x1000 + (b[1] as int - 0x80) * 0x40 + (b[2] as int - 0x80);
      assert cp < 0xD800 || 0xE000 <= cp;
      Scalar(cp as char, 3)
    else if |b| < 4 || !IsContinuation(b[3]) then Invalid(3)
    else
      var cp: int := (b0 - 0xF0) * 0x40000 + (b[1] as int - 0x80) * 0x1000 + (b[2] as int - 0x80) * 0x40 + (b[3] as int - 0x80);
      Scalar(cp as char, 4)
  }

  /** The decoder's output before byte order mark handling: U+FFFD for each ill-formed subpart. */
  function DecodeReplacing(b: seq<byte>): string
    decreases |b|
  {
    if b == [] then []
    else
      match DecodeStep(b)
      case Scalar(c, n) => [c] + DecodeReplacing(b[n..])
      case Invalid(n) => "\U{FFFD}" + DecodeReplacing(b[n..])
  }

  /**
   * `new TextDecoder("utf-8", {ignoreBOM}).decode(b)`: with `ignoreBOM` false (the
   * default) a U+FEFF at the very start of the output is dropped.
   */
  function Decode(b: seq<byte>, ignoreBOM: bool): string {
    var s := DecodeReplacing(b);
    if !ignoreBOM && s != [] && s[0] == '\U{FEFF}' then s[1..] else s
  }

  lemma DecodeEncodeTwo(c: char, rest: seq<byte>)
    requires 0x80 <= c as int < 0x800
    ensures DecodeStep(EncodeChar(c) + rest) == Scalar(c, 2)
  {
    var cp := c as int;
    var b := EncodeChar(c) + rest;
    assert b[0] == 0xC0 + cp / 0x40 && b[1] == 0x80 + cp % 0x40;
    assert (b[0] as int - 0xC0) * 0x40 + (b[1] as int - 0x80) == cp;
  }

  lemma DecodeEncodeThree(c: char, rest: seq<byte>)
    requires 0x800 <= c as int < 0x10000
    ensures DecodeStep(EncodeChar(c) + rest) == Scalar(c, 3)
  {
    var cp := c as int;
    var b := EncodeChar(c) + rest;
    var q1 := cp / 0x40;
    var x, y, z := q1 / 0x40, q1 % 0x40, cp % 0x40;
    assert cp == q1 * 0x40 + z && q1 == x * 0x40 + y;
    assert b[0] == 0xE0 + x && b[1] == 0x80 + y && b[2] == 0x80 + z;
    assert cp == x * 0x1000 + y * 0x40 + z;
    assert cp < 0xD800 || 0xE000 <= cp;
    assert x == 0 ==> y >= 0x20;
    assert x == 0xD ==> y < 0x20;
  }

  lemma DecodeEncodeFour(c: char, rest: seq<byte>)
    requires 0x10000 <= c as int
    ensures DecodeStep(EncodeChar(c) + rest) == Scalar(c, 4)
  {
    var cp := c as int;
    var b := EncodeChar(c) + rest;
    var q1 := cp / 0x40;
    var q2 := q1 / 0x40;
    var w, x, y, z := q2 / 0x40, q2 % 0x40, q1 % 0x40, cp % 0x40;
    assert cp == q1 * 0x40 + z && q1 == q2 * 0x40 + y && q2 == w * 0x40 + x;
    assert b[0] == 0xF0 + w && b[1] == 0x80 + x && b[2] == 0x80 + y && b[3] == 0x80 + z;
    assert cp == w * 0x40000 + x * 0x1000 + y * 0x40 + z;
    assert w == 0 ==> x >= 0x10;
    assert w == 4 ==> x < 0x10;
  }

  /** The encoding of a code point is read back as that code point. */
  lemma DecodeEncodeChar(c: char, rest: seq<byte>)
    ensures DecodeStep(EncodeChar(c) + rest) == Scalar(c, |EncodeChar(c)|)
  {
    var cp := c as int;
    if cp < 0x80 {
    } else if cp < 0x800 {
      DecodeEncodeTwo(c, rest);
    } else if cp < 0x10000 {
      DecodeEncodeThree(c, rest);
    } else {
      DecodeEncodeFour(c, rest);
    }
  }

  lemma {:induction false} DecodeReplacingEncode(s: string)
    ensures DecodeReplacing(Encode(s)) == s
  {
    if s != [] {
      var e := EncodeChar(s[0]);
      DecodeEncodeChar(s[0], Encode(s[1..]));
      assert (e + Encode(s[1..]))[|e|..] == Encode(s[1..]);
      DecodeReplacingEncode(s[1..]);
    }
  }

  /** Decoding with `ignoreBOM` set inverts encoding for every string. */
  lemma DecodeEncode(s: string)
    ensures Decode(Encode(s), true) == s
  {
    DecodeReplacingEncode(s);
  }

  /** With the default decoder, a string is read back unless it starts with U+FEFF. */
  lemma DecodeEncodeDefault(s: string)
    ensures s != [] && s[0] == '\U{FEFF}' ==> Decode(Encode(s), false) == s[1..]
    ensures !(s != [] && s[0] == '\U{FEFF}') ==> Decode(Encode(s), false) == s
  {
    DecodeReplacingEncode(s);
  }

  /** The octets of exactly one code point, as `decodeURIComponent` demands of a multi-byte escape. */
  function DecodeExact(b: seq<byte>): (r: Option<char>)
    requires b != []
  {
    match DecodeStep(b)
    case Scalar(c, n) => if n == |b| then Some(c) else None
    case Invalid(_) => None
  }
}
