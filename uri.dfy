/**
 * `encodeURIComponent` and `decodeURIComponent` (section 19.2.6 of ECMA-262):
 * percent-encoding of the UTF-8 bytes of every character outside the
 * unreserved set (RFC 3986 section 2.1), and the strict inverse, which raises
 * a URIError for a malformed escape or for escapes whose octets are not the
 * UTF-8 encoding of one code point.
 */
module Uri {
  import opened Wrappers
  import opened Octets
  import Utf8
  import Text

  /** Letters, digits and `-_.!~*'()`: the characters `encodeURIComponent` leaves as they are. */
  predicate IsUnreserved(c: char) {
    ('A' <= c <= 'Z') || ('a' <= c <= 'z') || ('0' <= c <= '9')
    || c == '-' || c == '_' || c == '.' || c == '!' || c == '~' || c == '*' || c == '\'' || c == '(' || c == ')'
  }

  predicate IsHexDigit(c: char) {
    ('0' <= c <= '9') || ('A' <= c <= 'F') || ('a' <= c <= 'f')
  }

  function HexValue(c: char): (v: int)
    requires IsHexDigit(c)
    ensures 0 <= v < 16
  {
    if '0' <= c <= '9' then c as int - 48
    else if 'A' <= c <= 'F' then c as int - 55
    else c as int - 87
  }

  /** `%XY` with two upper-case hexadecimal digits. */
  function EscapeByte(b: byte): (s: string)
    ensures |s| == 3
  {
    ['%', Text.HexDigitUpper(b / 16), Text.HexDigitUpper(b % 16)]
  }

  function EscapeBytes(bs: seq<byte>): (s: string)
    ensures |s| == 3 * |bs|
  {
    if bs == [] then [] else EscapeByte(bs[0]) + EscapeBytes(bs[1..])
  }

  function EncodeChar(c: char): string {
    if IsUnreserved(c) then [c] else EscapeBytes(Utf8.EncodeChar(c))
  }

  /** `encodeURIComponent(s)`; a string of Unicode scalar values never raises. */
  function Encode(s: string): string {
    if s == [] then [] else EncodeChar(s[0]) + Encode(s[1..])
  }

  /** The number of leading one bits of a byte, which gives the length of its UTF-8 sequence. */
  function LeadingOnes(b: byte): nat {
    if b < 0x80 then 0 else if b < 0xC0 then 1 else if b < 0xE0 then 2
    else if b < 0xF0 then 3 else if b < 0xF8 then 4 else 5
  }

  /** The byte of a `%XY` escape at the front of `s`, if there is one. */
  function ParseEscape(s: string): Option<byte> {
    if |s| >= 3 && s[0] == '%' && IsHexDigit(s[1]) && IsHexDigit(s[2]) then
      Some(HexValue(s[1]) * 16 + HexValue(s[2]))
    else
      None
  }

  /** `count` consecutive escapes at the front of `s`. */
  function ParseEscapes(s: string, count: nat): (r: Option<seq<byte>>)
    ensures r.Some? ==> |r.value| == count && |s| >= 3 * count
  {
    if count == 0 then Some([])
    else
      match ParseEscape(s)
      case None => None
      case Some(b) =>
        match ParseEscapes(s[3..], count - 1)
        case None => None
        case Some(bs) => Some([b] + bs)
  }

  /** `decodeURIComponent(s)`; None stands for the URIError it raises. */
  function Decode(s: string): Option<string>
    decreases |s|
  {
    if s == [] then Some([])
    else if s[0] != '%' then
      match Decode(s[1..])
      case None => None
      case Some(t) => Some([s[0]] + t)
    else
      match ParseEscape(s)
      case None => None
      case Some(b) =>
        var n := LeadingOnes(b);
        if n == 0 then
          match Decode(s[3..])
          case None => None
          case Some(t) => Some([b as char] + t)
        else if n == 1 || n > 4 then None
        else
          match ParseEscapes(s, n)
          case None => None
          case Some(octets) =>
            match Utf8.DecodeExact(octets)
            case None => None
            case Some(c) =>
              match Decode(s[3 * n..])
              case None => None
              case Some(t) => Some([c] + t)
  }

  lemma ParseEscapeByte(b: byte, rest: string)
    ensures ParseEscape(EscapeByte(b) + rest) == Some(b)
  {
    var e := EscapeByte(b) + rest;
    assert e[0] == '%' && e[1] == Text.HexDigitUpper(b / 16) && e[2] == Text.HexDigitUpper(b % 16);
    assert HexValue(e[1]) == b / 16 && HexValue(e[2]) == b % 16;
  }

  lemma {:induction false} ParseEscapesBytes(bs: seq<byte>, rest: string)
    ensures ParseEscapes(EscapeBytes(bs) + rest, |bs|) == Some(bs)
  {
    if bs != [] {
      var t := EscapeBytes(bs[1..]) + rest;
      var s := EscapeBytes(bs) + rest;
      EscapeBytesCons(bs, rest);
      ParseEscapeByte(bs[0], t);
      ParseEscapesBytes(bs[1..], rest);
      ParseEscapesCons(s, |bs|, bs[0], bs[1..]);
      assert [bs[0]] + bs[1..] == bs;
    }
  }

  lemma EscapeBytesCons(bs: seq<byte>, rest: string)
    requires bs != []
    ensures EscapeBytes(bs) + rest == EscapeByte(bs[0]) + (EscapeBytes(bs[1..]) + rest)
    ensures (EscapeBytes(bs) + rest)[3..] == EscapeBytes(bs[1..]) + rest
  {
  }

  lemma ParseEscapesCons(s: string, count: nat, b: byte, bs: seq<byte>)
    requires count > 0 && |s| >= 3 && ParseEscape(s) == Some(b) && ParseEscapes(s[3..], count - 1) == Some(bs)
    ensures ParseEscapes(s, count) == Some([b] + bs)
  {
  }

  /** The leading byte of a multi-byte encoding announces its length. */
  lemma LeadingOnesOfEncoding(c: char)
    ensures LeadingOnes(Utf8.EncodeChar(c)[0]) == if (c as int) < 0x80 then 0 else |Utf8.EncodeChar(c)|
  {
  }

  lemma DecodeEncodeChar(c: char, rest: string)
    ensures Decode(EncodeChar(c) + rest) == (match Decode(rest) case None => None case Some(t) => Some([c] + t))
  {
    var e := EncodeChar(c) + rest;
    if IsUnreserved(c) {
      assert e[0] == c && e[1..] == rest;
    } else {
      var bs := Utf8.EncodeChar(c);
      assert e == EscapeByte(bs[0]) + (EscapeBytes(bs[1..]) + rest);
      ParseEscapeByte(bs[0], EscapeBytes(bs[1..]) + rest);
      LeadingOnesOfEncoding(c);
      if (c as int) < 0x80 {
        assert e[3..] == rest;
      } else {
        ParseEscapesBytes(bs, rest);
        Utf8.DecodeEncodeChar(c, []);
        assert bs + [] == bs;
        assert e[3 * |bs|..] == rest;
      }
    }
  }

  /** `decodeURIComponent(encodeURIComponent(s)) == s` for every string. */
  lemma {:induction false} DecodeEncode(s: string)
    ensures Decode(Encode(s)) == Some(s)
  {
    if s != [] {
      DecodeEncode(s[1..]);
      DecodeEncodeChar(s[0], Encode(s[1..]));
      assert [s[0]] + s[1..] == s;
    }
  }

  /** Text made of unreserved characters is its own encoding. */
  lemma {:induction false} EncodeUnreserved(s: string)
    requires forall i :: 0 <= i < |s| ==> IsUnreserved(s[i])
    ensures Encode(s) == s
  {
    if s != [] {
      EncodeUnreserved(s[1..]);
      assert [s[0]] + s[1..] == s;
    }
  }

  /** The characters `encodeURIComponent` can produce. */
  predicate IsEncodedChar(c: char) {
    IsUnreserved(c) || c == '%' || ('0' <= c <= '9') || ('A' <= c <= 'F')
  }

  lemma {:induction false} EscapeBytesAlphabet(bs: seq<byte>)
    ensures forall i :: 0 <= i < |EscapeBytes(bs)| ==> IsEncodedChar(EscapeBytes(bs)[i])
  {
    if bs != [] {
      EscapeBytesAlphabet(bs[1..]);
      var e := EscapeBytes(bs);
      assert forall i :: 3 <= i < |e| ==> e[i] == EscapeBytes(bs[1..])[i - 3];
    }
  }

  /** `encodeURIComponent` output consists only of unreserved characters, `%` and upper-case hexadecimal digits. */
  lemma {:induction false} EncodeAlphabet(s: string)
    ensures forall i :: 0 <= i < |Encode(s)| ==> IsEncodedChar(Encode(s)[i])
  {
    if s != [] {
      EncodeAlphabet(s[1..]);
      EscapeBytesAlphabet(Utf8.EncodeChar(s[0]));
      assert forall i :: 0 <= i < |EncodeChar(s[0])| ==> IsEncodedChar(EncodeChar(s[0])[i]);
      EncodedAppend(EncodeChar(s[0]), Encode(s[1..]));
    }
  }

  lemma EncodedAppend(a: string, b: string)
    requires forall i :: 0 <= i < |a| ==> IsEncodedChar(a[i])
    requires forall i :: 0 <= i < |b| ==> IsEncodedChar(b[i])
    ensures forall i :: 0 <= i < |a + b| ==> IsEncodedChar((a + b)[i])
  {
  }
}
