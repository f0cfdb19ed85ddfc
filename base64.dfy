/**
 * Base 64 as `btoa` and `atob` implement it: the encoding of section 4 of
 * RFC 4648 (standard alphabet, `=` padding to a multiple of four characters)
 * and the WHATWG "forgiving-base64 decode", which ignores ASCII whitespace,
 * accepts input without its padding, and fails on any other character or on
 * a length that leaves one character over. The URL-safe alphabet of section 5
 * is reached by rewriting `+` and `/` as `-` and `_`.
 */
module Base64 {
  import opened Wrappers
  import opened Octets
  import Text

  type sextet = v: int | 0 <= v < 64

  /** The character of a 6-bit value in the standard alphabet. */
  function Char(v: sextet): char {
    if v < 26 then (65 + v) as char
    else if v < 52 then (97 + v - 26) as char
    else if v < 62 then (48 + v - 52) as char
    else if v == 62 then '+'
    else '/'
  }

  predicate IsAlphabet(c: char) {
    ('A' <= c <= 'Z') || ('a' <= c <= 'z') || ('0' <= c <= '9') || c == '+' || c == '/'
  }

  function Value(c: char): (v: sextet)
    requires IsAlphabet(c)
    ensures Char(v) == c
  {
    if 'A' <= c <= 'Z' then c as int - 65
    else if 'a' <= c <= 'z' then c as int - 97 + 26
    else if '0' <= c <= '9' then c as int - 48 + 52
    else if c == '+' then 62
    else 63
  }

  lemma ValueOfChar(v: sextet)
    ensures IsAlphabet(Char(v)) && Value(Char(v)) == v
  {
  }

  /** Three bytes as four characters. */
  function EncodeGroup(b0: byte, b1: byte, b2: byte): (s: string)
    ensures |s| == 4
  {
    [Char(b0 / 4), Char(b0 % 4 * 16 + b1 / 16), Char(b1 % 16 * 4 + b2 / 64), Char(b2 % 64)]
  }

  /** The last one or two bytes as two or three characters, with zero bits filling the final character. */
  function EncodeTail(b: seq<byte>): (s: string)
    requires |b| < 3
    ensures |s| == (if |b| == 0 then 0 else |b| + 1)
  {
    if |b| == 0 then []
    else if |b| == 1 then [Char(b[0] / 4), Char(b[0] % 4 * 16)]
    else [Char(b[0] / 4), Char(b[0] % 4 * 16 + b[1] / 16), Char(b[1] % 16 * 4)]
  }

  /** The alphabet characters of `b`, three bytes to four characters. */
  function Body(b: seq<byte>): string
  {
    if |b| < 3 then EncodeTail(b) else EncodeGroup(b[0], b[1], b[2]) + Body(b[3..])
  }

  /** The `=` characters that bring the output to a multiple of four. */
  function Padding(n: nat): string {
    if n % 3 == 1 then "==" else if n % 3 == 2 then "=" else ""
  }

  /** Base 64 encoding of bytes with padding (section 4 of RFC 4648). */
  function Encode(b: seq<byte>): string {
    Body(b) + Padding(|b|)
  }

  /** `btoa(s)`: None stands for the InvalidCharacterError raised by a character above U+00FF. */
  function Btoa(s: string): (r: Option<string>)
    ensures r.Some? <==> IsBinaryString(s)
  {
    if IsBinaryString(s) then Some(Encode(FromBinaryString(s))) else None
  }

  predicate IsAsciiWhitespace(c: char) {
    c == '\t' || c == '\n' || c == '\U{000C}' || c == '\r' || c == ' '
  }

  /**
   * The infra standard's "remove all ASCII whitespace": no whitespace is
   * left, a text without whitespace is kept as it is, and the remaining
   * characters keep their order (`RemoveWhitespaceAppend`).
   */
  function RemoveWhitespace(s: string): (t: string)
    ensures forall i :: 0 <= i < |t| ==> !IsAsciiWhitespace(t[i])
    ensures (forall i :: 0 <= i < |s| ==> !IsAsciiWhitespace(s[i])) ==> t == s
  {
    if s == [] then []
    else
      assert s == [s[0]] + s[1..];
      (if IsAsciiWhitespace(s[0]) then [] else [s[0]]) + RemoveWhitespace(s[1..])
  }

  /** Removing whitespace from two texts one after the other keeps their order. */
  lemma {:induction false} RemoveWhitespaceAppend(a: string, b: string)
    ensures RemoveWhitespace(a + b) == RemoveWhitespace(a) + RemoveWhitespace(b)
  {
    if a != [] {
      assert (a + b)[1..] == a[1..] + b;
      RemoveWhitespaceAppend(a[1..], b);
    } else {
      assert a + b == b;
    }
  }

  /** One or two trailing `=` removed. */
  function StripPadding(s: string): string {
    if |s| >= 2 && s[|s| - 2..] == "==" then s[..|s| - 2]
    else if |s| >= 1 && s[|s| - 1] == '=' then s[..|s| - 1]
    else s
  }

  predicate AllAlphabet(s: string) {
    forall i :: 0 <= i < |s| ==> IsAlphabet(s[i])
  }

  /** Four characters as three bytes. */
  function DecodeGroup(s: string): (b: seq<byte>)
    requires |s| == 4 && AllAlphabet(s)
  {
    var v0, v1, v2, v3 := Value(s[0]), Value(s[1]), Value(s[2]), Value(s[3]);
    [v0 * 4 + v1 / 16, v1 % 16 * 16 + v2 / 4, v2 % 4 * 64 + v3]
  }

  /** Two or three final characters as one or two bytes; the bits left over are dropped. */
  function DecodeTail(s: string): (b: seq<byte>)
    requires |s| < 4 && |s| != 1 && AllAlphabet(s)
  {
    if |s| == 0 then []
    else if |s| == 2 then [Value(s[0]) * 4 + Value(s[1]) / 16]
    else [Value(s[0]) * 4 + Value(s[1]) / 16, Value(s[1]) % 16 * 16 + Value(s[2]) / 4]
  }

  /** The bytes of alphabet characters, four characters to three bytes. */
  function DecodeBody(s: string): (b: seq<byte>)
    requires AllAlphabet(s) && |s| % 4 != 1
  {
    if |s| < 4 then DecodeTail(s) else DecodeGroup(s[..4]) + DecodeBody(s[4..])
  }

  /** The WHATWG forgiving-base64 decode; None is its failure. */
  function ForgivingDecode(s: string): Option<seq<byte>> {
    var data := RemoveWhitespace(s);
    var data := if |data| % 4 == 0 then StripPadding(data) else data;
    if |data| % 4 == 1 || !AllAlphabet(data) then None
    else Some(DecodeBody(data))
  }

  /** `atob(s)`: None stands for the InvalidCharacterError it raises. */
  function Atob(s: string): (r: Option<string>)
    ensures r.Some? ==> IsBinaryString(r.value)
  {
    match ForgivingDecode(s)
    case None => None
    case Some(b) => Some(ToBinaryString(b))
  }

  lemma AlphabetAppend(g: string, r: string)
    requires AllAlphabet(g) && AllAlphabet(r)
    ensures AllAlphabet(g + r)
  {
  }

  lemma {:induction false} BodyAlphabet(b: seq<byte>)
    ensures AllAlphabet(Body(b))
  {
    if |b| < 3 {
      DecodeEncodeTail(b);
    } else {
      BodyAlphabet(b[3..]);
      BodyUnfold(b);
      DecodeEncodeGroup(b[0], b[1], b[2]);
      AlphabetAppend(EncodeGroup(b[0], b[1], b[2]), Body(b[3..]));
    }
  }

  lemma Split16(a: int, b: int)
    requires 0 <= a && 0 <= b < 16
    ensures (a * 16 + b) / 16 == a && (a * 16 + b) % 16 == b
  {
  }

  lemma Split4(a: int, b: int)
    requires 0 <= a && 0 <= b < 4
    ensures (a * 4 + b) / 4 == a && (a * 4 + b) % 4 == b
  {
  }

  /** The bit arithmetic of a group: the four 6-bit values put back together give the three bytes. */
  lemma GroupArithmetic(b0: byte, b1: byte, b2: byte)
    ensures var v0, v1, v2, v3 := b0 / 4, b0 % 4 * 16 + b1 / 16, b1 % 16 * 4 + b2 / 64, b2 % 64;
      v0 * 4 + v1 / 16 == b0 && v1 % 16 * 16 + v2 / 4 == b1 && v2 % 4 * 64 + v3 == b2
  {
    Split16(b0 % 4, b1 / 16);
    Split4(b1 % 16, b2 / 64);
  }

  /** Four alphabet characters decode to the bytes their values pack into. */
  lemma DecodeGroupChars(v0: sextet, v1: sextet, v2: sextet, v3: sextet)
    ensures AllAlphabet([Char(v0), Char(v1), Char(v2), Char(v3)])
    ensures DecodeGroup([Char(v0), Char(v1), Char(v2), Char(v3)]) == [v0 * 4 + v1 / 16, v1 % 16 * 16 + v2 / 4, v2 % 4 * 64 + v3]
  {
    ValueOfChar(v0);
    ValueOfChar(v1);
    ValueOfChar(v2);
    ValueOfChar(v3);
  }

  lemma DecodeEncodeGroup(b0: byte, b1: byte, b2: byte)
    ensures AllAlphabet(EncodeGroup(b0, b1, b2)) && DecodeGroup(EncodeGroup(b0, b1, b2)) == [b0, b1, b2]
  {
    DecodeGroupChars(b0 / 4, b0 % 4 * 16 + b1 / 16, b1 % 16 * 4 + b2 / 64, b2 % 64);
    GroupArithmetic(b0, b1, b2);
  }

  lemma DecodeTailChars(v0: sextet, v1: sextet, v2: sextet)
    ensures AllAlphabet([Char(v0), Char(v1)]) && DecodeTail([Char(v0), Char(v1)]) == [v0 * 4 + v1 / 16]
    ensures AllAlphabet([Char(v0), Char(v1), Char(v2)])
    ensures DecodeTail([Char(v0), Char(v1), Char(v2)]) == [v0 * 4 + v1 / 16, v1 % 16 * 16 + v2 / 4]
  {
    ValueOfChar(v0);
    ValueOfChar(v1);
    ValueOfChar(v2);
  }

  lemma DecodeEncodeTail(b: seq<byte>)
    requires |b| < 3
    ensures AllAlphabet(EncodeTail(b)) && DecodeTail(EncodeTail(b)) == b
  {
    if |b| == 1 {
      DecodeTailChars(b[0] / 4, b[0] % 4 * 16, 0);
      Split16(b[0] % 4, 0);
    } else if |b| == 2 {
      DecodeTailChars(b[0] / 4, b[0] % 4 * 16 + b[1] / 16, b[1] % 16 * 4);
      Split16(b[0] % 4, b[1] / 16);
      Split4(b[1] % 16, 0);
    }
  }

  lemma BodyUnfold(b: seq<byte>)
    requires |b| >= 3
    ensures Body(b) == EncodeGroup(b[0], b[1], b[2]) + Body(b[3..])
  {
  }

  lemma DecodeBodyAppend(g: string, rest: string)
    requires |g| == 4 && AllAlphabet(g) && AllAlphabet(rest) && |rest| % 4 != 1
    ensures AllAlphabet(g + rest) && |g + rest| % 4 != 1
    ensures DecodeBody(g + rest) == DecodeGroup(g) + DecodeBody(rest)
  {
    var s := g + rest;
    assert s[..4] == g && s[4..] == rest;
  }

  lemma {:induction false} DecodeBodyOfBody(b: seq<byte>)
    ensures AllAlphabet(Body(b)) && |Body(b)| % 4 != 1 && DecodeBody(Body(b)) == b
  {
    if |b| < 3 {
      DecodeEncodeTail(b);
      BodyLengthMod(b);
    } else {
      var r := b[3..];
      DecodeEncodeGroup(b[0], b[1], b[2]);
      DecodeBodyOfBody(r);
      BodyUnfold(b);
      DecodeBodyAppend(EncodeGroup(b[0], b[1], b[2]), Body(r));
      assert b == [b[0], b[1], b[2]] + r;
    }
  }

  lemma BodyHasNoPadding(b: seq<byte>)
    ensures forall i :: 0 <= i < |Body(b)| ==> Body(b)[i] != '='
  {
    BodyAlphabet(b);
  }

  lemma {:induction false} RemoveWhitespaceAlphabet(s: string)
    requires forall i :: 0 <= i < |s| ==> IsAlphabet(s[i]) || s[i] == '='
    ensures RemoveWhitespace(s) == s
  {
    if s != [] {
      RemoveWhitespaceAlphabet(s[1..]);
    }
  }

  /** Four characters per whole group of three bytes, and one more than the bytes left over. */
  lemma {:induction false} BodyLength(b: seq<byte>)
    ensures |Body(b)| == 4 * (|b| / 3) + (if |b| % 3 == 0 then 0 else |b| % 3 + 1)
  {
    if |b| >= 3 {
      var r := b[3..];
      BodyLength(r);
      BodyUnfold(b);
      Div3Shift(|r|);
    }
  }

  /** The length of an encoding is four characters per started group of three bytes. */
  lemma EncodeLength(b: seq<byte>)
    ensures |Encode(b)| == 4 * ((|b| + 2) / 3)
  {
    BodyLength(b);
  }

  lemma Div3Shift(n: nat)
    ensures (n + 3) / 3 == n / 3 + 1 && (n + 3) % 3 == n % 3
  {
  }

  lemma Mod4Shift(n: nat)
    ensures (n + 4) % 4 == n % 4
  {
  }

  /** An encoding is alphabet characters followed by at most two `=`. */
  lemma EncodeShape(b: seq<byte>)
    ensures Encode(b) == Body(b) + Padding(|b|)
    ensures AllAlphabet(Body(b)) && |Padding(|b|)| <= 2
    ensures forall i :: 0 <= i < |Padding(|b|)| ==> Padding(|b|)[i] == '='
  {
    BodyAlphabet(b);
  }

  lemma LengthMod(n: nat, len: nat)
    requires len == 4 * (n / 3) + (if n % 3 == 0 then 0 else n % 3 + 1)
    ensures n % 3 == 0 ==> len % 4 == 0
    ensures n % 3 == 1 ==> len % 4 == 2
    ensures n % 3 == 2 ==> len % 4 == 3
  {
    Split4(n / 3, len - 4 * (n / 3));
  }

  /** The body length modulo four follows the byte count modulo three; it is never 1. */
  lemma BodyLengthMod(b: seq<byte>)
    ensures |b| % 3 == 0 ==> |Body(b)| % 4 == 0
    ensures |b| % 3 == 1 ==> |Body(b)| % 4 == 2
    ensures |b| % 3 == 2 ==> |Body(b)| % 4 == 3
  {
    BodyLength(b);
    LengthMod(|b|, |Body(b)|);
  }

  /** Input made only of alphabet characters and `=` is decoded without any whitespace removal. */
  lemma DecodeClean(data: string, body: string)
    requires forall i :: 0 <= i < |data| ==> IsAlphabet(data[i]) || data[i] == '='
    requires (if |data| % 4 == 0 then StripPadding(data) else data) == body
    requires AllAlphabet(body) && |body| % 4 != 1
    ensures ForgivingDecode(data) == Some(DecodeBody(body))
  {
    RemoveWhitespaceAlphabet(data);
  }

  /** Stripping removes exactly the padding from alphabet characters followed by zero to two `=`. */
  lemma StripAppendedPadding(body: string, pad: string)
    requires AllAlphabet(body) && (pad == "" || pad == "=" || pad == "==")
    ensures StripPadding(body + pad) == body
  {
    var s := body + pad;
    if pad == "==" {
      assert s[|s| - 2..] == "==";
      assert s[..|s| - 2] == body;
    } else if pad == "=" {
      if |body| >= 1 {
        assert s[|s| - 2] == body[|body| - 1];
      }
      assert s[..|s| - 1] == body;
    } else {
      assert s == body;
      if |body| >= 1 {
        assert s[|s| - 1] == body[|body| - 1];
      }
    }
  }

  lemma PaddedLength(n: nat, bodyLength: nat)
    requires n % 3 == 0 ==> bodyLength % 4 == 0
    requires n % 3 == 1 ==> bodyLength % 4 == 2
    requires n % 3 == 2 ==> bodyLength % 4 == 3
    ensures (bodyLength + |Padding(n)|) % 4 == 0
  {
  }

  lemma StripEncodePadding(b: seq<byte>)
    ensures |Encode(b)| % 4 == 0
    ensures StripPadding(Encode(b)) == Body(b)
  {
    BodyAlphabet(b);
    BodyLengthMod(b);
    StripAppendedPadding(Body(b), Padding(|b|));
    PaddedLength(|b|, |Body(b)|);
  }

  /** `atob(btoa(x))` gives back the bytes: the forgiving decoder inverts the padded encoding. */
  lemma DecodeEncode(b: seq<byte>)
    ensures ForgivingDecode(Encode(b)) == Some(b)
  {
    BodyAlphabet(b);
    BodyLengthMod(b);
    StripEncodePadding(b);
    DecodeBodyOfBody(b);
    DecodeClean(Encode(b), Body(b));
  }

  /** The decoder also accepts an encoding whose padding has been removed. */
  lemma DecodeUnpadded(b: seq<byte>)
    ensures ForgivingDecode(Body(b)) == Some(b)
  {
    var body := Body(b);
    BodyAlphabet(b);
    BodyLengthMod(b);
    if |body| % 4 == 0 && |body| >= 1 {
      BodyHasNoPadding(b);
      assert body[|body| - 1] != '=';
      assert body[|body| - 2..] != "==";
    }
    DecodeBodyOfBody(b);
    DecodeClean(body, body);
  }

  lemma OnePastTwo(n: nat, m: nat)
    requires n % 4 == 2 && m == n + 1
    ensures m % 4 == 3
  {
  }

  lemma PaddedChars(body: string, pad: string)
    requires AllAlphabet(body) && (pad == "" || pad == "=" || pad == "==")
    ensures forall i :: 0 <= i < |body + pad| ==> IsAlphabet((body + pad)[i]) || (body + pad)[i] == '='
  {
  }

  /** Keeping one `=` of a two-character tail leaves text the decoder rejects. */
  lemma RejectsSinglePad(b: seq<byte>)
    requires |b| % 3 == 1
    ensures ForgivingDecode(Body(b) + "=") == None
  {
    var body := Body(b);
    var data := body + "=";
    BodyAlphabet(b);
    BodyLengthMod(b);
    OnePastTwo(|body|, |data|);
    PaddedChars(body, "=");
    RemoveWhitespaceAlphabet(data);
    assert data[|data| - 1] == '=';
  }

  /** `atob` of the encoding of a binary string gives the string back. */
  lemma AtobBtoa(s: string)
    requires IsBinaryString(s)
    ensures Atob(Btoa(s).value) == Some(s)
  {
    DecodeEncode(FromBinaryString(s));
    assert ToBinaryString(FromBinaryString(s)) == s;
  }

  /** The byte 65 (`A`) encodes as "QQ==". */
  lemma EncodeA()
    ensures Body([65]) == "QQ" && Padding(1) == "==" && Encode([65]) == "QQ=="
  {
    assert Char(16) == 'Q';
    assert EncodeTail([65]) == [Char(16), Char(16)];
  }

  /** A single `=` left after a group of two characters is not valid padding. */
  lemma ForgivingDecodeRejectsOnePad(one: string, two: string)
    requires one == "QQ=" && two == "QQ=="
    ensures ForgivingDecode(one) == None
    ensures ForgivingDecode(two) == Some([65])
  {
    EncodeA();
    assert one == Body([65]) + "=";
    RejectsSinglePad([65]);
    DecodeEncode([65]);
  }

  /** `s.replaceAll("+", "-").replaceAll("/", "_")`: the URL-safe alphabet of section 5 of RFC 4648. */
  function ToUrlSafe(s: string): string {
    Text.MapChar(Text.MapChar(s, '+', "-"), '/', "_")
  }

  /** `s.replaceAll("-", "+").replaceAll("_", "/")`. */
  function FromUrlSafe(s: string): string {
    Text.MapChar(Text.MapChar(s, '-', "+"), '_', "/")
  }

  /** Going to the URL-safe alphabet and back is the identity on strings without `-` and `_`. */
  lemma {:induction false} UrlSafeRoundTrip(s: string)
    requires forall i :: 0 <= i < |s| ==> s[i] != '-' && s[i] != '_'
    ensures FromUrlSafe(ToUrlSafe(s)) == s
  {
    if s != [] {
      UrlSafeRoundTrip(s[1..]);
      var c := s[0];
      var m1 := Text.MapChar(s, '+', "-");
      var m2 := Text.MapChar(m1, '/', "_");
      var n1 := Text.MapChar(m2, '-', "+");
      assert m1 == (if c == '+' then "-" else [c]) + Text.MapChar(s[1..], '+', "-");
      assert m1[1..] == Text.MapChar(s[1..], '+', "-");
      assert m2 == [m2[0]] + Text.MapChar(m1[1..], '/', "_");
      assert n1 == [n1[0]] + Text.MapChar(m2[1..], '-', "+");
      assert [s[0]] + s[1..] == s;
    }
  }

  predicate IsUrlSafeAlphabet(c: char) {
    ('A' <= c <= 'Z') || ('a' <= c <= 'z') || ('0' <= c <= '9') || c == '-' || c == '_'
  }

  /** The URL-safe rewriting of an encoding holds only URL-safe alphabet characters and `=`. */
  lemma {:induction false} UrlSafeAlphabet(s: string)
    requires forall i :: 0 <= i < |s| ==> IsAlphabet(s[i]) || s[i] == '='
    ensures |ToUrlSafe(s)| == |s|
    ensures forall i :: 0 <= i < |s| ==> IsUrlSafeAlphabet(ToUrlSafe(s)[i]) || (ToUrlSafe(s)[i] == '=' && s[i] == '=')
  {
    if s != [] {
      UrlSafeAlphabet(s[1..]);
      var m1 := Text.MapChar(s, '+', "-");
      assert m1[1..] == Text.MapChar(s[1..], '+', "-");
      var m2 := ToUrlSafe(s);
      assert m2 == [m2[0]] + ToUrlSafe(s[1..]);
    }
  }
}
