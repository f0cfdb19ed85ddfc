/**
 * The value codec of base64-string fields (letter `z`): the UTF-8 bytes of the
 * string in the URL-safe base 64 alphabet without padding; decoding puts the
 * padding back from the length, converts the alphabet back, runs `atob` and a
 * default `TextDecoder`.
 */
module Base64StringCodec {
  import opened Wrappers
  import opened Octets
  import Text
  import Utf8
  import Base64
  import Base64Util

  /** `_encodeValue`: TextEncoder, one character per byte, `btoa`, URL-safe alphabet, every `=` removed. */
  function Encode(value: string): string {
    var binary := ToBinaryString(Utf8.Encode(value));
    var encoded := Base64.Encode(FromBinaryString(binary));
    Text.ReplaceAll(Base64.ToUrlSafe(encoded), "=", "")
  }

  /** `"=".repeat(n)`. */
  function Repeat(n: nat): (s: string)
    ensures |s| == n
    ensures forall i :: 0 <= i < n ==> s[i] == '='
  {
    if n == 0 then "" else "=" + Repeat(n - 1)
  }

  /** `(-L + 4 * L) % 4` for the UTF-16 length `L` of the text. */
  function PaddingCount(value: string): nat {
    (3 * Text.Utf16Length(value)) % 4
  }

  /** The text `atob` receives: the standard alphabet back and the padding restored. */
  function Padded(value: string): string {
    Base64.FromUrlSafe(value) + Repeat(PaddingCount(value))
  }

  /** The bytes of the text; None stands for the error `atob` raises. */
  function DecodeBytes(value: string): Option<seq<byte>> {
    match Base64.Atob(Padded(value))
    case None => None
    case Some(binary) => Some(FromBinaryString(binary))
  }

  /** `_decodeValue` as written: the default `TextDecoder` drops a leading U+FEFF. */
  function DecodeAsWritten(value: string): Option<string> {
    match DecodeBytes(value)
    case None => None
    case Some(bytes) => Some(Utf8.Decode(bytes, false))
  }

  /** The decoding that undoes `Encode`: a `TextDecoder` with `ignoreBOM` set. */
  function Decode(value: string): Option<string> {
    match DecodeBytes(value)
    case None => None
    case Some(bytes) => Some(Utf8.Decode(bytes, true))
  }

  /** The restored padding brings every length that can occur to a multiple of four. */
  lemma PaddingCountRestores(value: string)
    ensures Text.Utf16Length(value) % 4 == 0 ==> PaddingCount(value) == 0
    ensures Text.Utf16Length(value) % 4 == 2 ==> PaddingCount(value) == 2
    ensures Text.Utf16Length(value) % 4 == 3 ==> PaddingCount(value) == 1
  {
  }

  lemma {:induction false} Utf16LengthAscii(s: string)
    requires forall i :: 0 <= i < |s| ==> (s[i] as int) < 0x80
    ensures Text.Utf16Length(s) == |s|
  {
    if s != [] {
      Utf16LengthAscii(s[1..]);
    }
  }

  /** The encoding is the URL-safe, unpadded base 64 text of the UTF-8 bytes. */
  lemma EncodeIsUrlSafeBody(value: string)
    ensures Encode(value) == Base64.ToUrlSafe(Base64.Body(Utf8.Encode(value)))
  {
    BinaryStringRoundTrip(Utf8.Encode(value));
    Base64Util.ToBase64UrlSafe(Utf8.Encode(value));
  }

  /** Encoded text holds only letters, digits, `-` and `_`: never a delimiter, never padding. */
  lemma EncodeAlphabet(value: string)
    ensures forall i :: 0 <= i < |Encode(value)| ==> Base64.IsUrlSafeAlphabet(Encode(value)[i])
  {
    EncodeIsUrlSafeBody(value);
    Base64Util.UrlSafeBody(Utf8.Encode(value));
  }

  lemma PaddingMatches(b: seq<byte>, e: string)
    requires e == Base64.ToUrlSafe(Base64.Body(b))
    ensures Padded(e) == Base64.Encode(b)
  {
    var body := Base64.Body(b);
    Base64Util.UrlSafeBody(b);
    Base64.BodyAlphabet(b);
    Base64.UrlSafeAlphabet(body);
    Utf16LengthAscii(e);
    Base64.BodyLengthMod(b);
    PaddingCountRestores(e);
    assert Repeat(PaddingCount(e)) == Base64.Padding(|b|) by {
      if |b| % 3 == 1 {
        assert Repeat(2) == "==";
      } else if |b| % 3 == 2 {
        assert Repeat(1) == "=";
      }
    }
  }

  /** The bytes come back from the text. */
  lemma DecodeBytesEncode(value: string)
    ensures DecodeBytes(Encode(value)) == Some(Utf8.Encode(value))
  {
    var b := Utf8.Encode(value);
    EncodeIsUrlSafeBody(value);
    PaddingMatches(b, Encode(value));
    Base64.DecodeEncode(b);
    BinaryStringRoundTrip(b);
  }

  /** Every string is read back from its encoding. */
  lemma DecodeEncode(value: string)
    ensures Decode(Encode(value)) == Some(value)
  {
    DecodeBytesEncode(value);
    Utf8.DecodeEncode(value);
  }

  /** As written, a string is read back unless it starts with U+FEFF, which is lost. */
  lemma DecodeAsWrittenEncode(value: string)
    ensures value != [] && value[0] == '\U{FEFF}' ==> DecodeAsWritten(Encode(value)) == Some(value[1..])
    ensures !(value != [] && value[0] == '\U{FEFF}') ==> DecodeAsWritten(Encode(value)) == Some(value)
  {
    DecodeBytesEncode(value);
    Utf8.DecodeEncodeDefault(value);
  }

  /** The one-character string U+FEFF comes back as the empty string as written. */
  lemma AsWrittenCounterexample()
    ensures DecodeAsWritten(Encode("\U{FEFF}")) == Some("")
    ensures Decode(Encode("\U{FEFF}")) == Some("\U{FEFF}")
  {
    DecodeAsWrittenEncode("\U{FEFF}");
    DecodeEncode("\U{FEFF}");
  }
}
