/**
 * The byte-array helpers of the bytes field: `uint8ArrayToBase64`, which
 * gathers the bytes into a binary string, runs `btoa` and, for URLs, moves to
 * the URL-safe alphabet and drops the padding; and `base64ToUint8Array`, which
 * undoes the alphabet change and runs `atob`.
 */
module Base64Util {
  import opened Wrappers
  import opened Octets
  import Text
  import Base64

  /**
   * The text `uint8ArrayToBase64` is meant to produce: the padded encoding, or
   * for URLs its URL-safe form with every `=` removed.
   */
  function ToBase64(b: seq<byte>, urlSafe: bool): string {
    var encoded := Base64.Encode(b);
    if urlSafe then Text.ReplaceAll(Base64.ToUrlSafe(encoded), "=", "") else encoded
  }

  /** The same text with only the first `=` removed, as the URL-safe branch is written. */
  function ToBase64AsWritten(b: seq<byte>, urlSafe: bool): string {
    var encoded := Base64.Encode(b);
    if urlSafe then Text.ReplaceFirst(Base64.ToUrlSafe(encoded), "=", "") else encoded
  }

  /** `uint8ArrayToBase64(bytes, urlSafe)`: one character per byte, then `btoa`, then the URL-safe rewriting. */
  method Uint8ArrayToBase64(bytes: seq<byte>, urlSafe: bool) returns (r: string)
    ensures r == ToBase64(bytes, urlSafe)
  {
    var letters := "";
    for i := 0 to |bytes|
      invariant letters == ToBinaryString(bytes[..i])
    {
      letters := letters + [bytes[i] as char];
    }
    assert bytes[..|bytes|] == bytes;
    BinaryStringRoundTrip(bytes);
    var encoded := Base64.Btoa(letters).value;
    r := if urlSafe then Text.ReplaceAll(Base64.ToUrlSafe(encoded), "=", "") else encoded;
  }

  /** `base64ToUint8Array(text, urlSafe)`; None stands for the error `atob` raises. */
  function Base64ToUint8Array(text: string, urlSafe: bool): Option<seq<byte>> {
    var text := if urlSafe then Base64.FromUrlSafe(text) else text;
    match Base64.Atob(text)
    case None => None
    case Some(binary) => Some(FromBinaryString(binary))
  }

  lemma ToUrlSafeConcat(x: string, y: string)
    ensures Base64.ToUrlSafe(x + y) == Base64.ToUrlSafe(x) + Base64.ToUrlSafe(y)
  {
    Text.MapCharConcat(x, y, '+', "-");
    Text.MapCharConcat(Text.MapChar(x, '+', "-"), Text.MapChar(y, '+', "-"), '/', "_");
  }

  lemma FromUrlSafeConcat(x: string, y: string)
    ensures Base64.FromUrlSafe(x + y) == Base64.FromUrlSafe(x) + Base64.FromUrlSafe(y)
  {
    Text.MapCharConcat(x, y, '-', "+");
    Text.MapCharConcat(Text.MapChar(x, '-', "+"), Text.MapChar(y, '-', "+"), '_', "/");
  }

  /** What the rewritings do to the padding. */
  lemma PaddingRewrites(n: nat)
    ensures Base64.ToUrlSafe(Base64.Padding(n)) == Base64.Padding(n)
    ensures Text.MapChar(Base64.Padding(n), '=', "") == ""
    ensures Text.ReplaceFirst(Base64.Padding(n), "=", "") == (if n % 3 == 1 then "=" else "")
  {
    if n % 3 == 1 {
      assert Base64.Padding(n) == "==";
      assert Text.StartsWith("==", "=");
      assert "=="[1..] == "=";
    } else if n % 3 == 2 {
      assert Base64.Padding(n) == "=";
      assert Text.StartsWith("=", "=");
    } else {
      assert Base64.Padding(n) == "";
    }
  }

  /** The URL-safe form of the body, followed by the padding. */
  lemma UrlSafeEncoding(b: seq<byte>)
    ensures Base64.ToUrlSafe(Base64.Encode(b)) == Base64.ToUrlSafe(Base64.Body(b)) + Base64.Padding(|b|)
  {
    ToUrlSafeConcat(Base64.Body(b), Base64.Padding(|b|));
    PaddingRewrites(|b|);
  }

  /** The URL-safe body holds only URL-safe characters and converts back to the body. */
  lemma UrlSafeBody(b: seq<byte>)
    ensures forall i :: 0 <= i < |Base64.ToUrlSafe(Base64.Body(b))| ==> Base64.IsUrlSafeAlphabet(Base64.ToUrlSafe(Base64.Body(b))[i])
    ensures Base64.FromUrlSafe(Base64.ToUrlSafe(Base64.Body(b))) == Base64.Body(b)
  {
    var body := Base64.Body(b);
    Base64.BodyAlphabet(b);
    Base64.UrlSafeAlphabet(body);
    Base64.UrlSafeRoundTrip(body);
  }

  /** For URLs the corrected helper yields exactly the URL-safe body, with no padding at all. */
  lemma ToBase64UrlSafe(b: seq<byte>)
    ensures ToBase64(b, true) == Base64.ToUrlSafe(Base64.Body(b))
  {
    var u := Base64.ToUrlSafe(Base64.Body(b));
    var pad := Base64.Padding(|b|);
    UrlSafeEncoding(b);
    UrlSafeBody(b);
    PaddingRewrites(|b|);
    Text.ReplaceAllOneChar(u + pad, '=', "");
    Text.MapCharConcat(u, pad, '=', "");
    Text.MapCharAbsent(u, '=', "");
    assert u + "" == u;
  }

  /** As written, the URL form keeps one `=` exactly when the byte count leaves one byte over a multiple of three. */
  lemma ToBase64AsWrittenUrlSafe(b: seq<byte>)
    ensures ToBase64AsWritten(b, true) == Base64.ToUrlSafe(Base64.Body(b)) + (if |b| % 3 == 1 then "=" else "")
  {
    var u := Base64.ToUrlSafe(Base64.Body(b));
    var pad := Base64.Padding(|b|);
    UrlSafeEncoding(b);
    UrlSafeBody(b);
    PaddingRewrites(|b|);
    Text.ReplaceFirstOtherPrefix(u, pad, '=', "");
  }

  /** Decoding with `atob` and reading the character codes gives the bytes back. */
  lemma ReadBack(text: string, b: seq<byte>)
    requires Base64.ForgivingDecode(text) == Some(b)
    ensures Base64ToUint8Array(text, false) == Some(b)
  {
    BinaryStringRoundTrip(b);
  }

  /** Bytes written with `uint8ArrayToBase64` are read back by `base64ToUint8Array`, in both alphabets. */
  lemma RoundTrip(b: seq<byte>, urlSafe: bool)
    ensures Base64ToUint8Array(ToBase64(b, urlSafe), urlSafe) == Some(b)
  {
    if urlSafe {
      ToBase64UrlSafe(b);
      UrlSafeBody(b);
      Base64.DecodeUnpadded(b);
      ReadBack(Base64.Body(b), b);
    } else {
      Base64.DecodeEncode(b);
      ReadBack(Base64.Encode(b), b);
    }
  }

  /** The URL-safe text of the corrected helper has no `+`, `/` or `=`. */
  lemma ToBase64UrlAlphabet(b: seq<byte>)
    ensures forall i :: 0 <= i < |ToBase64(b, true)| ==> Base64.IsUrlSafeAlphabet(ToBase64(b, true)[i])
  {
    ToBase64UrlSafe(b);
    UrlSafeBody(b);
  }

  /** The URL form as written is read back exactly when the byte count is not one more than a multiple of three. */
  lemma AsWrittenRoundTrip(b: seq<byte>)
    ensures |b| % 3 != 1 ==> Base64ToUint8Array(ToBase64AsWritten(b, true), true) == Some(b)
    ensures |b| % 3 == 1 ==> Base64ToUint8Array(ToBase64AsWritten(b, true), true) == None
  {
    ToBase64AsWrittenUrlSafe(b);
    UrlSafeBody(b);
    var u := Base64.ToUrlSafe(Base64.Body(b));
    if |b| % 3 == 1 {
      FromUrlSafeConcat(u, "=");
      assert Base64.FromUrlSafe("=") == "=";
      Base64.RejectsSinglePad(b);
    } else {
      assert u + "" == u;
      Base64.DecodeUnpadded(b);
      ReadBack(Base64.Body(b), b);
    }
  }

  /** The URL-safe rewriting leaves "QQ" alone. */
  lemma UrlSafeQQ()
    ensures Base64.ToUrlSafe("QQ") == "QQ"
  {
    Text.MapCharAbsent("QQ", '+', "-");
    Text.MapCharAbsent("QQ", '/', "_");
  }

  /** A single byte is the smallest input the URL form as written cannot read back: `[65]` becomes "QQ=". */
  lemma AsWrittenCounterexample(b: seq<byte>)
    requires b == [65]
    ensures ToBase64AsWritten(b, true) == "QQ="
    ensures Base64ToUint8Array(ToBase64AsWritten(b, true), true) == None
    ensures ToBase64(b, true) == "QQ"
  {
    Base64.EncodeA();
    UrlSafeQQ();
    AsWrittenRoundTrip(b);
    ToBase64AsWrittenUrlSafe(b);
    ToBase64UrlSafe(b);
  }
}
