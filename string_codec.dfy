/**
 * The value codec of string fields (letter `s`). A value travels as its
 * `encodeURIComponent` form in which `*` is written `*2A` and the delimiter
 * `d` is written `*` followed by its character code in two or more upper-case
 * hexadecimal digits, so that an encoded value never holds a delimiter that
 * would end its token early.
 */
module StringCodec {
  import opened Wrappers
  import Text
  import Uri

  /** The escape that stands for the delimiter: `*` and its hexadecimal character code. */
  function EncodedDelimiter(d: string): string {
    "*" + Text.DelimiterCode(d)
  }

  /**
   * `_encodeValue` as written: an empty value gives `undefined` (None here),
   * anything else the escaped `encodeURIComponent` text.
   */
  function EncodeAsWritten(value: string, d: string): (r: Option<string>)
    ensures value == "" <==> r.None?
  {
    if value == "" then None
    else Some(Text.ReplaceAll(Text.ReplaceAll(Uri.Encode(value), "*", "*2A"), d, EncodedDelimiter(d)))
  }

  /** The encoding with the empty value written as the empty text. */
  function Encode(value: string, d: string): string {
    Text.ReplaceAll(Text.ReplaceAll(Uri.Encode(value), "*", "*2A"), d, EncodedDelimiter(d))
  }

  /**
   * `_decodeValue` as written: it searches for the bare hexadecimal code, without
   * the `*`, and restores the delimiter there. None stands for the URIError of
   * `decodeURIComponent`.
   */
  function DecodeAsWritten(value: string, d: string): Option<string> {
    Uri.Decode(Text.ReplaceAll(Text.ReplaceAll(value, Text.DelimiterCode(d), d), "*2A", "*"))
  }

  /** The decoding that undoes `Encode`: the whole `*XX` escape gives the delimiter back. */
  function Decode(value: string, d: string): Option<string> {
    Uri.Decode(Text.ReplaceAll(Text.ReplaceAll(value, EncodedDelimiter(d), d), "*2A", "*"))
  }

  /** How JavaScript renders an `undefined` operand of string concatenation. */
  function Concatenated(o: Option<string>): string {
    match o
    case None => "undefined"
    case Some(s) => s
  }

  /**
   * A delimiter the codec can carry: one character, none of the characters of
   * the `*2A` escape, and a code whose digits do not start with `2A` (so that
   * no `*2A` escape is taken for a delimiter escape). `!`, `?` and `&` qualify.
   */
  predicate SafeDelimiter(d: string) {
    |d| == 1 && d[0] != '*' && d[0] != '2' && d[0] != 'A' && !Text.StartsWith(Text.DelimiterCode(d), "2A")
  }

  /** The default delimiter, the one a field built without options gets, and `&` are safe. */
  lemma CommonDelimitersSafe()
    ensures SafeDelimiter("!") && SafeDelimiter("?") && SafeDelimiter("&")
  {
    Text.DelimiterCodeExamples();
    assert Text.DelimiterCode("?") == "3F";
    assert "21"[..2] == "21" && "3F"[..2] == "3F" && "26"[..2] == "26";
  }

  /** The escaping character by character: `*` becomes `*2A`, the delimiter `*` and its code. */
  function Escape(u: string, dc: char, h: string): string {
    if u == [] then []
    else (if u[0] == '*' then "*2A" else if u[0] == dc then "*" + h else [u[0]]) + Escape(u[1..], dc, h)
  }

  lemma {:induction false} EscapeIsTwoRewrites(u: string, dc: char, h: string)
    requires dc != '*' && dc != '2' && dc != 'A'
    ensures Text.MapChar(Text.MapChar(u, '*', "*2A"), dc, "*" + h) == Escape(u, dc, h)
  {
    if u != [] {
      var first := if u[0] == '*' then "*2A" else [u[0]];
      assert Text.MapChar(u, '*', "*2A") == first + Text.MapChar(u[1..], '*', "*2A");
      Text.MapCharConcat(first, Text.MapChar(u[1..], '*', "*2A"), dc, "*" + h);
      EscapeIsTwoRewrites(u[1..], dc, h);
      if u[0] == '*' {
        Text.MapCharAbsent("*2A", dc, "*" + h);
      }
    }
  }

  /** For a safe delimiter the encoding is the character-by-character escaping of `encodeURIComponent`. */
  lemma EncodeIsEscape(value: string, d: string)
    requires SafeDelimiter(d)
    ensures Encode(value, d) == Escape(Uri.Encode(value), d[0], Text.DelimiterCode(d))
  {
    var u := Uri.Encode(value);
    Text.ReplaceAllOneChar(u, '*', "*2A");
    assert d == [d[0]];
    Text.ReplaceAllOneChar(Text.MapChar(u, '*', "*2A"), d[0], EncodedDelimiter(d));
    EscapeIsTwoRewrites(u, d[0], Text.DelimiterCode(d));
  }

  /** `u` with every `*` written as `*2A`. */
  function StarEscape(u: string): string {
    Text.MapChar(u, '*', "*2A")
  }

  lemma StarTwoANotEscape(s: string, h: string)
    requires |h| >= 2 && h[..2] != "2A" && |s| >= 3 && s[..3] == "*2A"
    ensures !Text.StartsWith(s, "*" + h)
  {
    var p := "*" + h;
    assert p[1..3] == h[..2];
    assert s[1..3] == s[..3][1..3];
    if |p| <= |s| {
      assert s[..|p|][1..3] == s[1..3];
    }
  }

  /** A `*2A` escape is never the start of a delimiter escape. */
  lemma StarEscapeIsNotDelimiter(rest: string, d: string)
    requires SafeDelimiter(d)
    ensures Text.ReplaceAll("*2A" + rest, EncodedDelimiter(d), d) == "*2A" + Text.ReplaceAll(rest, EncodedDelimiter(d), d)
  {
    var p := EncodedDelimiter(d);
    var h := Text.DelimiterCode(d);
    var s := "*2A" + rest;
    assert |h| >= 2 && h[..2] != "2A";
    assert s[..3] == "*2A";
    StarTwoANotEscape(s, h);
    Text.ReplaceAllSkip(s, p, d);
    assert s[0] == '*' && s[1..] == "2A" + rest && p[0] == '*';
    Text.ReplaceAllOtherPrefix("2A", rest, p, d);
    assert "*2A" + Text.ReplaceAll(rest, p, d) == [s[0]] + ("2A" + Text.ReplaceAll(rest, p, d));
  }

  /** Restoring the delimiter escapes leaves the `*`-escaped text. */
  lemma {:induction false} RestoreDelimiter(u: string, d: string)
    requires SafeDelimiter(d)
    ensures Text.ReplaceAll(Escape(u, d[0], Text.DelimiterCode(d)), EncodedDelimiter(d), d) == StarEscape(u)
  {
    if u != [] {
      var h := Text.DelimiterCode(d);
      var p := EncodedDelimiter(d);
      var tail := Escape(u[1..], d[0], h);
      RestoreDelimiter(u[1..], d);
      if u[0] == '*' {
        StarEscapeIsNotDelimiter(tail, d);
      } else if u[0] == d[0] {
        Text.ReplaceAllHit(tail, p, d);
        assert d == [u[0]];
      } else {
        Text.ReplaceAllOther(u[0], tail, p, d);
      }
    }
  }

  /** Writing every `*2A` back as `*` undoes the `*`-escaping. */
  lemma {:induction false} RestoreStar(u: string)
    ensures Text.ReplaceAll(StarEscape(u), "*2A", "*") == u
  {
    if u != [] {
      RestoreStar(u[1..]);
      if u[0] == '*' {
        Text.ReplaceAllHit(StarEscape(u[1..]), "*2A", "*");
      } else {
        Text.ReplaceAllOther(u[0], StarEscape(u[1..]), "*2A", "*");
      }
      assert [u[0]] + u[1..] == u;
    }
  }

  /** A string value read back from its encoding is the value itself, for every safe delimiter. */
  lemma DecodeEncode(value: string, d: string)
    requires SafeDelimiter(d)
    ensures Decode(Encode(value, d), d) == Some(value)
  {
    var u := Uri.Encode(value);
    EncodeIsEscape(value, d);
    RestoreDelimiter(u, d);
    RestoreStar(u);
    Uri.DecodeEncode(value);
  }

  lemma {:induction false} EscapeAvoids(u: string, dc: char, h: string)
    requires dc != '*' && dc != '2' && dc != 'A'
    requires forall i :: 0 <= i < |h| ==> h[i] != dc
    ensures forall i :: 0 <= i < |Escape(u, dc, h)| ==> Escape(u, dc, h)[i] != dc
  {
    if u != [] {
      EscapeAvoids(u[1..], dc, h);
      var first := if u[0] == '*' then "*2A" else if u[0] == dc then "*" + h else [u[0]];
      var e := Escape(u, dc, h);
      assert forall i :: |first| <= i < |e| ==> e[i] == Escape(u[1..], dc, h)[i - |first|];
    }
  }

  /** The code of a letter `B` to `F` is "42" to "46", which does not hold the letter. */
  lemma HexLetterCodeAvoids(d: string)
    requires |d| == 1 && 'B' <= d[0] <= 'F'
    ensures forall i :: 0 <= i < |Text.DelimiterCode(d)| ==> Text.DelimiterCode(d)[i] != d[0]
  {
    var n := d[0] as int;
    assert Text.CharCodeAt0(d) == n;
    assert Text.HexUpper(n) == [Text.HexDigitUpper(n / 16)] + [Text.HexDigitUpper(n % 16)];
  }

  /**
   * An encoded value never holds its delimiter (unless the delimiter is a
   * decimal digit, which its own code "3x" holds), so a token ends only where
   * the next one starts.
   */
  lemma EncodeAvoidsDelimiter(value: string, d: string)
    requires SafeDelimiter(d) && !('0' <= d[0] <= '9')
    ensures forall i :: 0 <= i < |Encode(value, d)| ==> Encode(value, d)[i] != d[0]
  {
    EncodeIsEscape(value, d);
    if 'B' <= d[0] <= 'F' {
      HexLetterCodeAvoids(d);
    }
    EscapeAvoids(Uri.Encode(value), d[0], Text.DelimiterCode(d));
  }

  /** The characters an encoded string value can hold: those of `encodeURIComponent` and `*`. */
  predicate IsCodecChar(c: char) {
    Uri.IsEncodedChar(c) || c == '*'
  }

  lemma {:induction false} EscapeChars(u: string, dc: char, h: string)
    requires forall i :: 0 <= i < |u| ==> Uri.IsEncodedChar(u[i])
    requires forall i :: 0 <= i < |h| ==> Text.IsUpperHexDigit(h[i])
    ensures forall i :: 0 <= i < |Escape(u, dc, h)| ==> IsCodecChar(Escape(u, dc, h)[i])
  {
    if u != [] {
      EscapeChars(u[1..], dc, h);
      var first := if u[0] == '*' then "*2A" else if u[0] == dc then "*" + h else [u[0]];
      var e := Escape(u, dc, h);
      assert forall i :: 0 <= i < |first| ==> IsCodecChar(first[i]);
      assert forall i :: |first| <= i < |e| ==> e[i] == Escape(u[1..], dc, h)[i - |first|];
    }
  }

  /** An encoded value consists of unreserved characters, `%`, `*` and upper-case hexadecimal digits. */
  lemma EncodeChars(value: string, d: string)
    requires SafeDelimiter(d)
    ensures forall i :: 0 <= i < |Encode(value, d)| ==> IsCodecChar(Encode(value, d)[i])
  {
    EncodeIsEscape(value, d);
    Uri.EncodeAlphabet(value);
    EscapeChars(Uri.Encode(value), d[0], Text.DelimiterCode(d));
  }

  /** As written, the value "!" comes back from its own encoding as "*!". */
  lemma AsWrittenCounterexample()
    ensures EncodeAsWritten("!", "!") == Some("*21")
    ensures DecodeAsWritten("*21", "!") == Some("*!")
    ensures Decode("*21", "!") == Some("!")
  {
    Text.DelimiterCodeExamples();
    CommonDelimitersSafe();
    Uri.EncodeUnreserved("!");
    EncodeIsEscape("!", "!");
    assert Escape("!", '!', "21") == "*21";
    assert Text.ReplaceAll("*21", "21", "!") == "*!" by {
      Text.ReplaceAllOther('*', "21", "21", "!");
      Text.ReplaceAllHit("", "21", "!");
    }
    assert Text.ReplaceAll("*!", "*2A", "*") == "*!" by {
      assert !Text.Contains("*!", "*2A");
      Text.ReplaceAllAbsent("*!", "*2A", "*");
    }
    assert Text.ReplaceAll("*21", "*21", "!") == "!" by {
      Text.ReplaceAllHit("", "*21", "!");
    }
    assert Text.ReplaceAll("!", "*2A", "*") == "!" by {
      Text.ReplaceAllOther('!', "", "*2A", "*");
    }
  }

  /** As written, an empty value in a numbered field renders as the token text "undefined". */
  lemma EmptyValueAsWritten()
    ensures "!" + "3" + "s" + Concatenated(EncodeAsWritten("", "!")) == "!3sundefined"
    ensures "!" + "3" + "s" + Encode("", "!") == "!3s"
    ensures Decode(Encode("", "!"), "!") == Some("")
  {
    CommonDelimitersSafe();
    DecodeEncode("", "!");
  }
}
