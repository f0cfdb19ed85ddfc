/**
 * The JavaScript string operations the codecs are built from: `startsWith`,
 * `replaceAll` and `replace` with a string pattern, the first UTF-16 code unit
 * of a string (`charCodeAt(0)`), and upper-case hexadecimal rendering padded
 * to two digits (`toString(16).toUpperCase().padStart(2, "0")`).
 */
module Text {
  import opened Numbers

  /** `s.startsWith(p)`. */
  predicate StartsWith(s: string, p: string) {
    |p| <= |s| && s[..|p|] == p
  }

  /**
   * `s.replaceAll(pat, rep)` for a string pattern: occurrences are found left to
   * right and do not overlap; inserted text is not searched again. An empty
   * pattern matches before every character and at the end.
   */
  function ReplaceAll(s: string, pat: string, rep: string): string
    decreases |s|
  {
    if pat == [] then
      (if s == [] then rep else rep + [s[0]] + ReplaceAll(s[1..], pat, rep))
    else if StartsWith(s, pat) then
      rep + ReplaceAll(s[|pat|..], pat, rep)
    else if s == [] then
      []
    else
      [s[0]] + ReplaceAll(s[1..], pat, rep)
  }

  /** `s.replace(pat, rep)` for a string pattern: only the first occurrence is replaced. */
  function ReplaceFirst(s: string, pat: string, rep: string): string
    decreases |s|
  {
    if StartsWith(s, pat) then rep + s[|pat|..]
    else if s == [] then []
    else [s[0]] + ReplaceFirst(s[1..], pat, rep)
  }

  lemma ReplaceFirstOther(d: char, s: string, c: char, rep: string)
    requires d != c
    ensures ReplaceFirst([d] + s, [c], rep) == [d] + ReplaceFirst(s, [c], rep)
  {
    assert !StartsWith([d] + s, [c]);
    assert ([d] + s)[1..] == s;
  }

  /** `replace` of a one-character pattern skips a prefix that does not hold that character. */
  lemma {:induction false} ReplaceFirstOtherPrefix(p: string, s: string, c: char, rep: string)
    requires forall i :: 0 <= i < |p| ==> p[i] != c
    ensures ReplaceFirst(p + s, [c], rep) == p + ReplaceFirst(s, [c], rep)
  {
    if p != [] {
      var t := p[1..];
      assert forall i :: 0 <= i < |t| ==> t[i] == p[i + 1];
      calc {
        ReplaceFirst(p + s, [c], rep);
        { assert p + s == [p[0]] + (t + s); }
        ReplaceFirst([p[0]] + (t + s), [c], rep);
        { ReplaceFirstOther(p[0], t + s, c, rep); }
        [p[0]] + ReplaceFirst(t + s, [c], rep);
        { ReplaceFirstOtherPrefix(t, s, c, rep); }
        [p[0]] + (t + ReplaceFirst(s, [c], rep));
        { assert p == [p[0]] + t; }
        p + ReplaceFirst(s, [c], rep);
      }
    } else {
      assert p + s == s;
    }
  }

  /** `s` contains `p` somewhere (`s.includes(p)`). */
  predicate Contains(s: string, p: string)
    decreases |s|
  {
    StartsWith(s, p) || (s != [] && Contains(s[1..], p))
  }

  /** When no occurrence starts at the front, `replaceAll` copies the first character. */
  lemma ReplaceAllSkip(s: string, pat: string, rep: string)
    requires pat != [] && s != [] && !StartsWith(s, pat)
    ensures ReplaceAll(s, pat, rep) == [s[0]] + ReplaceAll(s[1..], pat, rep)
  {
  }

  /** A character that is not the pattern's first character never starts an occurrence. */
  lemma ReplaceAllOther(c: char, s: string, pat: string, rep: string)
    requires pat != [] && c != pat[0]
    ensures ReplaceAll([c] + s, pat, rep) == [c] + ReplaceAll(s, pat, rep)
  {
    assert !StartsWith([c] + s, pat);
    assert ([c] + s)[1..] == s;
  }

  /** `replaceAll` splits over a prefix that holds no character of a one-character pattern. */
  lemma {:induction false} ReplaceAllOtherPrefix(p: string, s: string, pat: string, rep: string)
    requires pat != [] && forall i :: 0 <= i < |p| ==> p[i] != pat[0]
    ensures ReplaceAll(p + s, pat, rep) == p + ReplaceAll(s, pat, rep)
  {
    if p != [] {
      var t := p[1..];
      assert forall i :: 0 <= i < |t| ==> t[i] == p[i + 1];
      var x := t + s;
      calc {
        ReplaceAll(p + s, pat, rep);
        { assert p + s == [p[0]] + x; }
        ReplaceAll([p[0]] + x, pat, rep);
        { ReplaceAllOther(p[0], x, pat, rep); }
        [p[0]] + ReplaceAll(x, pat, rep);
        { ReplaceAllOtherPrefix(t, s, pat, rep); }
        [p[0]] + (t + ReplaceAll(s, pat, rep));
        { assert p == [p[0]] + t; }
        p + ReplaceAll(s, pat, rep);
      }
    } else {
      assert p + s == s;
    }
  }

  /** An occurrence at the front is replaced. */
  lemma ReplaceAllHit(s: string, pat: string, rep: string)
    requires pat != []
    ensures ReplaceAll(pat + s, pat, rep) == rep + ReplaceAll(s, pat, rep)
  {
    assert StartsWith(pat + s, pat);
    assert (pat + s)[|pat|..] == s;
  }

  /** Without an occurrence the string is left as it is. */
  lemma {:induction false} ReplaceAllAbsent(s: string, pat: string, rep: string)
    requires pat != [] && !Contains(s, pat)
    ensures ReplaceAll(s, pat, rep) == s
  {
    if s != [] {
      ReplaceAllAbsent(s[1..], pat, rep);
    }
  }

  /** `replaceAll` of a one-character pattern rewrites that character, one at a time. */
  function MapChar(s: string, c: char, rep: string): (r: string)
  {
    if s == [] then [] else (if s[0] == c then rep else [s[0]]) + MapChar(s[1..], c, rep)
  }

  lemma {:induction false} ReplaceAllOneChar(s: string, c: char, rep: string)
    ensures ReplaceAll(s, [c], rep) == MapChar(s, c, rep)
  {
    if s != [] {
      ReplaceAllOneChar(s[1..], c, rep);
      if s[0] == c {
        assert StartsWith(s, [c]);
      } else {
        assert !StartsWith(s, [c]);
      }
    }
  }

  lemma {:induction false} MapCharConcat(a: string, b: string, c: char, rep: string)
    ensures MapChar(a + b, c, rep) == MapChar(a, c, rep) + MapChar(b, c, rep)
  {
    if a != [] {
      assert (a + b)[1..] == a[1..] + b;
      MapCharConcat(a[1..], b, c, rep);
    } else {
      assert a + b == b;
    }
  }

  /** Removing every occurrence of a character: nothing of it is left, everything else is kept in order. */
  lemma {:induction false} MapCharRemoves(s: string, c: char)
    ensures forall i :: 0 <= i < |MapChar(s, c, "")| ==> MapChar(s, c, "")[i] != c
  {
    if s != [] {
      MapCharRemoves(s[1..], c);
    }
  }

  /** Rewriting a character that does not occur leaves the string unchanged. */
  lemma {:induction false} MapCharAbsent(s: string, c: char, rep: string)
    requires forall i :: 0 <= i < |s| ==> s[i] != c
    ensures MapChar(s, c, rep) == s
  {
    if s != [] {
      MapCharAbsent(s[1..], c, rep);
    }
  }

  /**
   * The first UTF-16 code unit of a non-empty string (`s.charCodeAt(0)`): the
   * code point itself in the Basic Multilingual Plane, otherwise the high surrogate.
   */
  function CharCodeAt0(s: string): (u: int)
    requires s != []
    ensures 0 <= u < 0x10000
    ensures s[0] as int < 0x10000 ==> u == s[0] as int
    ensures s[0] as int >= 0x10000 ==> 0xD800 <= u < 0xDC00
  {
    var cp := s[0] as int;
    if cp < 0x10000 then cp else 0xD800 + (cp - 0x10000) / 0x400
  }

  /** The UTF-16 length of a string (`s.length`): two code units for a code point above U+FFFF. */
  function Utf16Length(s: string): (n: nat)
    ensures |s| <= n <= 2 * |s|
  {
    if s == [] then 0 else (if s[0] as int < 0x10000 then 1 else 2) + Utf16Length(s[1..])
  }

  /** `0`-`9` and `A`-`F`. */
  predicate IsUpperHexDigit(c: char) {
    ('0' <= c <= '9') || ('A' <= c <= 'F')
  }

  function HexDigitUpper(d: int): (c: char)
    requires 0 <= d < 16
    ensures IsUpperHexDigit(c)
  {
    if d < 10 then (48 + d) as char else (55 + d) as char
  }

  /** `n.toString(16).toUpperCase()`: upper-case hexadecimal without leading zeros. */
  function HexUpper(n: nat): (s: string)
    ensures |s| >= 1
    ensures n < 16 ==> |s| == 1
    ensures 16 <= n < 256 ==> |s| == 2
    ensures n >= 256 ==> |s| >= 3
    ensures forall i :: 0 <= i < |s| ==> IsUpperHexDigit(s[i])
  {
    if n < 16 then [HexDigitUpper(n)] else HexUpper(n / 16) + [HexDigitUpper(n % 16)]
  }

  /** `s.padStart(2, "0")`. */
  function PadStart2(s: string): (t: string)
    ensures |s| >= 2 ==> t == s
    ensures |s| < 2 ==> |t| == 2
  {
    if |s| == 0 then "00" else if |s| == 1 then "0" + s else s
  }

  /**
   * `d.charCodeAt(0).toString(16).toUpperCase().padStart(2, "0")`. For the empty
   * string `charCodeAt(0)` is NaN, which renders as "NaN" and upper-cases to "NAN".
   */
  function DelimiterCode(d: string): (h: string)
    ensures d != [] ==> |h| >= 2 && forall i :: 0 <= i < |h| ==> IsUpperHexDigit(h[i])
    ensures d != [] && (d[0] as int) < 256 ==> |h| == 2
  {
    if d == [] then "NAN" else PadStart2(HexUpper(CharCodeAt0(d)))
  }

  lemma DelimiterCodeExamples()
    ensures DelimiterCode("!") == "21"
    ensures DelimiterCode("*") == "2A"
    ensures DelimiterCode("&") == "26"
    ensures DelimiterCode("\n") == "0A"
  {
  }
}
