/**
 * The shared part of every field (`GenericPBFField`, `SimplePBFField` and
 * `NumericPBFField`): the options record a field is built from, the field
 * number rules and the lock that guards it, the delimiter rules, the checks
 * every value goes through, and `_parseUrlCore`, which reads the
 * `DELIM NUMBER LETTER VALUE` token back.
 */
module Core {
  import opened Wrappers
  import opened Numbers
  import Text

  /** `defaultDelimiter`. */
  const DefaultDelimiter: string := "!"

  /** A field number as the constructor and the setter admit it: an integer of at least one. */
  type FieldNumber = n: int | n >= 1 witness 1

  /** A field's value: undefined, a single value, or the list a repeated field holds. */
  datatype Stored<+T> = Absent | One(x: T) | Many(xs: seq<T>)

  function Elements<T>(v: Stored<T>): (s: seq<T>)
    ensures v.Absent? ==> s == []
    ensures v.One? ==> s == [v.x]
    ensures v.Many? ==> s == v.xs
  {
    match v
    case Absent => []
    case One(x) => [x]
    case Many(xs) => xs
  }

  /** `value ?? this._value`: the argument, or the stored value when the argument is undefined. */
  function RealValue<T>(arg: Stored<T>, stored: Stored<T>): Stored<T> {
    if arg.Absent? then stored else arg
  }

  /** The errors the field engine raises; the message texts are not modelled. */
  datatype Error =
    | InvalidFieldNumber
    | FieldNumberLocked
    | FieldNumberUnset
    | InvalidDelimiter
    | ShapeMismatch
    | RequiredMissing
    | NaNValue
    | OutOfRange
    | RepeatedNotEncodable
    | InvalidToken
    | FieldNumberMismatch
    | FieldTypeMismatch
    | UnknownEnumCode
    | UnknownEnumName
    | InvalidEnumInput
    | DuplicateFieldNumbers
    | UriError
    | Base64Error
    | TypeError
    | Unrendered
    | RegexSyntax
    | PatternNotModelled

  /** `PBFFieldOptions` as a caller passes them; the `name` option only feeds error texts. */
  datatype FieldOptions = FieldOptions(fieldNumber: Option<Num>, required: bool, repeated: Option<bool>, delimiter: Option<string>)

  /** `GenericPBFFieldOptions` as `extendOptions` builds them. */
  datatype Extended = Extended(fieldNumber: Option<Num>, required: bool, repeated: Option<bool>, delimiter: string, fieldType: char)

  /** The options a constructed field holds (`_options`). */
  datatype Options = Options(fieldNumber: Option<FieldNumber>, required: bool, repeated: bool, delimiter: string, fieldType: char)

  /**
   * `extendOptions`: without options the delimiter is "?"; with options it is
   * the one given, or "!" when none is given.
   */
  function ExtendOptions(fieldType: char, options: Option<FieldOptions>): (e: Extended)
    ensures e.fieldType == fieldType
    ensures options.None? ==> e.delimiter == "?" && e.fieldNumber.None? && !e.required && e.repeated.None?
    ensures options.Some? ==> e.delimiter == options.value.delimiter.GetOr(DefaultDelimiter)
    ensures options.Some? ==> e.fieldNumber == options.value.fieldNumber && e.required == options.value.required && e.repeated == options.value.repeated
  {
    match options
    case None => Extended(None, false, None, "?", fieldType)
    case Some(o) => Extended(o.fieldNumber, o.required, o.repeated, o.delimiter.GetOr(DefaultDelimiter), fieldType)
  }

  /** The field number check of the constructor and the setter: `Number.isInteger(n)` and `n >= 1`. */
  function CheckFieldNumber(n: Num): (r: Result<FieldNumber, Error>)
    ensures r.Success? <==> IsInteger(n) && n.r >= 1.0
    ensures r.Success? ==> FromInt(r.value) == n
    ensures r.Failure? ==> r.error == InvalidFieldNumber
  {
    if IsInteger(n) && n.r >= 1.0 then Success(n.r.Floor) else Failure(InvalidFieldNumber)
  }

  /**
   * The `GenericPBFField` constructor: a given field number must pass the check,
   * and `repeated` defaults to false. A one-character type letter always passes
   * the length check.
   */
  function Construct(e: Extended): (r: Result<Options, Error>)
    ensures r.Success? <==> e.fieldNumber.None? || CheckFieldNumber(e.fieldNumber.value).Success?
    ensures r.Success? ==> r.value.required == e.required && r.value.repeated == e.repeated.GetOr(false)
    ensures r.Success? ==> r.value.delimiter == e.delimiter && r.value.fieldType == e.fieldType
    ensures r.Success? ==> (r.value.fieldNumber.Some? <==> e.fieldNumber.Some?)
    ensures r.Success? && e.fieldNumber.Some? ==> FromInt(r.value.fieldNumber.value) == e.fieldNumber.value
  {
    match e.fieldNumber
    case None => Success(Options(None, e.required, e.repeated.GetOr(false), e.delimiter, e.fieldType))
    case Some(n) =>
      match CheckFieldNumber(n)
      case Failure(err) => Failure(err)
      case Success(fn) => Success(Options(Some(fn), e.required, e.repeated.GetOr(false), e.delimiter, e.fieldType))
  }

  /** The `fieldNumber` setter: refused while the lock is on, then the number check. */
  function SetFieldNumber(o: Options, locked: bool, n: Num): (r: Result<Options, Error>)
    ensures locked ==> r == Failure(FieldNumberLocked)
    ensures r.Success? <==> !locked && IsInteger(n) && n.r >= 1.0
    ensures r.Success? ==> r.value.fieldNumber.Some? && FromInt(r.value.fieldNumber.value) == n
    ensures r.Success? ==> r.value == o.(fieldNumber := r.value.fieldNumber)
  {
    if locked then Failure(FieldNumberLocked)
    else
      match CheckFieldNumber(n)
      case Failure(err) => Failure(err)
      case Success(fn) => Success(o.(fieldNumber := Some(fn)))
  }

  /** The `fieldNumber` getter: an unset number is an error. */
  function GetFieldNumber(o: Options): (r: Result<FieldNumber, Error>)
    ensures r.Success? <==> o.fieldNumber.Some?
    ensures r.Success? ==> o.fieldNumber == Some(r.value)
  {
    match o.fieldNumber
    case None => Failure(FieldNumberUnset)
    case Some(fn) => Success(fn)
  }

  /**
   * The `delimiter` setter: undefined and "" give the default "!", a delimiter
   * of one UTF-16 code unit (`length === 1`) is stored, anything longer is
   * refused, including one character above U+FFFF.
   */
  function SetDelimiter(o: Options, d: Option<string>): (r: Result<Options, Error>)
    ensures r.Success? <==> d.None? || Text.Utf16Length(d.value) <= 1
    ensures r.Success? ==> r.value.delimiter == (if d.None? || d.value == "" then DefaultDelimiter else d.value)
    ensures r.Success? ==> r.value == o.(delimiter := r.value.delimiter)
    ensures r.Success? ==> |r.value.delimiter| == 1 && Text.Utf16Length(r.value.delimiter) == 1
  {
    if d.None? || d.value == "" then Success(o.(delimiter := DefaultDelimiter))
    else if Text.Utf16Length(d.value) == 1 then Success(o.(delimiter := d.value))
    else Failure(InvalidDelimiter)
  }

  /**
   * One character above U+FFFF is two UTF-16 code units, so the setter refuses
   * it, while a character below U+10000 is taken.
   */
  lemma AstralDelimiterRefused(o: Options)
    ensures SetDelimiter(o, Some("\U{1F600}")) == Failure(InvalidDelimiter)
    ensures SetDelimiter(o, Some("\U{20AC}")) == Success(o.(delimiter := "\U{20AC}"))
  {
    assert Text.Utf16Length("\U{1F600}") == 2 by { assert "\U{1F600}"[1..] == []; }
  }

  /**
   * `SimplePBFField.validateValue` on the real value: a list exactly when the
   * field is repeated, and a value when the field is required.
   */
  function BaseCheck<T>(o: Options, actual: Stored<T>): (r: Outcome<Error>)
    ensures r.Pass? <==> actual.Many? == o.repeated && !(o.required && actual.Absent?)
    ensures r.Fail? ==> r.error == (if actual.Many? != o.repeated then ShapeMismatch else RequiredMissing)
  {
    if o.repeated != actual.Many? then Fail(ShapeMismatch)
    else if o.required && actual.Absent? then Fail(RequiredMissing)
    else Pass
  }

  /** Index of the first NaN in `xs`, or |xs| when there is none. */
  function FirstNaN(xs: seq<Num>): (k: nat)
    ensures k <= |xs|
    ensures forall i :: 0 <= i < k ==> xs[i].Finite?
    ensures k < |xs| ==> xs[k].NaN?
  {
    if xs == [] then 0 else if xs[0].NaN? then 0 else 1 + FirstNaN(xs[1..])
  }

  /**
   * `_validateValueCore`: the shape and required checks, then NaN anywhere is
   * refused, then the type's own check runs on every element.
   */
  function ValidateValueCore(o: Options, actual: Stored<Num>, check: Num -> bool): (r: Outcome<Error>)
    ensures BaseCheck(o, actual).Fail? ==> r == BaseCheck(o, actual)
    ensures BaseCheck(o, actual).Pass? && (exists i :: 0 <= i < |Elements(actual)| && Elements(actual)[i].NaN?) ==> r == Fail(NaNValue)
    ensures r.Pass? <==> BaseCheck(o, actual).Pass? && forall i :: 0 <= i < |Elements(actual)| ==> Elements(actual)[i].Finite? && check(Elements(actual)[i])
    ensures r.Fail? ==> r.error in {ShapeMismatch, RequiredMissing, NaNValue, OutOfRange}
  {
    var xs := Elements(actual);
    if BaseCheck(o, actual).Fail? then BaseCheck(o, actual)
    else if FirstNaN(xs) < |xs| then Fail(NaNValue)
    else if forall i :: 0 <= i < |xs| ==> check(xs[i]) then Pass
    else Fail(OutOfRange)
  }

  /** `NumericPBFField._decodeValue`: the empty text is undefined, anything else goes through `Number`. */
  function DecodeNumber(s: string): (r: Option<Num>)
    ensures r.None? <==> s == ""
  {
    if s == "" then None else Some(StringToNumber(s))
  }

  /** `Number(n.toString())` gives `n` back for every number the model renders: NaN and the integers. */
  lemma DecodeNumberText(n: Num)
    requires NumberText(n).Some?
    ensures DecodeNumber(NumberText(n).value) == Some(n)
  {
    if n.NaN? {
      assert NumberText(n).value == "NaN";
      assert Numbers.DotIndex("NaN") == 3;
    } else {
      NumberTextRoundTrip(n);
    }
  }

  /** A line terminator (section 12.3 of ECMA-262), which `.` in a regular expression does not match. */
  predicate IsLineTerminator(c: char) {
    c == '\n' || c == '\r' || c == '\U{2028}' || c == '\U{2029}'
  }

  predicate NoLineTerminator(s: string) {
    forall i :: 0 <= i < |s| ==> !IsLineTerminator(s[i])
  }

  predicate IsLowerLetter(c: char) {
    'a' <= c <= 'z'
  }

  /** Length of the run of decimal digits at the front of `s`. */
  function DigitRun(s: string): (k: nat)
    ensures k <= |s|
    ensures forall i :: 0 <= i < k ==> IsDigit(s[i])
    ensures k < |s| ==> !IsDigit(s[k])
  {
    if s == [] || !IsDigit(s[0]) then 0 else 1 + DigitRun(s[1..])
  }

  /** The parts of a token: the digits of the field number, the type letter and the value text. */
  datatype Token = Token(digits: string, letter: char, rest: string)

  /**
   * The match of `([0-9]+)([a-z])(.*)$` against the whole of `t`: a digit run,
   * one lower-case letter, and a rest that `.` can match.
   */
  function MatchTail(t: string): (r: Option<Token>)
    ensures r.Some? ==> t == r.value.digits + [r.value.letter] + r.value.rest
    ensures r.Some? ==> |r.value.digits| > 0 && AllDigits(r.value.digits)
    ensures r.Some? ==> IsLowerLetter(r.value.letter) && NoLineTerminator(r.value.rest)
  {
    var k := DigitRun(t);
    if k == 0 || k == |t| || !IsLowerLetter(t[k]) || !NoLineTerminator(t[k + 1..]) then None
    else
      assert t == t[..k] + [t[k]] + t[k + 1..];
      Some(Token(t[..k], t[k], t[k + 1..]))
  }

  /**
   * The match of `^D([0-9]+)([a-z])(.*)$` against `s`, with the delimiter `D`
   * read as literal text (the corrected reading; see `MatchTokenAsWritten`).
   */
  function MatchToken(s: string, d: string): (r: Option<Token>)
    ensures r.Some? ==> s == d + r.value.digits + [r.value.letter] + r.value.rest
    ensures r.Some? ==> |r.value.digits| > 0 && AllDigits(r.value.digits)
    ensures r.Some? ==> IsLowerLetter(r.value.letter) && NoLineTerminator(r.value.rest)
  {
    if !Text.StartsWith(s, d) then None
    else
      assert s == d + s[|d|..] by { assert s == s[..|d|] + s[|d|..]; }
      MatchTail(s[|d|..])
  }

  /** Every token the emitter can write is matched, and its parts come back. */
  lemma MatchTokenOfToken(d: string, n: nat, c: char, rest: string)
    requires IsLowerLetter(c) && NoLineTerminator(rest)
    ensures MatchToken(d + NatToDecimal(n) + [c] + rest, d) == Some(Token(NatToDecimal(n), c, rest))
  {
    var digits := NatToDecimal(n);
    var s := d + digits + [c] + rest;
    assert s[..|d|] == d;
    var t := s[|d|..];
    assert t == digits + [c] + rest;
    MatchTailOfToken(n, c, rest);
  }

  lemma MatchTailOfToken(n: nat, c: char, rest: string)
    requires IsLowerLetter(c) && NoLineTerminator(rest)
    ensures MatchTail(NatToDecimal(n) + [c] + rest) == Some(Token(NatToDecimal(n), c, rest))
  {
    var digits := NatToDecimal(n);
    var t := digits + [c] + rest;
    DigitRunStops(digits, c, rest);
    assert t[..|digits|] == digits;
    assert t[|digits| + 1..] == rest;
  }

  lemma {:induction false} DigitRunStops(digits: string, c: char, rest: string)
    requires AllDigits(digits) && !IsDigit(c)
    ensures DigitRun(digits + [c] + rest) == |digits|
  {
    if digits != [] {
      assert (digits + [c] + rest)[1..] == digits[1..] + [c] + rest;
      DigitRunStops(digits[1..], c, rest);
    } else {
      assert (digits + [c] + rest)[0] == c;
    }
  }

  /** The options after `_parseUrlCore` (it may adopt a field number) and its result. */
  datatype Parsed = Parsed(options: Options, result: Result<string, Error>)

  /**
   * `_parseUrlCore`: undefined and "" give ""; text that does not start with the
   * delimiter is a bare value and is returned as it is; otherwise the text must
   * be a whole token, whose number must equal a number already set (an unset
   * number is adopted, and stays adopted even when the letter check fails) and
   * whose letter must be the field's type letter. The result is the value text.
   */
  function ParseUrlCore(o: Options, value: Option<string>): (p: Parsed)
    ensures value.None? || value == Some("") ==> p == Parsed(o, Success(""))
    ensures value.Some? && value.value != "" && !Text.StartsWith(value.value, o.delimiter) ==> p == Parsed(o, Success(value.value))
    ensures p.options == o || (o.fieldNumber.None? && p.options == o.(fieldNumber := p.options.fieldNumber))
  {
    if value.None? || value.value == "" then Parsed(o, Success(""))
    else if !Text.StartsWith(value.value, o.delimiter) then Parsed(o, Success(value.value))
    else
      match MatchToken(value.value, o.delimiter)
      case None => Parsed(o, Failure(InvalidToken))
      case Some(tok) => AdoptToken(o, tok)
  }

  /**
   * What `_parseUrlCore` does with a matched token: its number must equal a
   * number already set (an unset number is adopted) and its letter must be the
   * field's type letter.
   */
  function AdoptToken(o: Options, tok: Token): (p: Parsed)
    requires AllDigits(tok.digits)
    ensures p.options == o || (o.fieldNumber.None? && p.options == o.(fieldNumber := p.options.fieldNumber))
  {
    var number := DigitsValue(tok.digits);
    if number < 1 then Parsed(o, Failure(InvalidFieldNumber))
    else if o.fieldNumber.Some? && o.fieldNumber.value != number then Parsed(o, Failure(FieldNumberMismatch))
    else
      var adopted := o.(fieldNumber := Some(number));
      if o.fieldType != tok.letter then Parsed(adopted, Failure(FieldTypeMismatch))
      else Parsed(adopted, Success(tok.rest))
  }

  /** The token a numbered field emits: delimiter, decimal field number, type letter, value text. */
  function TokenText(o: Options, fn: FieldNumber, encoded: string): string {
    o.delimiter + NatToDecimal(fn) + [o.fieldType] + encoded
  }

  /**
   * Reading back a token: a field whose number is set gets the value text back
   * unchanged, and a field without a number adopts the token's number.
   */
  lemma ParseToken(o: Options, fn: FieldNumber, encoded: string)
    requires IsLowerLetter(o.fieldType) && NoLineTerminator(encoded)
    requires o.fieldNumber.None? || o.fieldNumber == Some(fn)
    ensures ParseUrlCore(o, Some(TokenText(o, fn, encoded))) == Parsed(o.(fieldNumber := Some(fn)), Success(encoded))
  {
    var s := TokenText(o, fn, encoded);
    MatchTokenOfToken(o.delimiter, fn, o.fieldType, encoded);
    DecimalRoundTrip(fn);
    assert s[..|o.delimiter|] == o.delimiter;
  }

  /** A token whose number differs from the field's is refused and changes nothing. */
  lemma ParseTokenMismatch(o: Options, fn: FieldNumber, c: char, encoded: string)
    requires IsLowerLetter(c) && NoLineTerminator(encoded)
    requires o.fieldNumber.Some? && o.fieldNumber.value != fn
    ensures ParseUrlCore(o, Some(o.delimiter + NatToDecimal(fn) + [c] + encoded)) == Parsed(o, Failure(FieldNumberMismatch))
  {
    var s := o.delimiter + NatToDecimal(fn) + [c] + encoded;
    MatchTokenOfToken(o.delimiter, fn, c, encoded);
    DecimalRoundTrip(fn);
    assert s[..|o.delimiter|] == o.delimiter;
  }

  /** A token with the field's number and another type letter is refused. */
  lemma ParseTokenWrongLetter(o: Options, fn: FieldNumber, c: char, encoded: string)
    requires IsLowerLetter(c) && NoLineTerminator(encoded) && c != o.fieldType
    requires o.fieldNumber.None? || o.fieldNumber == Some(fn)
    ensures ParseUrlCore(o, Some(o.delimiter + NatToDecimal(fn) + [c] + encoded)) == Parsed(o.(fieldNumber := Some(fn)), Failure(FieldTypeMismatch))
  {
    var s := o.delimiter + NatToDecimal(fn) + [c] + encoded;
    MatchTokenOfToken(o.delimiter, fn, c, encoded);
    DecimalRoundTrip(fn);
    assert s[..|o.delimiter|] == o.delimiter;
  }

  // ---------------------------------------------------------------- the pattern as the source builds it

  /** The characters `\s` matches: WhiteSpace and LineTerminator (sections 12.2 and 12.3 of ECMA-262). */
  predicate IsRegexSpace(c: char) {
    c == '\t' || c == '\U{B}' || c == '\U{C}' || c == ' ' || c == '\U{A0}' || c == '\U{FEFF}'
    || c == '\U{1680}' || ('\U{2000}' <= c <= '\U{200A}') || c == '\U{202F}' || c == '\U{205F}' || c == '\U{3000}'
    || IsLineTerminator(c)
  }

  /** The characters `\w` matches. */
  predicate IsWordChar(c: char) {
    ('a' <= c <= 'z') || ('A' <= c <= 'Z') || IsDigit(c) || c == '_'
  }

  /** The escapes that do not stand for their own character after a backslash. */
  const SpecialEscapes: string := "0123456789bBcdDfnrsStvwW"

  /** Whether `\c` matches the single character `x`, for the escapes that match one character. */
  predicate EscapeClass(c: char, x: char) {
    if c == 'd' then IsDigit(x)
    else if c == 'D' then !IsDigit(x)
    else if c == 's' then IsRegexSpace(x)
    else if c == 'S' then !IsRegexSpace(x)
    else if c == 'w' then IsWordChar(x)
    else if c == 'W' then !IsWordChar(x)
    else if c == 'f' then x == '\U{C}'
    else if c == 'n' then x == '\n'
    else if c == 'r' then x == '\r'
    else if c == 't' then x == '\t'
    else if c == 'v' then x == '\U{B}'
    else if '0' <= c <= '7' then x as int == c as int - '0' as int
    else x == c
  }

  /**
   * How many characters at the front of `s` the atom `\c` consumes, in a
   * regular expression without the `u` flag that has three capturing groups
   * and no named group (section 22.2 and Annex B.1.2 of ECMA-262); None when it
   * does not match there. `\b` and `\B` are assertions; `\1` to `\3` refer to
   * groups that have not matched yet and match nothing; `\c` before a
   * non-letter is a literal backslash followed by the letter c; `\0` and `\4`
   * to `\7` are octal character codes; `\8`, `\9` and every other character
   * without a special meaning stand for themselves.
   */
  function EscapeMatch(c: char, s: string): (r: Option<nat>)
    ensures r.Some? ==> r.value <= |s|
    ensures c !in SpecialEscapes ==> r == (if s != [] && s[0] == c then Some(1) else None)
    ensures '1' <= c <= '3' ==> r == Some(0)
  {
    if c == 'b' then (if s != [] && IsWordChar(s[0]) then Some(0) else None)
    else if c == 'B' then (if s != [] && IsWordChar(s[0]) then None else Some(0))
    else if '1' <= c <= '3' then Some(0)
    else if c == 'c' then (if |s| >= 2 && s[0] == '\\' && s[1] == 'c' then Some(2) else None)
    else if s != [] && EscapeClass(c, s[0]) then Some(1)
    else None
  }

  /**
   * The match of the pattern as the source builds it (core.ts line 105): a
   * backslash, then the delimiter, then `([0-9]+)([a-z])(.*)$`. With the empty
   * delimiter the backslash escapes the group's `(`, leaving an unmatched `)`:
   * `new RegExp` throws a SyntaxError. Delimiters of two or more characters
   * are not modelled.
   */
  function MatchTokenAsWritten(s: string, d: string): (r: Result<Option<Token>, Error>)
    ensures d == "" ==> r == Failure(RegexSyntax)
    ensures |d| == 1 ==> r.Success?
    ensures r.Success? && r.value.Some? ==> var tail := r.value.value.digits + [r.value.value.letter] + r.value.value.rest;
      |tail| <= |s| && s[|s| - |tail|..] == tail
    ensures r.Success? && r.value.Some? ==> |r.value.value.digits| > 0 && AllDigits(r.value.value.digits)
    ensures r.Success? && r.value.Some? ==> IsLowerLetter(r.value.value.letter) && NoLineTerminator(r.value.value.rest)
  {
    if d == "" then Failure(RegexSyntax)
    else if |d| > 1 then Failure(PatternNotModelled)
    else
      match EscapeMatch(d[0], s)
      case None => Success(None)
      case Some(k) =>
        assert s == s[..k] + s[k..];
        Success(MatchTail(s[k..]))
  }

  /**
   * `_parseUrlCore` as written, with the delimiter escaped in the pattern:
   * the same steps as `ParseUrlCore`, and the same result when the delimiter
   * is read literally (`ParseUrlCoreAgrees`).
   */
  function ParseUrlCoreAsWritten(o: Options, value: Option<string>): (p: Parsed)
    ensures value.None? || value == Some("") ==> p == Parsed(o, Success(""))
    ensures value.Some? && value.value != "" && !Text.StartsWith(value.value, o.delimiter) ==> p == Parsed(o, Success(value.value))
    ensures value.Some? && value.value != "" && o.delimiter == "" ==> p == Parsed(o, Failure(RegexSyntax))
    ensures p.options == o || (o.fieldNumber.None? && p.options == o.(fieldNumber := p.options.fieldNumber))
  {
    if value.None? || value.value == "" then Parsed(o, Success(""))
    else if !Text.StartsWith(value.value, o.delimiter) then Parsed(o, Success(value.value))
    else
      match MatchTokenAsWritten(value.value, o.delimiter)
      case Failure(e) => Parsed(o, Failure(e))
      case Success(None) => Parsed(o, Failure(InvalidToken))
      case Success(Some(tok)) => AdoptToken(o, tok)
  }

  /**
   * A delimiter the escaped pattern reads as itself: one character that is not
   * a special escape, or one of `D`, `S`, `w`, `8` and `9`, which match
   * themselves where the text starts with them.
   */
  predicate RegexLiteral(d: string) {
    |d| == 1 && d[0] !in "01234567bBcdfnrstvW"
  }

  /** For such a delimiter the source's parse is the literal one the rest of the model uses. */
  lemma ParseUrlCoreAgrees(o: Options, value: Option<string>)
    requires RegexLiteral(o.delimiter)
    ensures ParseUrlCoreAsWritten(o, value) == ParseUrlCore(o, value)
  {
    if value.Some? && value.value != "" && Text.StartsWith(value.value, o.delimiter) {
      var s, d := value.value, o.delimiter;
      assert s[0] == s[..1][0] == d[0];
      LiteralEscape(d[0], s);
      assert MatchTokenAsWritten(s, d) == Success(MatchTail(s[1..]));
      assert MatchToken(s, d) == MatchTail(s[1..]);
    }
  }

  lemma LiteralEscape(c: char, s: string)
    requires s != [] && s[0] == c && c !in "01234567bBcdfnrstvW"
    ensures EscapeMatch(c, s) == Some(1)
  {
    if c in SpecialEscapes {
      assert c == 'D' || c == 'S' || c == 'w' || c == '8' || c == '9';
      assert EscapeClass(c, s[0]);
    }
  }

  /** Reading back a token under such a delimiter, as the source does it. */
  lemma ParseTokenAsWritten(o: Options, fn: FieldNumber, encoded: string)
    requires RegexLiteral(o.delimiter) && IsLowerLetter(o.fieldType) && NoLineTerminator(encoded)
    requires o.fieldNumber.None? || o.fieldNumber == Some(fn)
    ensures ParseUrlCoreAsWritten(o, Some(TokenText(o, fn, encoded))) == Parsed(o.(fieldNumber := Some(fn)), Success(encoded))
  {
    ParseUrlCoreAgrees(o, Some(TokenText(o, fn, encoded)));
    ParseToken(o, fn, encoded);
  }

  /**
   * Three delimiters the constructor's options let through, where the escaped
   * pattern differs from the literal one: under "d" the token "d3i5" is
   * refused, since `\d` wants a digit; under "1" the backreference `\1`
   * matches nothing, so "13i5" is read as field 13 instead of field 3; under
   * "" every value throws a SyntaxError.
   */
  lemma EscapedDelimiterCounterexample()
    ensures var o := Options(None, false, false, "d", 'i');
      ParseUrlCoreAsWritten(o, Some("d3i5")) == Parsed(o, Failure(InvalidToken))
      && ParseUrlCore(o, Some("d3i5")) == Parsed(o.(fieldNumber := Some(3)), Success("5"))
    ensures var o := Options(Some(13), false, false, "1", 'i');
      ParseUrlCoreAsWritten(o, Some("13i5")) == Parsed(o, Success("5"))
      && ParseUrlCore(o, Some("13i5")) == Parsed(o, Failure(FieldNumberMismatch))
    ensures var o := Options(None, false, false, "", 'i');
      ParseUrlCoreAsWritten(o, Some("3i5")) == Parsed(o, Failure(RegexSyntax))
      && ParseUrlCore(o, Some("3i5")) == Parsed(o.(fieldNumber := Some(3)), Success("5"))
  {
    var od := Options(None, false, false, "d", 'i');
    assert Text.StartsWith("d3i5", "d");
    assert EscapeMatch('d', "d3i5") == None;
    MatchTokenOfToken("d", 3, 'i', "5");
    DecimalRoundTrip(3);
    assert "d" + NatToDecimal(3) + ['i'] + "5" == "d3i5";

    var o1 := Options(Some(13), false, false, "1", 'i');
    assert Text.StartsWith("13i5", "1");
    MatchTailOfToken(13, 'i', "5");
    DecimalRoundTrip(13);
    assert NatToDecimal(13) + ['i'] + "5" == "13i5";
    assert "13i5"[0..] == "13i5";
    MatchTokenOfToken("1", 3, 'i', "5");
    assert "1" + NatToDecimal(3) + ['i'] + "5" == "13i5";

    MatchTokenOfToken("", 3, 'i', "5");
    assert "" + NatToDecimal(3) + ['i'] + "5" == "3i5";
  }
}
