# pbfish field engine and schema expander, modelled in Dafny

pbfish describes protobuf records at runtime. It reads and writes them in two wire shapes:

- **URL encoding.** A field is the token `DELIM NUMBER LETTER VALUE`, for example `!9i100` or `!3shello%20world`. A nested message is `!<n>m<count><child tokens…>`.
- **Array encoding.** This is the sparse positional array of the JSON ("jspb") form: the child with field number `f` sits at index `f - 1`.

This project models:

- the field classes: the abstract base, the scalar base, the numeric base and its twelve numeric types, bool, string, base 64 string, bytes, enum, message and reserved;
- the two base 64 helpers;
- `ProtobufParser.create`, which expands a protobuf JSON descriptor into the description that messages are built from.

It proves properties of the model. The files and modules follow the source's structure:

| file (module) | models |
|---|---|
| `core.dfy` (`Core`) | options, the field number, the delimiter, the base shape and required checks, `_validateValueCore`, `_parseUrlCore` |
| `numeric_types.dfy` (`NumericTypes`) | the twelve numeric types: letters, ranges and how each type's check is attached |
| `bool_codec.dfy`, `string_codec.dfy`, `base64_string_codec.dfy` | the value codecs of bool, string and base 64 string |
| `enum_table.dfy` (`EnumTable`) | the enum code table, the enum setter, getter and validation |
| `fields.dfy` (`Fields`) | the field engine on values: a field is a `Node`; a message holds its named children in order |
| `field_object.dfy` (`FieldObject`) | `Field`, a class whose methods change a field in place; each method is proved to reach the state the `Fields` function gives |
| `schema.dfy` (`Schema`) | `ProtobufParser` and its `create`: the layered expansion loop and the cache |
| `base64_util.dfy` (`Base64Util`) | `uint8ArrayToBase64` and `base64ToUint8Array` |
| `base64.dfy`, `octets.dfy`, `utf8.dfy`, `uri.dfy`, `numbers.dfy`, `text.dfy` | the parts of the JavaScript platform the core relies on |

The platform parts covered are:

- `btoa`, and `atob` as the "forgiving-base64 decode" of the WHATWG Infra standard (section 4.7);
- binary strings;
- `TextEncoder` and `TextDecoder` for UTF-8;
- `encodeURIComponent` and `decodeURIComponent`;
- `Number` rendering and parsing;
- `replaceAll` and `replace`.

## The model, in the system's terms

**Values and kinds.**

- A field's value is `Stored<T>`: `Absent` (undefined), `One(x)` or `Many(xs)` (a JavaScript array).
- JavaScript numbers are `Num = NaN | Finite(real)`.
- One `Kind` tag stands for each field class. It fixes the class's letter, its codecs and its checks.

**What a `Node` holds.** Besides its kind, a `Node` holds:

- the options: field number, required, repeated, delimiter, letter;
- the field-number lock;
- the value;
- for a message, the named children in insertion order. This is `Object.entries` order, since JavaScript objects keep string keys in insertion order.

**Operations.** Each operation of the source is a function on `Node`, with the defects listed under "## Findings" corrected; the as-written members of that table state what the source does. An operation that throws returns the error. It also returns the state the throw leaves behind, as an `Updated(node, outcome)` pair. This matters for the message setter: it writes some children before it throws.

**The `Field` class.** `FieldObject.Field` holds the same state in mutable fields. Its methods run the source's loops over the children: `isUndefined`, `validateValue`, `arrayEncode`, the setter, the delimiter setter and the clearing of children. Each method's `ensures` ties the new state and the result to the `Fields` function. The lemmas in `Fields` are then what is proved about that state.

**`create`.** The description is kept flat, keyed by paths: the path `[k1, k2]` stands for `newDefinition.k1.fields.k2`, which is where lodash `_.set` writes.

- `Schema.Locate` is an independent, non-iterative statement of what the expansion holds at each path;
- `Schema.Build`, the source's layer-by-layer worklist loop, is proved to produce exactly that;
- `Schema.ProtobufParser` adds the per-name cache.

**Two readings of the source the model adopts:**

- **Message count.** A message's `<count>` is the number of its immediately present children, as `encodeValue` computes it (message.ts:73-78). It is not a recursive count of all tokens.
- **Method names.** Message and reserved fields name their encoders `urlEncode`/`arrayEncode` (reserved: `jsonEncode`), and a message calls `v.urlEncode()` on each child. The model treats these as the same operations as `toUrl`/`toArray`, and `parseUrlCore` as `_parseUrlCore`.
- **`this.options`.** The base class declares and fills only `_options` (core.ts:43, 54). Enum and message code also read `this.options`, and the model reads both as one record per field. The reason is that `_options` is the only options record the base class defines and its setters write. Two cases differ in the source:
  - **Enum.** An enum field never assigns `this.options`, so as written every read of it throws a TypeError (enum.ts:42, 54, 65, 91, 102, 105, 108, 113). This has its own "## Findings" row: `EnumTable.SetValueAsWritten` is the setter as written.
  - **Message.** A message keeps the options it was given as a second record (message.ts:15). It reads that record's delimiter at construction, with "!" as the fallback (message.ts:86), and the model takes the delimiter from there too. Later writes differ; the "## Left out" line on `Fields.SetFieldNumber` says how.

## Model

| member | source | states |
|---|---|---|
| Core.ExtendOptions | parsers/core.ts:234-238 | the letter is kept; no options give delimiter "?" and nothing else; otherwise the delimiter defaults to "!" and the other options are copied |
| Core.CheckFieldNumber | parsers/core.ts:46-49 | a field number is accepted exactly when it is an integer of at least 1, and the accepted number equals the input |
| Core.Construct | parsers/core.ts:45-57 | construction succeeds exactly when the field number is absent or valid; `repeated` defaults to false; required, delimiter and letter are kept |
| Core.SetFieldNumber | parsers/core.ts:69-74 | a locked field refuses with FieldNumberLocked; otherwise success exactly for integers of at least 1, which then become the field number, with nothing else changed |
| Core.GetFieldNumber | parsers/core.ts:75-78 | the getter succeeds exactly when a field number is set, and returns it |
| Core.SetDelimiter | parsers/core.ts:86-92 | undefined or "" gives "!", a delimiter one UTF-16 code unit long is taken, a longer one (including one character above U+FFFF) is refused; nothing else changes |
| Core.AstralDelimiterRefused | parsers/core.ts:89 | "\u{1F600}", two UTF-16 code units, is refused; "€", one unit, is taken |
| Core.BaseCheck | parsers/core.ts:143-148 | passes exactly when the value is an array iff the field is repeated and a required field has a value; the error says which check failed |
| Core.ValidateValueCore | parsers/core.ts:214-227 | the base check's failure comes first, then NaN anywhere gives NaNValue; passes exactly when the base check passes and every element is finite and meets the type's check |
| Core.DecodeNumber | parsers/core.ts:210-212 | the empty text (and only it) decodes to undefined |
| Core.DecodeNumberText | parsers/core.ts:157 | every rendered number is decoded back to itself by `Number()` |
| Core.MatchToken | parsers/core.ts:105-106 | corrected, with the delimiter read literally: a match splits the text into delimiter, a non-empty digit run, one lower-case letter and a rest without line terminators |
| Core.MatchTokenOfToken | parsers/core.ts:105-106 | corrected, with the delimiter read literally: a token built from a delimiter, a number, a letter and a rest matches as exactly those parts |
| Core.ParseUrlCore | parsers/core.ts:102-118 | corrected, with the delimiter read literally: undefined and "" give ""; text not starting with the delimiter is returned as is; only an unset field number may be changed, by adopting the token's |
| Core.ParseToken | parsers/core.ts:102-118 | corrected, with the delimiter read literally: a token with the field's own letter and a matching or unset field number yields its value and sets the field number |
| Core.ParseTokenMismatch | parsers/core.ts:111 | corrected, with the delimiter read literally: a token whose number differs from the field's set number is refused with FieldNumberMismatch |
| Core.ParseTokenWrongLetter | parsers/core.ts:114 | corrected, with the delimiter read literally: a token with another letter is refused with FieldTypeMismatch, after the field number was adopted |
| Core.MatchTail | parsers/core.ts:105 | the part of the pattern after the delimiter splits a text into a non-empty digit run, one lower-case letter and a rest without line terminators |
| Core.EscapeMatch | parsers/core.ts:105 | a backslash before a character without a special meaning matches that character alone; `\1` to `\3` match nothing |
| Core.MatchTokenAsWritten | parsers/core.ts:105-106 | the pattern as written: the empty delimiter is a SyntaxError; a one-character delimiter always compiles; a match ends with a digit run, a lower-case letter and a rest without line terminators |
| Core.ParseUrlCoreAsWritten | parsers/core.ts:102-118 | as written: undefined and "" give ""; text not starting with the delimiter is returned as is; the empty delimiter throws a SyntaxError on any other text; only an unset field number may be changed |
| Core.ParseUrlCoreAgrees | parsers/core.ts:105 | for a delimiter the escaped pattern reads as itself (`RegexLiteral`), the source's parse is exactly the corrected one |
| Core.ParseTokenAsWritten | parsers/core.ts:102-118 | under such a delimiter the source's parse reads a token back and adopts its field number |
| Core.EscapedDelimiterCounterexample | parsers/core.ts:105 | as written, under "d" the token "d3i5" is refused, under "1" the text "13i5" is read as field 13, and under "" a SyntaxError is thrown; corrected, each reads field 3 or refuses field 13 |
| NumericTypes.Letter | parsers/int32.ts:6 | each numeric type's letter is a lower-case letter |
| NumericTypes.LettersDistinct | parsers/sfixed64.ts:8 | the twelve numeric letters are pairwise distinct |
| NumericTypes.Validate | parsers/int32.ts:9-16 | passes exactly when the base check passes and every element is finite and within the type's range (int32, sint32, sfixed32 signed 32-bit; uint32, fixed32 unsigned 32-bit; 64-bit types integers, unsigned ones non-negative; double and float anything) |
| NumericTypes.AttachedAgrees | parsers/sint32.ts:10-17 | for double, float, int32 and sint32 the validation as written is the intended one |
| NumericTypes.RangeEdges | parsers/int32.ts:12-14 | the 32-bit bounds are accepted at their edges and refused one past them; the 64-bit warning fires above 2^53 - 1 |
| NumericTypes.NotAnOverrideAcceptsBadValues | parsers/uint32.ts:9-15 | as written, uint32 accepts -1 and int64 accepts 0.5, which the intended check refuses |
| NumericTypes.MissingMethodRejectsAll | parsers/fixed32.ts:10-16 | as written, sfixed32, fixed32 and fixed64 fail every validation, while the intended check accepts fixed32 0 |
| NumericTypes.WholeValueRejectsLists | parsers/sfixed64.ts:11-17 | as written, a repeated sfixed64 never accepts a list; the intended check accepts every list of integers |
| BoolCodec.Decode | parsers/bool.ts:9-12 | the empty text is undefined; otherwise the result is true exactly for "true" |
| BoolCodec.DecodeText | parsers/bool.ts:9-12 | both booleans read back from `toString` |
| BoolCodec.OtherTextIsFalse | parsers/bool.ts:11 | every other non-empty text reads as false |
| StringCodec.EncodeAsWritten | parsers/string.ts:12 | the encoder as written returns undefined exactly for the empty string |
| StringCodec.CommonDelimitersSafe | parsers/string.ts:10-11 | "!", "?" and "&" are delimiters for which the codec is reversible |
| StringCodec.DecodeEncode | parsers/string.ts:8-22 | the corrected decoder reads every encoded string back, for every safe delimiter |
| StringCodec.EncodeAvoidsDelimiter | parsers/string.ts:13 | for a safe delimiter that is not a decimal digit, an encoded string never contains the delimiter, so a token's value cannot end it |
| StringCodec.EncodeChars | parsers/string.ts:13 | an encoded string uses only URI-encoded characters and `*` |
| StringCodec.AsWrittenCounterexample | parsers/string.ts:20-21 | as written, "!" encodes to "*21" but decodes back to "*!" |
| StringCodec.EmptyValueAsWritten | parsers/string.ts:12 | as written, the empty string's token is "!3sundefined"; corrected it is "!3s" and reads back "" |
| Base64StringCodec.DecodeEncode | parsers/base64-string.ts:8-28 | every string is read back from its URL-safe unpadded base 64 |
| Base64StringCodec.EncodeAlphabet | parsers/base64-string.ts:16 | the encoding uses only the URL-safe alphabet, without padding |
| Base64StringCodec.PaddingCountRestores | parsers/base64-string.ts:22 | `(3 * length) % 4` restores 0, 2 or 1 "=" for lengths 0, 2 and 3 modulo 4 |
| Base64StringCodec.DecodeAsWrittenEncode | parsers/base64-string.ts:27 | as written, decoding drops a leading U+FEFF and reads everything else back |
| Base64StringCodec.AsWrittenCounterexample | parsers/base64-string.ts:27 | as written, "﻿" comes back as "" |
| Base64Util.Uint8ArrayToBase64 | util/uint8array-to-base64.ts:1-9 | corrected (every "=" removed in the URL-safe form, as the Findings row says): the loop that builds the binary string and the encoding give `ToBase64` |
| Base64Util.RoundTrip | util/base64-to-uint8array.ts:1-5 | `base64ToUint8Array` reads back every byte array from the corrected `uint8ArrayToBase64`, URL-safe or not |
| Base64Util.ToBase64UrlSafe | util/uint8array-to-base64.ts:8 | the corrected URL-safe encoding is the URL-safe body without padding |
| Base64Util.ToBase64UrlAlphabet | util/uint8array-to-base64.ts:8 | the URL-safe encoding uses only the URL-safe alphabet |
| Base64Util.ToBase64AsWrittenUrlSafe | util/uint8array-to-base64.ts:8 | as written, one "=" is left exactly when the length is 1 modulo 3 |
| Base64Util.AsWrittenRoundTrip | util/uint8array-to-base64.ts:8 | as written, the round trip holds exactly for arrays whose length is not 1 modulo 3; the others are refused |
| Base64Util.AsWrittenCounterexample | util/uint8array-to-base64.ts:8 | [65] encodes as written to "QQ=", which `atob` refuses; corrected it is "QQ" |
| Base64Util.ReadBack | util/base64-to-uint8array.ts:4 | what the forgiving decode accepts, `base64ToUint8Array` returns as bytes |
| EnumTable.LookupCode | parsers/enum.ts:75-80 | finds a name exactly when some entry has the code (strict equality), and gives the first such entry's name |
| EnumTable.LookupName | parsers/enum.ts:82-87 | finds a code exactly when some entry has the name, and gives the first such entry's code |
| EnumTable.NameCodeName | parsers/enum.ts:75-87 | with distinct codes, looking up a name's code gives the name back |
| EnumTable.CodeNameCode | parsers/enum.ts:75-87 | with distinct names, looking up a code's name gives the code back |
| EnumTable.SetValueCore | parsers/enum.ts:23-34 | a number is kept exactly when it is a known code; a name becomes its code exactly when it is known; any other type is refused |
| EnumTable.SetValueCoreAll | parsers/enum.ts:49 | a list is converted exactly when each element is, element by element |
| EnumTable.SetValue | parsers/enum.ts:36-61 | undefined and the empty list clear the value; a list for a non-repeated field is refused; a single input succeeds exactly when `setValueCore` does and stores its code, as a one-element list when repeated; a non-empty list succeeds exactly when every element converts and stores the converted list; a stored value is a list exactly when repeated and holds known codes only |
| EnumTable.SetValueAsWritten | parsers/enum.ts:36-61 | as written, the setter succeeds only for undefined, because `this.options` is never assigned |
| EnumTable.OptionsUnsetCounterexample | parsers/enum.ts:54 | as written, setting the known name "A" raises a TypeError; read through `_options`, code 1 is stored |
| EnumTable.NamesOf | parsers/enum.ts:67 | the names of a list of codes exist exactly when every code is known, pointwise |
| EnumTable.GetValue | parsers/enum.ts:63-73 | a repeated field must hold a list and a non-repeated one must not; an unset non-repeated value reads as undefined |
| EnumTable.Validate | parsers/enum.ts:89-93 | passes exactly when a required field has a value and the argument, if a number, is a known code |
| EnumTable.SetThenGet | parsers/enum.ts:36-73 | setting a known name or code and reading back gives the name, in a list when repeated |
| EnumTable.SetThenGetList | parsers/enum.ts:36-73 | setting a non-empty list of known names and reading back gives the same list |
| Fields.NewField | parsers/core.ts:45-57 | a scalar, bytes or reserved field is created exactly when its options are valid; it is locked, holds no value, and has the class's letter |
| Fields.NewEnum | parsers/enum.ts:16-21 | an enum field is created exactly when its options are valid, locked, without a value, holding its codes |
| Fields.NewMessage | parsers/message.ts:12-16 | a message is created exactly when its options are valid, locked, with the given children and the default delimiter |
| Fields.ValidateLeaf | parsers/core.ts:143-148 | each class's check: numeric types by their type's check, bool/string/bytes by the base check, an enum by its lookup, reserved always passes; a value of the wrong element type is refused |
| Fields.ValidateMessage | parsers/message.ts:58-69 | a message passes exactly when it is not required-and-undefined, every child passes and has a field number, and the field numbers are distinct |
| Fields.UndefinedMessage | parsers/message.ts:51-56 | a message is undefined exactly when it has no present child |
| Fields.MessageUrl | parsers/message.ts:71-88 | a valid message's text is "" with no present child, otherwise its present children's texts joined, preceded when numbered by delimiter, number, "m" and the count of present children |
| Fields.MessageArray | parsers/message.ts:90-97 | a valid message's array holds each child's array at index field number - 1 and holes elsewhere |
| Fields.ValidChildrenNumbered | parsers/message.ts:62-68 | a valid message's children all have distinct field numbers |
| Fields.EncodeElemRoundTrip | parsers/core.ts:153-158 | every encodable value of a scalar, string, base 64 string or bytes field is decoded back by its class, and its text has no line terminator |
| Fields.LeafUrlRoundTrip | parsers/core.ts:165-185 | corrected, with the delimiter read literally: a valid numbered field's token, read into the same field holding anything, restores the field exactly |
| Fields.DecodedUrlRoundTrip | parsers/core.ts:176-185 | corrected, with the delimiter read literally: `fromUrl` of a token that parses and decodes to a valid value sets the field to it |
| Fields.EnumUrlRoundTrip | parsers/enum.ts:101-118 | corrected, with the delimiter read literally: an enum field's token, read back, restores the field |
| Fields.LeafUrlEmpty | parsers/core.ts:169-181 | an unset field encodes to "" and reading "" leaves it unset |
| Fields.BytesFromUrlEmpty | parsers/bytes.ts:36-42 | reading "" into a bytes field leaves it holding an empty byte array |
| Fields.NumericToken | parsers/core.ts:173 | 100 with field number 9 is "!9" + the type's letter + "100", for each numeric type |
| Fields.BoolToken | parsers/core.ts:173 | true with field number 2 is "!2btrue" |
| Fields.SetLeafValue | parsers/core.ts:132-136 | the setter stores the value exactly when it validates, and otherwise leaves the field unchanged with the error |
| Fields.ClearRequired | parsers/core.ts:132-136 | a required bool field can be set to undefined, and then fails validation |
| Fields.SetEnumValue | parsers/enum.ts:36-61 | after a successful enum set, the field holds known codes only |
| Fields.PutLookup | parsers/message.ts:29 | storing a field instance under a key replaces that key's field and leaves every other key's lookup alone |
| Fields.AssignInstance | parsers/message.ts:27-29 | a field instance in the input replaces or adds the child of that key |
| Fields.AssignPlain | parsers/message.ts:31-34 | a plain value for a missing key is ignored; for an existing key it goes to that child's setter |
| Fields.AssignFromOthers | parsers/message.ts:26-36 | keys that are not in the rest of the input keep their children |
| Fields.ClearEmpties | parsers/message.ts:20-24 | clearing a message (recursively) leaves it undefined, with the same children by name and kind |
| Fields.ClearAsWrittenRaises | parsers/message.ts:20-26 | as written, setting a message to undefined always throws (after clearing); a message without children would otherwise just pass |
| Fields.ReservedInert | parsers/reserved.ts:4-29 | a reserved field ignores every set, encodes to "" and null, reads as null, always validates and is never undefined |
| Fields.LockFieldNumber | parsers/core.ts:63-65 | locking sets the lock and changes nothing else |
| Fields.UnlockFieldNumber | parsers/core.ts:66-68 | unlocking clears the lock and changes nothing else |
| Fields.SetFieldNumber | parsers/core.ts:69-74 | a locked field refuses; otherwise success exactly for integers of at least 1, which become the field number; failure changes nothing |
| Fields.LockCycle | parsers/core.ts:63-74 | a new field refuses a field number; after unlocking it takes one; after locking again it refuses |
| Fields.DelimiterPushed | parsers/message.ts:45-49 | a delimiter one UTF-16 code unit long is set on the message and on every descendant |
| Fields.DelimiterRefusedBelow | parsers/message.ts:45-49 | a delimiter of two or more UTF-16 code units is set on the message itself, then the first scalar child refuses it |
| Fields.LeafArrayRoundTrip | parsers/core.ts:189-200 | a field's array form, given back to `fromArray` (bytes: decoded from base 64), restores the field |
| Fields.DecodeBase64Back | parsers/bytes.ts:45-52 | decoding a bytes field's base 64 strings gives back the bytes |
| Fields.BytesArrayUnchecked | parsers/bytes.ts:54-56 | an unset required bytes field returns undefined from `toArray` without validating, although it fails validation |
| Fields.LeafToUrlAsWrittenAgrees | parsers/core.ts:165-174 | apart from bytes fields and the empty string, the as-written `toUrl` is the corrected one |
| Fields.BytesNumberedAsWritten | parsers/bytes.ts:28-33 | as written, a numbered bytes field's `toUrl` returns undefined; corrected, it returns its token |
| Fields.EmptyStringEncoding | parsers/string.ts:13 | the corrected encoder gives "" for the empty string, under every safe delimiter |
| Fields.EmptyStringAsWritten | parsers/string.ts:12 | as written, a numbered field holding "" encodes its value as "undefined"; corrected, as "" |
| FieldObject.Field.New | parsers/core.ts:45-57 | the constructors: success exactly as the `Fields` constructor, with the new object holding its result; an enum without options is a TypeError |
| FieldObject.Field.LockFieldNumber | parsers/core.ts:63-65 | the new state only locks the field number |
| FieldObject.Field.UnlockFieldNumber | parsers/core.ts:66-68 | the new state only unlocks the field number |
| FieldObject.Field.SetFieldNumber | parsers/core.ts:69-74 | the new state and outcome are `Fields.SetFieldNumber`'s; it succeeds exactly when unlocked with an integer of at least 1, and a failure leaves the state unchanged |
| FieldObject.Field.IsUndefined | parsers/message.ts:51-56 | the loop over the children computes `Fields.IsUndefined` |
| FieldObject.Field.Validate | parsers/message.ts:58-69 | the loop over the children computes `Fields.Validate` |
| FieldObject.Field.ToArray | parsers/message.ts:90-97 | the loop that fills the slots computes `Fields.ToArray` |
| FieldObject.Field.SetValue | parsers/message.ts:18-37 | the setter ends in `Fields.SetValue`'s state and outcome |
| FieldObject.Field.AssignEntries | parsers/message.ts:26-36 | the loop over an assigned object's entries ends in `Fields.SetValue`'s state and outcome |
| FieldObject.Field.ClearChildren | parsers/message.ts:20-24 | the loop that clears each child ends in `Fields.ClearWith`'s state and outcome |
| FieldObject.Field.SetDelimiter | parsers/message.ts:45-49 | the loop that pushes the delimiter ends in `Fields.SetDelimiter`'s state and outcome |
| FieldObject.Field.FromUrl | parsers/core.ts:176-185 | the new state and outcome are `Fields.FromUrl`'s, which reads the delimiter literally (corrected) |
| FieldObject.Field.FromArray | parsers/core.ts:197-200 | the new state and outcome are `Fields.FromArray`'s |
| Schema.Build | index.ts:66-153 | an unknown name and a non-message are refused; a finished build is the full expansion; NonExistentType only when some reachable field type is unknown; running out of passes only when the expansion is deeper than the bound |
| Schema.TopLevel | index.ts:79-103 | the first layer: the top-level fields copied or as placeholders, or an unknown type |
| Schema.Pass | index.ts:105-150 | one pass turns a complete layer into the next complete layer, or finds an unknown type |
| Schema.ExpandItem | index.ts:108-146 | expanding one placeholder (enum or message) keeps the layer's invariant |
| Schema.ExpandMessage | index.ts:116-146 | a message placeholder gets its fields, one more level of entries |
| Schema.AddField | index.ts:124-144 | one field of an expanded message is added, copied or queued, keeping the invariant |
| Schema.ProtobufParser.constructor | index.ts:46-52 | a parser starts with the descriptor and an empty cache |
| Schema.ProtobufParser.Create | index.ts:54-158 | a cached name returns its cached description; otherwise the build's result is returned and cached on success; a returned description is the full expansion of the name |
| Schema.DescribesUnique | index.ts:54-158 | the expansion of a definition is unique, so the cache holds the same thing a rebuild would |
| Schema.FieldAtKeys | index.ts:124-125 | a field is found by key exactly when the key is among the definition's keys |
| Schema.FieldResolution | index.ts:83-101 | a static type is copied; otherwise the enclosing message's nested definition is used, else the top-level one, else the type is unknown |
| Schema.NoGrandparentLookup | index.ts:120-137 | a type nested in a grandparent is not found: only the enclosing message's nested definitions and the top level are searched |
| Schema.KeepsIdAndRule | index.ts:112-118 | an expanded entry keeps its field's id and rule, and is an enum exactly when its definition has values |
| Schema.TopEntries | index.ts:79-103 | the top-level entries are exactly the definition's field keys |
| Schema.UnderMessage | index.ts:130 | every deeper entry lies under a message entry |
| Schema.MessageEntries | index.ts:124-145 | the entries under a message entry are exactly its field keys |
| Schema.SelfReference | index.ts:105-150 | a message with one field of its own type expands forever along that field, and nowhere else |
| Schema.SelfReferenceNeverBuilt | index.ts:105-150 | such a message is never finished within any bound, and no type in it is unknown |
| Numbers.NatToDecimal | parsers/core.ts:173 | the decimal text of a number is a non-empty digit string with a leading zero only for 0 |
| Numbers.DecimalRoundTrip | parsers/core.ts:108 | `parseInt` of a field number's decimal text gives the number back |
| Numbers.NumberText | parsers/core.ts:157 | `toString` of NaN is "NaN" and of an integer below 10^21 its decimal text; other numbers are not rendered |
| Numbers.NumberTextRoundTrip | parsers/core.ts:210-212 | `Number()` reads every rendered finite number back |
| Text.DelimiterCodeExamples | parsers/string.ts:11 | the char code hex of "!", "*", "&" and newline is "21", "2A", "26" and "0A" |
| Uri.DecodeEncode | parsers/string.ts:13-21 | `decodeURIComponent` reads back every `encodeURIComponent` result |
| Uri.EncodeUnreserved | parsers/string.ts:13 | text made only of unreserved characters is left as it is |
| Utf8.DecodeEncode | parsers/base64-string.ts:12-27 | UTF-8 decoding reads back every UTF-8 encoding when the BOM is kept |
| Utf8.DecodeEncodeDefault | parsers/base64-string.ts:27 | the default decoder drops a leading U+FEFF and reads back everything else |
| Octets.BinaryStringRoundTrip | util/uint8array-to-base64.ts:5-6 | a byte array survives the binary-string conversion there and back |
| Base64.DecodeEncode | parsers/base64-string.ts:14-25 | the forgiving decode reads back every padded encoding |
| Base64.DecodeUnpadded | util/base64-to-uint8array.ts:2-4 | the forgiving decode also reads back every unpadded encoding |
| Base64.AtobBtoa | parsers/base64-string.ts:14-25 | `atob(btoa(s))` is `s` for every binary string |
| Base64.RejectsSinglePad | util/uint8array-to-base64.ts:8 | a body of length 2 modulo 4 followed by a single "=" is refused |
| Base64.RemoveWhitespace | util/base64-to-uint8array.ts:4 | `atob` first removes all ASCII whitespace: none is left, and text without whitespace is unchanged |
| Base64.RemoveWhitespaceAppend | util/base64-to-uint8array.ts:4 | removing whitespace keeps the order of the other characters: it distributes over concatenation |
| Base64.UrlSafeRoundTrip | util/base64-to-uint8array.ts:3 | mapping "+/" to "-_" and back restores text free of "-" and "_" |

## Left out

- Aliasing: a message's children are held as values, so the model does not capture one field object shared by two messages, or a field changed through an outside reference after being added.
- Error texts and the `name` option: only which error is raised is modelled, not its message.
- `console.warn` of the 64-bit types: stated as the predicate `NumericTypes.Warns`; no output is modelled.
- JavaScript numbers are exact reals plus NaN, without double rounding. `Number.prototype.toString` is modelled only for NaN and integers below 10^21. `Number()` parsing is modelled only for optionally signed decimal digits with an optional fraction. Infinity and `-0` are not modelled. Float single precision is not modelled either; the source does not check it.
- `JSON.parse`/`JSON.stringify`, and `_encodeValue` of an array (`JSON.stringify`): repeated fields cannot be URL-encoded, so that path is never taken by `toUrl`.
- `ProtobufParser` with a JSON text argument: the descriptor is taken already parsed.
- `MessagePBFField.from` is not part of this model: `create` is modelled up to the description it builds and caches, not the message built from it.
- `underConstructionDefinition` is set in the constructor and never read; it is left out.
- Schema.Build and Schema.ProtobufParser.Create carry a bound on the number of passes. On a recursive type the source loops forever; the model stops with `OutOfFuel`, and `Schema.SelfReferenceNeverBuilt` proves no bound suffices there.
- Schema.Build and Schema.ProtobufParser.Create: lodash paths whose keys contain "." are not modelled. Neither are names inherited from `Object.prototype`, such as `__proto__`, `toString` and `constructor`. The source's cache test (index.ts:61-65) and its definition lookups are truthy property reads, so they find those inherited members; for example, `create("toString")` takes the cached-definition branch. The model's lookups are on maps and refuse such names as unknown. Keys are assumed distinct within a definition, as in any JSON object.
- Schema.Build: when a missing type is found, the model does not record which fields were already pushed onto the worklist. The thrown error is the same, and nothing is cached either way.
- `fromUrl` and `fromArray` of a message and of a reserved field do not exist in the source; calling them is a TypeError, and the model returns that error.
- Values of the wrong JavaScript type (a string given to a numeric field, say) are refused with TypeError where the source would store them or fail later. A string or an array given to a message setter is one such case. The source enumerates it with `Object.entries`, so the index keys "0", "1", … go to the children of those names, if any, and are ignored otherwise. The model refuses it; passing those entries as an object (`Fields.Input.Fields`) has the source's effect.
- Fields.SetFieldNumber and Fields.SetDelimiter on a message write the one record the model keeps. In the source, a field number set after construction goes to `_options` (core.ts:73), while `urlEncode` reads `this.options.fieldNumber` (message.ts:77, 85). A message built without a field number therefore never gets the `!<n>m<count>` prefix, where `Fields.MessageUrl` gives it one. Likewise the message's delimiter setter writes `this.options` (message.ts:47), which the `delimiter` getter (core.ts:94) does not read. `this.options` is also the caller's own object, so later changes the caller makes to it are seen; that aliasing is not modelled either.
- The options of a reserved field (`this.options = options`) are not modelled; nothing reads them.
- EnumTable.GetValue does not state the names returned for a non-empty stored value; `EnumTable.SetThenGet` and `EnumTable.SetThenGetList` state them for values the setter produced.
- StringCodec.DecodeEncode holds for the delimiters `StringCodec.SafeDelimiter` admits (a single character that is not `*`, `2` or `A`, with hex code not starting "2A"), which covers "!", "?" and "&"; other delimiters are not covered.
- The concrete test vectors of the repository's tests (such as "SGVsbG8=") are not restated; the general round-trip lemmas cover them.
- Core.MatchToken reads the delimiter literally. The source puts a backslash in front of the delimiter in its pattern (core.ts line 105), which gives "d", "1", "" and the other special escapes another meaning (see "## Findings"); `Core.ParseUrlCoreAgrees` proves the two readings equal for the delimiters `Core.RegexLiteral` admits, which include "!", "?" and "&".
- Core.MatchTokenOfToken states its match with the delimiter literally. The source puts a backslash in front of the delimiter in its pattern (core.ts line 105), which gives "d", "1", "" and the other special escapes another meaning (see "## Findings"); `Core.ParseUrlCoreAgrees` proves the two readings equal for the delimiters `Core.RegexLiteral` admits, which include "!", "?" and "&".
- Core.ParseUrlCore reads the delimiter literally. The source puts a backslash in front of the delimiter in its pattern (core.ts line 105), which gives "d", "1", "" and the other special escapes another meaning (see "## Findings"); `Core.ParseUrlCoreAgrees` proves the two readings equal for the delimiters `Core.RegexLiteral` admits, which include "!", "?" and "&".
- Core.ParseToken is proved of the parse that reads the delimiter literally. The source puts a backslash in front of the delimiter in its pattern (core.ts line 105), which gives "d", "1", "" and the other special escapes another meaning (see "## Findings"); `Core.ParseUrlCoreAgrees` proves the two readings equal for the delimiters `Core.RegexLiteral` admits, which include "!", "?" and "&". `Core.ParseTokenAsWritten` states it of the source's parse under such a delimiter.
- Core.ParseTokenMismatch is proved of the parse that reads the delimiter literally. The source puts a backslash in front of the delimiter in its pattern (core.ts line 105), which gives "d", "1", "" and the other special escapes another meaning (see "## Findings"); `Core.ParseUrlCoreAgrees` proves the two readings equal for the delimiters `Core.RegexLiteral` admits, which include "!", "?" and "&". Under "1" the source reads "13i5" as field 13.
- Core.ParseTokenWrongLetter is proved of the parse that reads the delimiter literally. The source puts a backslash in front of the delimiter in its pattern (core.ts line 105), which gives "d", "1", "" and the other special escapes another meaning (see "## Findings"); `Core.ParseUrlCoreAgrees` proves the two readings equal for the delimiters `Core.RegexLiteral` admits, which include "!", "?" and "&". Under "d" the source refuses every token before adopting a field number.
- Fields.LeafUrlRoundTrip is proved of the `fromUrl` that reads the delimiter literally. The source puts a backslash in front of the delimiter in its pattern (core.ts line 105), which gives "d", "1", "" and the other special escapes another meaning (see "## Findings"); `Core.ParseUrlCoreAgrees` proves the two readings equal for the delimiters `Core.RegexLiteral` admits, which include "!", "?" and "&".
- Fields.DecodedUrlRoundTrip is proved of the `fromUrl` that reads the delimiter literally. The source puts a backslash in front of the delimiter in its pattern (core.ts line 105), which gives "d", "1", "" and the other special escapes another meaning (see "## Findings"); `Core.ParseUrlCoreAgrees` proves the two readings equal for the delimiters `Core.RegexLiteral` admits, which include "!", "?" and "&".
- Fields.EnumUrlRoundTrip is proved of the `fromUrl` that reads the delimiter literally. The source puts a backslash in front of the delimiter in its pattern (core.ts line 105), which gives "d", "1", "" and the other special escapes another meaning (see "## Findings"); `Core.ParseUrlCoreAgrees` proves the two readings equal for the delimiters `Core.RegexLiteral` admits, which include "!", "?" and "&".
- FieldObject.Field.FromUrl is tied to the `Fields.FromUrl` that reads the delimiter literally. The source puts a backslash in front of the delimiter in its pattern (core.ts line 105), which gives "d", "1", "" and the other special escapes another meaning (see "## Findings"); `Core.ParseUrlCoreAgrees` proves the two readings equal for the delimiters `Core.RegexLiteral` admits, which include "!", "?" and "&".
- Core.MatchTokenAsWritten: delimiters of two or more characters (which only the constructor's options can give) return `PatternNotModelled`; their later characters may be pattern syntax such as "." or "(", and a leading `\x`, `\u`, `\c` or digit may combine with them into one escape.
- Fields engine and Base64Util.Uint8ArrayToBase64: `Fields.ValidateLeaf`, `Fields.SetLeafValue`, `Fields.EncodeElem`, `Fields.ToUrl`, `Fields.FromUrl`, `Fields.SetValue` and `Base64Util.Uint8ArrayToBase64` follow the corrected behaviour of the eleven "## Findings" rows (the numeric checks, the string and base 64 codecs, the bytes token, the message setter, the padding, the literal delimiter, the enum options); only the as-written members named there state the source's own behaviour.
- StringCodec.DecodeEncode, Base64StringCodec.DecodeEncode, Uri.DecodeEncode and Utf8.DecodeEncode hold for every Dafny string, which holds only Unicode scalar values. A JavaScript string may hold a lone surrogate: `encodeURIComponent` then throws a URIError (string.ts line 13), and `TextEncoder` writes U+FFFD in its place, so the base 64 string round trip fails (base64-string.ts line 12). Neither is modelled.
- Key order of JavaScript objects with integer-like keys (which enumerate first) is not modelled; children are kept in insertion order.

## Findings

| source | as written | input that shows it | evidently intended | confidence | as-written member | corrected member |
|---|---|---|---|---|---|---|
| parsers/string.ts:20-21 | the decoder replaces the bare hex code ("21"), not "*21" | the string "!" with delimiter "!" encodes to "*21" and decodes to "*!" | replace "*" + hex back to the delimiter | high, not executed | StringCodec.AsWrittenCounterexample | StringCodec.DecodeEncode |
| parsers/string.ts:12 | the empty string encodes to undefined | a numbered string field holding "" gives "!3sundefined" | it encodes to "" | high, not executed | Fields.EmptyStringAsWritten | Fields.EmptyStringEncoding |
| parsers/base64-string.ts:27 | `TextDecoder` drops a leading byte order mark | "﻿" reads back as "" | decode with `ignoreBOM` | medium, not executed | Base64StringCodec.AsWrittenCounterexample | Base64StringCodec.DecodeEncode |
| util/uint8array-to-base64.ts:8 | `replace("=", "")` removes only the first "=" | [65] gives "QQ=", which `atob` refuses | `replaceAll("=", "")` | high, not executed | Base64Util.AsWrittenCounterexample | Base64Util.RoundTrip |
| parsers/bytes.ts:29-33 | a bare `return` ends the statement before the token | any numbered bytes field's `toUrl` is undefined | return the token | high, not executed | Fields.BytesNumberedAsWritten | Fields.LeafUrlRoundTrip |
| parsers/uint32.ts:9 | `_validateValue` is not the `validateValue` override (also int64, uint64, sint64) | uint32 -1 and int64 0.5 are accepted | the range check runs | high, not executed | NumericTypes.NotAnOverrideAcceptsBadValues | NumericTypes.Validate |
| parsers/fixed32.ts:10-11 | `this.validateValueCore` does not exist (also sfixed32, fixed64) | fixed32 0 fails validation with a TypeError | call `_validateValueCore` | high, not executed | NumericTypes.MissingMethodRejectsAll | NumericTypes.Validate |
| parsers/sfixed64.ts:15 | the integer check is applied to the whole value | a repeated sfixed64 holding [1] is refused | check each element | high, not executed | NumericTypes.WholeValueRejectsLists | NumericTypes.Validate |
| parsers/core.ts:105 | the pattern puts a backslash in front of the delimiter, so `\d`, `\1`, `\b` and the like are escapes, and the empty delimiter escapes the group's `(` | under delimiter "d" the token "d3i5" is refused; under "1", a field numbered 13 accepts "13i5"; under "", every value throws a SyntaxError | the delimiter matches itself literally | high, not executed | Core.EscapedDelimiterCounterexample | Core.ParseUrlCore |
| parsers/enum.ts:42 | enum code reads `this.options`, which no enum field assigns (also lines 54, 65, 91, 102, 105, 108, 113) | setting the known name "A" on a field with entry 1 = "A" throws a TypeError | read `_options` | high, not executed | EnumTable.OptionsUnsetCounterexample | EnumTable.SetValue |
| parsers/message.ts:20-26 | after clearing, the loop runs `Object.entries(undefined)` | setting any message to undefined throws a TypeError | return after clearing | high, not executed | Fields.ClearAsWrittenRaises | Fields.ClearEmpties |
