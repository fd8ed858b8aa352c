# Object identifiers of the kopia repository, in Dafny

This project models `repo/objectid.go`, the object identifier of a kopia
repository, together with its canonical string form. An identifier names
one of the following:
- a storage block, optionally behind levels of indirection and optionally with an encryption key;
- inline text;
- inline binary content;
- a byte range (section) of another identifier.

The model covers the following:
- the record and the null identifier;
- `String`, the serializer;
- `Validate`, the structural check;
- `InlineObjectID`, the text/binary classifier, and `isText`;
- `SectionObjectID`;
- the parser: `parseNumberUntilComma`, `parseSectionInfoString` and `ParseObjectID`.

Go strings are byte sequences (`Bytes.Str`). `int32` and `int64` are
subset types, and Go's truncating `int32(i)` conversion is written out.

Some library functions are modelled from their documented behaviour:
- `strconv.ParseInt`/`Atoi` are in `Decimal`;
- `hex` is in `Hex`;
- `base64.RawURLEncoding` is in `Base64Url`;
- `utf8.Valid` is in `Utf8`, using the table of section 4 of RFC 3629.

Modules:
- `Bytes`: bytes, machine integer ranges, and first/last byte search.
- `Decimal`, `Hex`, `Base64Url`, `Utf8`: the encodings the identifier uses.
- `ObjectIds`: the data model, `String`, `Validate`, `InlineObjectId`, `IsText` and `SectionObjectId`.
- `ObjectIdParser`: `ParseObjectId` and its helpers. Every failure is `Err(Malformed(s))`, Go's `NullObjectID` plus a "malformed object id" error.
- `RoundTrip`: how the serializer and the parser fit together.
- `ParseErrors`: which strings each tag accepts and which it refuses.
- `Examples`: the identifiers listed in the documentation (lines 31-40), and inputs at the edges of the grammar.

Where one might expect otherwise, the model follows the code:
- **Round trip.** Parsing a rendering does not give back every valid value exactly. It gives `RoundTrip.Canonical` of it:
  - any negative level comes back as 0: a storage block renders a non-positive level as a direct block, and no other variant renders its level at all;
  - a valid value may carry text next to an empty but present binary content, and the text is not rendered;
  - likewise a section next to an empty but present binary content validates, renders as `B` and is lost together with its base;
  - an empty but present binary content next to a storage block is dropped, since the block is rendered first;
  - the null identifier renders as `B`.
- **Parsing `B`.** It yields a present, empty binary content, not the null identifier: Go's decoder returns an empty non-nil slice. The model keeps nil apart from empty (`Option<seq<byte>>`) because `String` tests for nil and `Validate` tests the length.
- **Levels.** A level is not always non-negative. `I2147483648,x` is accepted and truncated to the int32 -2147483648.

## Model

| member | source | states |
|---|---|---|
| Bytes.IndexOf | repo/objectid.go:225 | The first position of the byte, or -1 exactly when it is absent; no earlier position holds it. |
| Bytes.LastIndexOf | repo/objectid.go:308 | The last position of the byte, or -1 exactly when it is absent; no later position holds it. |
| Decimal.FormatNat | repo/objectid.go:118 | `%v` of a natural number: non-empty, only digits, and a leading zero only for 0. |
| Decimal.Format | repo/objectid.go:103 | `%v` of an integer: the shortest digits of the magnitude, preceded by `-` exactly for negatives and never by `+`; never a comma or a dot. |
| Decimal.ParseInt64 | repo/objectid.go:230 | `strconv.ParseInt(s, 10, 64)`: accepted only as an optional sign followed by at least one digit, so a lone sign is refused; negative only with `-`, positive only without it. |
| Decimal.ParseFormat | repo/objectid.go:230 | Parsing gives back every int64 rendered with `%v`. |
| Decimal.PlusAndLeadingZeroAccepted | repo/objectid.go:293 | `Atoi` also accepts a `+` sign and leading zeros: `+0<n>` parses to n. |
| Decimal.ParseNumeral | repo/objectid.go:230 | A sign, any number of leading zeros and the digits of n parse to the signed value of n when it fits in int64, and are refused when it does not. |
| Decimal.NumeralForm | repo/objectid.go:230 | Every non-empty digit string is leading zeros followed by the shortest rendering of its value, so the previous row covers every numeral. |
| Decimal.FormatNatOfDigits | repo/objectid.go:230 | A digit string without leading zeros is the shortest rendering of its value. |
| Decimal.TruncateToInt32 | repo/objectid.go:300 | `int32(i)` equals i modulo 2^32 and leaves values in the int32 range unchanged. |
| Hex.Encode | repo/objectid.go:99 | Two lower-case hex digits per key byte. |
| Hex.Decode | repo/objectid.go:316 | Succeeds exactly on even-length strings of hex digits, and yields half as many bytes. |
| Hex.DecodeEncode | repo/objectid.go:99 | Decoding gives back every encoded key. |
| Hex.DecodeIgnoresCase | repo/objectid.go:316 | Decoding does not depend on the case of the digits. |
| Hex.UpperCaseKeyDecodes | repo/objectid.go:316 | A key written with upper-case digits decodes to the same bytes. |
| Base64Url.Char | repo/objectid.go:88 | The alphabet character of each 6-bit value decodes back to that value. |
| Base64Url.Encode | repo/objectid.go:110 | The unpadded encoding has `EncodedLen` characters, all from the URL-safe alphabet. |
| Base64Url.EncodePadBitsZero | repo/objectid.go:110 | The unused low bits of the last character of a partial quantum are zero (2 bits after two bytes, 4 after one), so with the decoding round trip every character of `EncodeToString` is fixed. |
| Base64Url.EncodedLenClosedForm | repo/objectid.go:171 | `EncodedLen(n)`, as Go computes it, equals ceil(8n/6). |
| Base64Url.RemoveNewlines | repo/objectid.go:278 | The decoder's CR/LF skipping leaves no CR or LF, and leaves text without them unchanged. |
| Base64Url.RemoveNewlinesAppend | repo/objectid.go:278 | Skipping newlines commutes with concatenation. |
| Base64Url.RemoveNewlinesSingle | repo/objectid.go:278 | On one byte exactly CR and LF are dropped and every other byte is kept; with the previous row, the non-newline bytes survive in order. |
| Base64Url.DecodeString | repo/objectid.go:278 | `RawURLEncoding.DecodeString`: with CR and LF skipped, it succeeds exactly on alphabet-only text whose length is not 1 modulo 4, yielding 6/8 of a byte per character. |
| Base64Url.DecodeQuanta | repo/objectid.go:278 | Decoding succeeds exactly when every character is in the alphabet and the length is not 1 modulo 4; it yields 6/8 of a byte per character. |
| Base64Url.DecodeQuantaEncode | repo/objectid.go:278 | Decoding gives back every encoding, quantum by quantum. |
| Base64Url.DecodeEncode | repo/objectid.go:110 | `DecodeString(EncodeToString(b)) == b` for all byte sequences. |
| Base64Url.PaddingRejected | repo/objectid.go:88 | Any `=` makes the unpadded decoder fail. |
| Utf8.Valid | repo/objectid.go:164 | `utf8.Valid` as the table of section 4 of RFC 3629; a valid sequence never starts with a continuation byte or with 0xC0, 0xC1 or 0xF5 and above. |
| Utf8.ValidAppend | repo/objectid.go:164 | Well-formed sequences concatenate to a well-formed sequence. |
| Utf8.AsciiIsValid | repo/objectid.go:164 | Pure ASCII passes `utf8.Valid`. |
| Utf8.BrokenSequencesInvalid | repo/objectid.go:164 | A lone continuation byte, or a lead byte without its continuation, fails `utf8.Valid`. |
| ObjectIds.EncryptionSuffix | repo/objectid.go:96-100 | The key suffix is empty exactly when the key is empty; otherwise it is `.` followed by lower-case hex digits that decode to the key. |
| ObjectIds.String | repo/objectid.go:94-122 | Which tag each value renders with, for all five tags, in Go's order of precedence: block, then non-nil binary, then non-empty text, then section, else `B`. For a dot-free block id, a `.` appears in the rendering exactly when there is a key. |
| ObjectIds.Validate | repo/objectid.go:125-160 | Accepts exactly the well-formed values: at most one variant, no level or key without a block, and a valid section base (recursively). An invalid section is reported exactly when the base is invalid, and first; otherwise two or more variants give the inconsistency error; a level without a block comes before a key without one. |
| ObjectIds.CountIsCardinality | repo/objectid.go:126-148 | Go's counter equals the number of distinct present variants, and "count at most 1" means no two distinct variants. |
| ObjectIds.AtMostOneIsNoTwo | repo/objectid.go:146-148 | A set of variants has at most one element exactly when any two of its elements are equal. |
| ObjectIds.JsonLength | repo/objectid.go:170-187 | The estimate exists exactly when no refused control byte occurs. It is one per byte, plus one per short escape, plus five per non-ASCII byte. |
| ObjectIds.InlineObjectId | repo/objectid.go:163-199 | The content is kept unchanged, as text or as binary, never both. It is text exactly when it is valid UTF-8, has no refused control byte, and its JSON estimate is strictly below ceil(8n/6). |
| ObjectIds.IsText | repo/objectid.go:201-209 | True exactly when no byte is below 32 other than tab, LF and CR. |
| ObjectIds.SectionObjectId | repo/objectid.go:212-220 | Only the section `{start, length, base}` is set and every other field is empty; the value is valid exactly when the base is. |
| ObjectIdParser.ParseNumberUntilComma | repo/objectid.go:224-236 | No comma gives "missing comma". On success, the number is the int64 before the first comma and the remainder is everything after it. |
| ObjectIdParser.ParseSectionInfo | repo/objectid.go:238-258 | A successfully parsed base is well-formed, and its block ids hold no `.`. |
| ObjectIdParser.ParseIndirectPrefix | repo/objectid.go:286-305 | `I` needs a comma, an `Atoi` level above 0 before the first comma, and a non-empty rest. The level is that value truncated to int32. |
| ObjectIdParser.ParseBlockAndKey | repo/objectid.go:307-326 | With no `.`, the whole content is the block. Otherwise the block is the non-empty prefix before the `.`, and the key is the non-empty hex decoding of the rest. |
| ObjectIdParser.ParseStorageBlock | repo/objectid.go:285-327 | An accepted `I`/`D` string is a well-formed block identifier; an `I` block id is never empty. |
| ObjectIdParser.ParseObjectId | repo/objectid.go:262-331 | Errors name the whole input. Accepted values are well-formed. The empty string and unknown tags are refused. `T` keeps the rest verbatim. |
| RoundTrip.Canonical | repo/objectid.go:94-122 | The representative of a rendering is well-formed and renders the same. |
| RoundTrip.CanonicalIdempotent | repo/objectid.go:94-122 | The representative of a representative is itself. |
| RoundTrip.BlockAndKeyRoundTrip | repo/objectid.go:307-326 | A dot-free block id with its rendered key suffix parses back to that block and key. |
| RoundTrip.NumberUntilCommaRoundTrip | repo/objectid.go:224-236 | `<n>,<rest>` parses back to n and rest. |
| RoundTrip.IndirectPrefixRoundTrip | repo/objectid.go:287-305 | A positive rendered level followed by a non-empty rest parses back unchanged. |
| RoundTrip.BlockRoundTrip | repo/objectid.go:95-106 | The storage-block renderings parse back to the canonical value. |
| RoundTrip.SectionInfoRoundTrip | repo/objectid.go:238-258 | `S<start>,<length>,<base>` gives back start, length and the parse of the base. |
| RoundTrip.SectionRoundTrip | repo/objectid.go:117-118 | A section renders to a string that parses back to the canonical value, whenever its base does. |
| RoundTrip.ParseOfString | repo/objectid.go:260-262 | Parsing the rendering of any value with dot-free block ids succeeds and yields its canonical form. |
| RoundTrip.StringParseString | repo/objectid.go:261 | Render, parse and render again gives the first rendering. |
| RoundTrip.ParsedValuesAreStable | repo/objectid.go:262-331 | Every accepted value renders to a string that parses back to its canonical form. |
| RoundTrip.CanonicalValuesRoundTrip | repo/objectid.go:260 | Canonical values are given back exactly. |
| RoundTrip.InlineRoundTrip | repo/objectid.go:163-199 | The inline identifier of every non-nil content survives rendering and parsing unchanged. |
| RoundTrip.NullAndEmptyBinaryCollide | repo/objectid.go:109-121 | The null identifier and the empty binary are distinct, both render as `B`, and `B` parses to the empty binary. |
| RoundTrip.EmptyBinaryHidesText | repo/objectid.go:109-137 | Text next to an empty binary validates, renders as `B`, and is lost on parsing. |
| RoundTrip.EmptyBinaryHidesSection | repo/objectid.go:109-137 | A section next to an empty binary validates, renders as `B`, and is lost with its base on parsing. |
| RoundTrip.EmptyBinaryBesideBlockDropped | repo/objectid.go:102-137 | A storage block with a non-negative level next to an empty binary validates and comes back as the block alone. |
| RoundTrip.NonPositiveLevelBecomesZero | repo/objectid.go:102-106 | A block with level at most 0 validates, renders as `D`, and parses back with level 0. |
| RoundTrip.NegativeLevelWithoutBlockLost | repo/objectid.go:102-160 | A negative level next to text validates, is not rendered, and comes back as 0. |
| ParseErrors.BlockAndKeyTwoSeparators | repo/objectid.go:307-309 | Two `.` in the block part are refused. |
| ParseErrors.RejectsTwoSeparators | repo/objectid.go:307-330 | Two `.` anywhere after an `I`/`D` tag are refused, even when one sits in the level. |
| ParseErrors.BlockAndKeyForms | repo/objectid.go:307-326 | `<id>.<key>` is accepted exactly when the id is non-empty and the key is hex for at least one byte; if so, the key is those bytes. |
| ParseErrors.DirectKeyForms | repo/objectid.go:306-326 | The same for `D<id>.<key>`, with level 0. |
| ParseErrors.DirectPlainForm | repo/objectid.go:309-312 | `D<id>` with no `.` is always accepted, with no key and level 0. |
| ParseErrors.IndirectRequiresComma | repo/objectid.go:288-292 | An `I` string without a comma is refused. |
| ParseErrors.IndirectPrefixRules | repo/objectid.go:293-305 | An accepted `I<p>,<rest>` has p an integer above 0, a non-empty rest, and the level p truncated to int32. |
| ParseErrors.IndirectPrefixSplit | repo/objectid.go:288-301 | The level is read up to the first comma, and the rest starts after it. |
| ParseErrors.IndirectKeyForms | repo/objectid.go:286-326 | `I<p>,<id>.<key>` is accepted exactly as `BlockAndKeyForms` says, with the truncated level. |
| ParseErrors.IndirectPlainForm | repo/objectid.go:300-312 | `I<p>,<id>` with valid p and a dot-free non-empty id yields that id at level int32(p). |
| ParseErrors.BinaryForms | repo/objectid.go:277-280 | `B<rest>` is accepted exactly when the rest, without newlines, is alphabet-only and not 1 modulo 4 long. |
| ParseErrors.SectionForms | repo/objectid.go:268-275 | `S<a>,<b>,<rest>` is accepted exactly when a and b are int64 and rest is accepted; the result is the section of the parsed rest. |
| ParseErrors.NumberUntilCommaSplit | repo/objectid.go:224-236 | With no comma in a, `<a>,<rest>` gives a's value and rest, or "bad number". |
| ParseErrors.SectionNeedsTwoCommas | repo/objectid.go:242-250 | An `S` string with fewer than two commas is refused. |
| ParseErrors.SectionInfoNeedsTwoCommas | repo/objectid.go:247-250 | The section info fails when the second comma is missing. |
| Examples.EmptyObject | repo/objectid.go:31 | `B` parses to the empty object (an empty binary content), and the null identifier renders as `B`. |
| Examples.StorageBlock | repo/objectid.go:33 | The documented direct block parses to that block id. |
| Examples.LevelOneIndirection | repo/objectid.go:34 | The documented `I1,` block parses with level 1. |
| Examples.LevelThreeIndirection | repo/objectid.go:35 | The documented `I3,` block parses with level 3. |
| Examples.EncryptedBlock | repo/objectid.go:36-37 | The documented encrypted block parses with its block id and a 32-byte key, the hex decoding of the suffix. |
| Examples.EncryptedIndirection | repo/objectid.go:38-39 | The documented encrypted level-2 block parses with level 2 and a 32-byte key. |
| Examples.Section | repo/objectid.go:40 | `S30,50,D…` parses to the section [30, 80) of that block. |
| Examples.PaddedInlineRefused | repo/objectid.go:32 | The documented padded inline example is refused by the unpadded decoder. |
| Examples.UnpaddedInlineAccepted | repo/objectid.go:32 | The same example without its padding parses to the bytes of "quick brown fox\n". |
| Examples.ZeroLevelRefused | repo/objectid.go:297-299 | `I0,xyz` is refused. |
| Examples.TwoSeparatorsRefused | repo/objectid.go:307-309 | `Dabc.deadbeef.00` is refused. |
| Examples.LenientLevel | repo/objectid.go:293 | `I+01,x` is accepted with level 1. |
| Examples.TruncatedLevel | repo/objectid.go:300 | `I2147483648,x` is accepted with level -2147483648. |
| Examples.TruncatedLevelRendersDirect | repo/objectid.go:102-106 | That value renders as `Dx`. |
| Examples.BareTags | repo/objectid.go:282-312 | `T` and `D` alone both parse to the null identifier. |

## Left out

- `MarshalJSON` and `UnmarshalJSON` (repo/objectid.go:52-68) are JSON string quoting around `String` and `ParseObjectID`; JSON itself is not modelled.
- The `HasObjectID` interface (repo/objectid.go:77-80) declares an accessor and has no behaviour.
- Error messages are reduced to their kind. The `ValidationError` kinds are kept. A parse error is `Malformed(input)`, because Go discards the inner error of `parseSectionInfoString` too.
- Recursion depth: section nesting is unbounded here, and stack exhaustion in Go is not modelled.
- The section base is owned by value; Go's pointer identity is not modelled.
- ObjectIds.InlineObjectId: nil content is not modelled, since its parameter is a plain byte sequence. In Go, `InlineObjectID(nil)` yields `NullObjectID`, which renders as `B` and parses back as a present but empty binary content, so it does not round-trip exactly.
- A nil and an empty encryption key are the same here: the code only ever tests the key's length.
- Library internals are modelled from their contracts, not from their code:
  - `strconv.Atoi` is taken to be `ParseInt(s, 10, 64)`, as on 64-bit platforms;
  - the base64 decoder is the non-strict one: newlines are skipped and unused trailing bits are ignored;
  - `utf8.Valid` follows the table of RFC 3629.
- ObjectIdParser.ParseSectionInfo: its own contract states only that the base is well-formed. The full behaviour is stated by `ParseErrors.SectionForms`, `ParseErrors.SectionNeedsTwoCommas` and `RoundTrip.SectionInfoRoundTrip`.
- RoundTrip.ParseOfString: requires that no block id contains `.`. The parser splits at `.`, so such ids cannot round-trip, and `String` does not guard against them.
- Examples.EncryptedBlock: states the key as the 32-byte hex decoding of the documented suffix, not as a byte-by-byte listing.
- Examples.EncryptedIndirection: likewise.

## Findings

| source | as written | input that shows it | evidently intended | confidence | as-written member | corrected member |
|---|---|---|---|---|---|---|
| repo/objectid.go:32 | the documented inline example carries `==` padding | `BcXVpY2sgYnJvd24gZm94Cg==` | `BcXVpY2sgYnJvd24gZm94Cg`, as the unpadded encoding at line 88 produces | high; not executed | Examples.PaddedInlineRefused | Examples.UnpaddedInlineAccepted |
