# Skill-template codec, modelled in Dafny

A skill template is a short text that describes a character build: a template
type, a version, a primary and a secondary profession, a map from attribute id
to attribute level, and eight skill ids in bar order. The codec in
`src/lib/util/template.ts` packs these fields into one bit stream. Each field is
written least-significant bit first, and its width is derived from the data.
The stream is then rendered six bits per character in the alphabet
`A–Z a–z 0–9 + /`.

The model has three layers, in the source's own terms:

- **Bit values** (`bit_value.dfy`, module `BitValue`): `valueToBinary`,
  `binaryToValue`, `reverseString` and `padBinaryRight`.
  - A bit string is a `seq<bool>` whose first element is the first character of
    the source's `'0'/'1'` string.
  - `ValueAt(bits, at, w)` is the value of the `w` bits from `at`. It is what
    `read` returns.
- **Alphabet** (`alphabet.dfy`, module `Alphabet`):
  - `getCharIndex` is the search loop of the source, as a method proved equal to
    a closed-form table function.
  - Also modelled: `base64ToBinary`, and `binaryToBase64` with its padding to
    whole sextets.
- **Field schema** (`template.dfy`, module `Template`):
  - `decodeTemplate` is a method with a forward-only cursor, an attribute loop
    and an eight-slot skill loop.
    - It is proved equal to the function `Decode`.
    - The reasons for rejection are made explicit as `DecodeError`.
  - `encodeSkillbar` has two forms:
    - `EncodeSkillbarAsWritten` is the encoder as written, over natural numbers.
    - `EncodeSkillbar` is corrected so that professions are written in the width
      the stored selector announces.

The laws are proved in two further modules:

- `template_laws.dfy` (module `TemplateLaws`): where every encoded field lies,
  and the full round trip `Decode(EncodeSkillbar(b)) == b`.
- `decode_laws.dfy` (module `DecodeLaws`): laws of decoding on any text, namely
  rejection, the shape of the result, cursor movement and re-encoding.

`odd_profession_width.dfy` (module `OddProfessionWidth`) holds the odd-width discrepancy.

Encoding is modelled as total, and `ValueToBinary` never truncates. The bounds
under which the fixed-width fields do not overflow are collected in
`TemplateLaws.Encodable`, which is the hypothesis of the round trip:

- type 14;
- version below 16;
- professions below 2^10;
- fewer than 16 attributes, with ids below 2^19 and levels below 16;
- exactly eight skills, each in 1 .. 2^23 − 1.

## Model

| member | source | states |
|---|---|---|
| `BitValue.BinaryToValue` | src/lib/util/template.ts:101 | reversing a bit string and parsing it in base 2 reads it least-significant bit first; the value is below 2^length |
| `BitValue.BinaryToValueIsLsb` | src/lib/util/template.ts:101-103 | parsing the reversed string in base 2 gives the least-significant-first reading of the original string |
| `BitValue.ToBase2` | src/lib/util/template.ts:99 | `v.toString(2)` has at least one digit and a leading 1 unless `v` is 0; `BitValue.BitLenBound` gives its length: at most `w` exactly when `v < 2^w` |
| `BitValue.ParseBase2` | src/lib/util/template.ts:101 | `parseInt(s, 2)` is below 2^length; `BitValue.BinaryToValueIsLsb` fixes its value on reversed strings |
| `BitValue.Reverse` | src/lib/util/template.ts:103 | `reverseString` keeps the length and puts element `i` at position `len - 1 - i` |
| `BitValue.PadRight` | src/lib/util/template.ts:97 | `padBinaryRight` has length `max(length, len)`, keeps the string as a prefix and appends only `'0'` bits |
| `BitValue.ValueToBinary` | src/lib/util/template.ts:99 | `valueToBinary(v, length)` has length `max(length, bits needed for v)` and never truncates |
| `BitValue.BitLenBound` | src/lib/util/template.ts:99 | `v` needs at most `w` bits exactly when `v < 2^w` |
| `BitValue.ValueRoundTrip` | src/lib/util/template.ts:99-103 | `binaryToValue(valueToBinary(v, length)) == v` for every `v` and `length` |
| `BitValue.FixedWidthRoundTrip` | src/lib/util/template.ts:99-103 | any non-empty bit string is rebuilt by `valueToBinary` at its own length from its value |
| `BitValue.LsbValueZeroTail` | src/lib/util/template.ts:97-101 | trailing `'0'` padding does not change the value read |
| `BitValue.ValueAtIsBinaryToValue` | src/lib/util/template.ts:19-23 | what `read(w)` returns at cursor `at` is `binaryToValue` of the substring `at .. at+w` |
| `BitValue.ValueAtBound` | src/lib/util/template.ts:19-23 | a `w`-bit read is below 2^w |
| `BitValue.ValueAtSplit` | src/lib/util/template.ts:19-23 | reading `a + b` bits equals reading `a` bits plus 2^a times the next `b` bits |
| `Alphabet.SymbolValue` | src/lib/util/template.ts:14 | the index of a character in the alphabet is below 64 when it exists |
| `Alphabet.SymbolsMatchTable` | src/lib/util/template.ts:14 | the closed-form index agrees with the 64-character table in both directions |
| `Alphabet.SymbolValueInjective` | src/lib/util/template.ts:14 | distinct alphabet characters have distinct indices |
| `Alphabet.GetCharIndex` | src/lib/util/template.ts:105-108 | the search loop finds the index of the character, or reports that there is none (the source throws) |
| `Alphabet.Base64ToBinary` | src/lib/util/template.ts:110 | a text of `n` alphabet characters expands to `6n` bits |
| `Alphabet.Base64ToBinaryAccepts` | src/lib/util/template.ts:105-110 | `base64ToBinary` succeeds exactly when every character is in the alphabet |
| `Alphabet.Base64ToBinaryAt` | src/lib/util/template.ts:110 | in an accepted text, character `k` is in the alphabet and bits `6k .. 6k+6` of the expansion are the 6-bit field of its index |
| `Alphabet.PadToSextets` | src/lib/util/template.ts:113 | the padded stream is the input followed by fewer than six `'0'` bits, and its length is a multiple of 6 |
| `Alphabet.GroupSymbol` | src/lib/util/template.ts:114 | a 6-bit group maps to the character whose index is the group's value |
| `Alphabet.Sextets` | src/lib/util/template.ts:114 | whole sextets give one character per six bits |
| `Alphabet.SextetsAt` | src/lib/util/template.ts:114 | character `k` of the rendering has as index the value of bits `6k .. 6k+6` |
| `Alphabet.BinaryToBase64` | src/lib/util/template.ts:112-115 | the text has one character per started sextet |
| `Alphabet.BinaryToBase64RoundTrip` | src/lib/util/template.ts:110-115 | expanding `binaryToBase64(bits)` gives `bits` padded to whole sextets, and gives `bits` itself when its length is a multiple of 6 |
| `Alphabet.Base64ToBinaryRoundTrip` | src/lib/util/template.ts:110-115 | `binaryToBase64(base64ToBinary(t)) == t` for every accepted text |
| `Alphabet.SextetsRoundTrip` | src/lib/util/template.ts:110-114 | rendering whole sextets and expanding them again is the identity |
| `Alphabet.SextetsOfBinary` | src/lib/util/template.ts:110-114 | the expansion of an accepted text is whole sextets that render back to the text |
| `Alphabet.GroupSymbolOfValue` | src/lib/util/template.ts:110-114 | the 6-bit field of a character's index renders back to that character |
| `Template.Read` | src/lib/util/template.ts:19-23 | a read succeeds exactly when its field lies within the stream; otherwise it fails as truncated |
| `Template.ReadFits` | src/lib/util/template.ts:19-23 | a successful read is below 2^width and re-encodes to exactly the bits read |
| `Template.ReadAttributes` | src/lib/util/template.ts:36-38 | the attribute loop can only fail on a short stream |
| `Template.ReadSkills` | src/lib/util/template.ts:42-48 | the skill loop fails only on a zero id or a short stream |
| `Template.ReadSkillsShape` | src/lib/util/template.ts:42-48 | a successful skill loop appends exactly `count` ids, none of them zero, and keeps what came before |
| `Template.DecodeProfessions` | src/lib/util/template.ts:27-29 | the selector and the two professions in `2·selector + 4` bits; `Template.DecodeProfessionsReads` shows it returns exactly those reads, and `DecodeLaws.DecodeHeaderWidths` bounds the width to 4 .. 10 |
| `Template.DecodeHeader` | src/lib/util/template.ts:24-32 | the header reads; `DecodeLaws.DecodeHeaderWidths` bounds every field and places the pairs, and `TemplateLaws.DecodeHeaderOfValues` shows it returns the values `encodeSkillbar` wrote |
| `Template.ReadSkillSection` | src/lib/util/template.ts:40-48 | the skill width then the eight skills; `DecodeLaws.SkillSectionFits` and `DecodeLaws.SkillSectionRead` give its length, bounds and contents |
| `Template.DecodeBody` | src/lib/util/template.ts:34-58 | the attribute loop then the skill section, assembled into the bar; `Template.ReadBody` is proved equal to it |
| `Template.DecodeBits` | src/lib/util/template.ts:17-58 | the header then the body over the bit stream; `DecodeLaws.DecodeBitsErrors` gives its failures and `Template.ReadTemplate` is proved equal to it |
| `Template.Decode` | src/lib/util/template.ts:16-59 | decoding fails for a character exactly when the text leaves the alphabet; a decoded bar has the default type and the input text as its template |
| `Template.DecodeTemplate` | src/lib/util/template.ts:16-59 | the cursor-and-loops decoder returns exactly `Decode(template)` |
| `Template.ReadHeader` | src/lib/util/template.ts:24-32 | the header reads with a moving cursor return exactly `DecodeHeader`, including the type rejection |
| `Template.ReadTemplate` | src/lib/util/template.ts:24-58 | the reads over a bit stream return exactly `DecodeBits` |
| `Template.ReadBody` | src/lib/util/template.ts:34-58 | the reads after the header return exactly `DecodeBody` |
| `Template.ReadAttributeLoop` | src/lib/util/template.ts:34-38 | the `for` loop over attribute pairs returns exactly `ReadAttributes`, with the map and the cursor after the pairs |
| `Template.ReadSkillLoop` | src/lib/util/template.ts:40-48 | the loop filling the eight-slot array returns exactly `ReadSkills`, stopping at the first zero |
| `Template.WidthBounds` | src/lib/util/template.ts:32-40 | a 4-bit excess gives attribute ids at most 19 bits and skill ids at most 23 |
| `Template.Widest` | src/lib/util/template.ts:65-79 | `Math.max(floor, ...bit lengths)` is at least the floor, holds every value, and is the floor or the width of one of the values |
| `Template.SortedIds` | src/lib/util/template.ts:69-71 | the ids listed by `Object.keys` / `Object.entries` all come from the map |
| `Template.SortedIdsOrdered` | src/lib/util/template.ts:69-71 | the listed ids are exactly the keys, each once, in ascending order, which is JavaScript's order for integer keys below 2^32 − 1 |
| `Template.Selector` | src/lib/util/template.ts:85 | `max(ceil((w − 4) / 2), 0)`: 0 up to width 4, and above it `2·selector + 4` is `w` or `w + 1` |
| `Template.Excess` | src/lib/util/template.ts:89-91 | `max(width − minimum, 0)` added to the minimum gives back `max(width, minimum)` |
| `Template.SkillBitsAtLeast` | src/lib/util/template.ts:79-80 | skills written in a width of at least 8 take at least 8 bits each |
| `Template.AttributeBitsAtLeast` | src/lib/util/template.ts:70-77 | (id, level) pairs with an id width of at least 4 take at least 8 bits each |
| `Template.EncodeFieldsAtLeast` | src/lib/util/template.ts:82-94 | the joined `template` array is at least as long as the minimum widths of all its fields: 4, 4, 2, two professions, 4, 4, 8 per attribute, 4, 8 per skill |
| `Template.EncodeFields` | src/lib/util/template.ts:82-94 | the `template` array joined: its length is the sum of its ten fields (`Template.EncodeFieldsLength`), and `TemplateLaws.DecodeFields` proves it decodes to the bar's fields |
| `Template.AttributeBits` | src/lib/util/template.ts:71-77 | each id in the id width, then its level in 4 bits; `TemplateLaws.AttributeBitsLength` and `TemplateLaws.EncodedAttributesAt` give its length and where each pair lies |
| `Template.SkillBits` | src/lib/util/template.ts:79-80 | each skill in the skill width; `Template.SkillBitsAtLeast` and `TemplateLaws.EncodedSkillsAt` give its length and where each skill lies |
| `Template.ProfessionWidthAsWritten` | src/lib/util/template.ts:65 | the profession width is at least 4, holds both professions, and is 4 or the width of one of them |
| `Template.ProfessionWidth` | src/lib/util/template.ts:65-85 | the corrected width is even, is at least 4, holds both professions, equals `2·selector + 4`, and exceeds the as-written width by at most 1 |
| `Template.EncodeSkillbarAsWritten` | src/lib/util/template.ts:61-95 | the text of the as-written encoder expands to its field stream padded to whole sextets |
| `Template.EncodeSkillbar` | src/lib/util/template.ts:61-95 | the text of the corrected encoder expands to its field stream padded to whole sextets |
| `TemplateLaws.AttributeBitsLength` | src/lib/util/template.ts:71-77 | the attribute pairs take `count · (idWidth + 4)` bits |
| `TemplateLaws.ValueField` | src/lib/util/template.ts:99 | a value written with `valueToBinary` at a position is read back there |
| `TemplateLaws.EncodedSkillsAt` | src/lib/util/template.ts:79-92 | each skill written in the skill width is read back at its own slot |
| `TemplateLaws.EncodedAttributesAt` | src/lib/util/template.ts:71-90 | each (id, level) pair written is read back at its own position |
| `TemplateLaws.ReadEncodedSkills` | src/lib/util/template.ts:42-48 | the skill loop over written non-zero skills returns them in order |
| `TemplateLaws.ReadEncodedAttributes` | src/lib/util/template.ts:36-38 | the attribute loop over written pairs returns their levels and moves the cursor past all pairs |
| `TemplateLaws.WithLevelsContents` | src/lib/util/template.ts:37 | the map after the loop holds the earlier keys and the read ids; read ids take the read level, and untouched keys keep theirs |
| `TemplateLaws.WithLevelsOfSortedIds` | src/lib/util/template.ts:37-71 | reading back every pair of a map, in key order, into an empty map rebuilds the map |
| `TemplateLaws.EncodableHeaderWidths` | src/lib/util/template.ts:62-89 | under the field bounds, type, version, selector, count and id excess fit their 4- and 2-bit fields, and professions are at most 10 bits |
| `TemplateLaws.EncodableBodyWidths` | src/lib/util/template.ts:70-79 | under the field bounds, every id and skill fits the width chosen for it, and the skill excess fits 4 bits |
| `TemplateLaws.HeaderValuesAt` | src/lib/util/template.ts:82-89 | each written header field lies at the offset decoding reads it from |
| `TemplateLaws.DecodeHeaderOfValues` | src/lib/util/template.ts:24-32 | decoding a written header returns the values written |
| `TemplateLaws.DecodeLayout` | src/lib/util/template.ts:16-59 | decoding the laid-out fields returns the header and body values that were written |
| `TemplateLaws.DecodeFields` | src/lib/util/template.ts:16-95 | the corrected encoder's stream, with any padding, decodes to the bar's fields |
| `TemplateLaws.DecodeEncode` | src/lib/util/template.ts:16-115 | round trip: every encodable bar decodes from its corrected encoding to itself, with the text as its template |
| `DecodeLaws.DecodeBitsErrors` | src/lib/util/template.ts:24-48 | reading bits never fails for a character; it fails for the type exactly when the first 4 bits are there and are not 14 |
| `DecodeLaws.DecodeRejectsUnknownSymbols` | src/lib/util/template.ts:105-110 | decoding fails for a character exactly when some character is outside the alphabet |
| `DecodeLaws.LowBitsOfSextet` | src/lib/util/template.ts:24 | the first 4 bits of a 6-bit field hold its value modulo 16 |
| `DecodeLaws.TypeOfFirstSymbol` | src/lib/util/template.ts:24 | the template type is the first character's index modulo 16 |
| `DecodeLaws.DecodeRejectsWrongType` | src/lib/util/template.ts:24-25 | a text is rejected for its type exactly when it is accepted by the alphabet, is non-empty, and the first character's index is not 14 modulo 16 |
| `DecodeLaws.ReadSkillsSucceeds` | src/lib/util/template.ts:43-48 | the skill loop succeeds exactly when every slot lies within the stream and reads non-zero |
| `DecodeLaws.ReadSkillsBound` | src/lib/util/template.ts:43-44 | every skill id read fits the skill width |
| `DecodeLaws.ReadSkillsContents` | src/lib/util/template.ts:43-44 | slot `j` of the skill loop holds the id read at `at + j·width`: ids are kept in stream order |
| `DecodeLaws.SkillSectionRead` | src/lib/util/template.ts:40-44 | skill `k` of the section is the `k`-th read of width `excess + 8` after the 4-bit excess |
| `DecodeLaws.SkillSectionFits` | src/lib/util/template.ts:40-48 | a decoded skill section is eight ids, each in 1 .. 2^23 − 1 |
| `DecodeLaws.DecodeHeaderWidths` | src/lib/util/template.ts:24-32 | the profession width is `2s + 4`, from 4 to 10; the pairs start at `4+4+2+2w+4+4` within the stream; every header value fits its field; the id width is 4 to 19 |
| `DecodeLaws.HeaderFits` | src/lib/util/template.ts:24-32 | decoded version and count are below 16, professions are below 2^10, and ids are at most 19 bits |
| `DecodeLaws.ReadAttributesAdvance` | src/lib/util/template.ts:36-38 | the attribute loop moves the cursor by `idWidth + 4` per pair and, once it reads a pair, stays within the stream |
| `DecodeLaws.ReadAttributesKeyCount` | src/lib/util/template.ts:36-38 | the loop adds at most one key per pair |
| `DecodeLaws.ReadAttributesKeys` | src/lib/util/template.ts:36-38 | every key the loop adds fits the id width with a level below 16, and untouched keys keep their level |
| `DecodeLaws.ReadAttributesKeysRead` | src/lib/util/template.ts:36-38 | every key after the loop was already there or is the id of a pair the loop read; nothing else is added |
| `DecodeLaws.ReadAttributesKeepsUntouched` | src/lib/util/template.ts:36-38 | a key that no pair still to be read carries keeps the level it had |
| `DecodeLaws.ReadAttributesLastWins` | src/lib/util/template.ts:36-38 | every pair whose id no later pair repeats is read and is in the map with its own level: of repeated ids, the last pair wins |
| `DecodeLaws.DecodeShape` | src/lib/util/template.ts:25-57 | a decoded bar has type 14, eight non-zero skills and the input text as its template |
| `DecodeLaws.DecodedSkillsRead` | src/lib/util/template.ts:16-48 | skill `k` of a decoded bar is the `k`-th skill read, right after the attribute pairs and the skill excess |
| `DecodeLaws.DecodedAttributesRead` | src/lib/util/template.ts:16-38 | every attribute id of a decoded bar is the id of one of the pairs read |
| `DecodeLaws.DecodedAttributeLevels` | src/lib/util/template.ts:16-38 | a pair whose id no later pair repeats gives that id its level in the decoded bar |
| `DecodeLaws.DecodedIsEncodable` | src/lib/util/template.ts:16-59 | every decoded bar satisfies the bounds under which encoding round-trips |
| `DecodeLaws.EncodeIgnoresTemplate` | src/lib/util/template.ts:61 | the encoded text does not depend on the bar's template field |
| `DecodeLaws.ReencodeIsStable` | src/lib/util/template.ts:16-95 | re-encoding a decoded bar gives a text that decodes to the same bar and encodes to itself |
| `OddProfessionWidth.AsWrittenAgreesWhenEven` | src/lib/util/template.ts:65-87 | when the raw profession width is even, the encoder as written and the corrected one produce the same text |
| `OddProfessionWidth.DecodeEncodeAsWritten` | src/lib/util/template.ts:16-95 | for an even raw profession width, the encoder as written round-trips through decoding |
| `OddProfessionWidth.OddWidthBar` | src/lib/util/template.ts:1-9 | a bar that satisfies the round-trip bounds, with professions 16 and 31 |
| `OddProfessionWidth.OddWidthOfProfessions` | src/lib/util/template.ts:65-85 | professions 16 and 31 give raw width 5 and stored selector 1 |
| `OddProfessionWidth.SelectorUnchanged` | src/lib/util/template.ts:65-85 | the stored selector is the same for the raw and the rounded width, so only the profession fields differ between the two encoders |
| `OddProfessionWidth.ShiftedPrimary` | src/lib/util/template.ts:27-28 | six bits read over a 5-bit 16 followed by a 5-bit 31 give 48 |
| `OddProfessionWidth.OddWidthBits` | src/lib/util/template.ts:82-94 | the as-written stream for such a bar has selector 1, then 16 and 31 in 5 bits each |
| `OddProfessionWidth.DecodedPrimaryOfShiftedBits` | src/lib/util/template.ts:27-28 | from such a stream, any decoded bar has primary profession 48 |
| `OddProfessionWidth.OddWidthBreaksRoundTrip` | src/lib/util/template.ts:65-87 | for every encodable bar with professions 16 and 31, the as-written encoding does not decode back to the bar |
| `OddProfessionWidth.AsWrittenFails` | src/lib/util/template.ts:16-95 | some bar within the round-trip bounds does not come back through the encoder as written and `decodeTemplate` |

## Left out

- `Template.Read`: a field that reaches past the end of the stream fails as `Truncated`.
  - The source's `substring` reads whatever bits remain, so a short field gets a smaller value, and an empty one gets `NaN`.
  - The model does not follow those values. A `NaN` skill is rejected like a zero one.
  - For attributes, a `NaN` key or level is stored.
- `BitValue.BinaryToValue`: the empty string reads as 0, while `parseInt("", 2)` is `NaN`. Decoding never reads an empty field: `Template.Read` fails as `Truncated` before it would.
- `Template.Decode`: the source returns `null` for a wrong type or a zero skill, and throws for a character outside the alphabet. These are the typed failures `WrongType`, `ZeroSkill` and `InvalidCharacter`.
- `TemplateLaws.DecodeEncode`: the round trip is stated under `Encodable`.
  - The source encodes any bar. A version, count, excess or level that does not fit 4 bits, or a profession wider than 10 bits, is written wider than its field, and the stream is then misread.
  - These overflows are not modelled as wrap-around. They are excluded by the hypothesis.
- The attribute pairs are encoded in ascending id order. That is the order `Object.keys` and `Object.entries` give for integer keys below 2^32 − 1. Larger keys come in insertion order, and keys that are not integer strings are not modelled: ids are natural numbers.
- `Template.EncodeSkillbarAsWritten`: values are unbounded natural numbers, while the source's are JavaScript doubles.
  - From 10^21 on, `toString()` gives exponent notation: `(1e21).toString()` is `"1e+21"`, so `parseInt` gives 1 and `valueToBinary(1e21, 0)` is `"1"`. The model writes `BitLen(10^21)`, that is 70, bits.
  - Above 2^53 a double no longer holds every integer. The model is exact for values below 2^53 and ids below 2^32 − 1, which includes every bar within the bounds of `Encodable`.
- The parameter type `Exclude<Skillbar, 'template'>` at line 61 removes nothing. The model takes a whole `Skillbar` and proves that the template field is ignored (`DecodeLaws.EncodeIgnoresTemplate`).
- `DEFAULT_VERSION` (line 12) is not used by the codec and has no counterpart.
- Non-numeric strings given to `valueToBinary`, and `parseInt` of such strings, are not modelled. All values are natural numbers.
- `packages/getSkills/import.ts` is not part of this model. It fetches and writes reference data and does not use the codec's logic.

## Findings

The corrected member is `TemplateLaws.DecodeEncode`, which proves the round trip with `Template.EncodeSkillbar`. That encoder writes both professions in `2·selector + 4` bits.

| source | as written | input that shows it | evidently intended | confidence | as-written member | corrected member |
|---|---|---|---|---|---|---|
| src/lib/util/template.ts:65-87 | the professions are written in the raw width `w = max(4, bits(primary), bits(secondary))`, while the stored selector is `ceil((w − 4) / 2)` and decoding reads `2·selector + 4` bits, one more than written when `w` is odd | primary 16, secondary 31 (both 5 bits, selector 1): decoding reads 6 bits for the primary and gets 48 | write the professions in the even width `2·selector + 4` the selector announces, so that decoding inverts encoding | high, proved; not executed | `OddProfessionWidth.OddWidthBreaksRoundTrip` | `TemplateLaws.DecodeEncode` |
