# simple-yenc, modelled in Dafny

simple-yenc packs binary data into JavaScript string literals using a
yEnc-like scheme. Each byte is shifted by an offset. A byte that would
break the surrounding literal is written as the pair `=` followed by the
shifted byte plus 64, modulo 256. This project models two revisions of the
codec. They share the HTML override table and the byte, hex and unshift
helpers of `Common`, and nothing else.

- **The src revision** (`src/simple-yenc.js`), module `SrcCodec`:
  - `encode`: classic yEnc with the fixed offset 42.
  - `dynamicEncode`: searches all 256 offsets for the shortest output for
    the chosen quote and writes a `DynEncode` + version `00` + offset
    header.
  - `decode`: reads such a header if there is one and undoes the escapes
    and the shift.
- **The dist revision** (`dist/index.js`, one minified line), module
  `DistCodec`:
  - Its `dynamicEncode` writes a `dynEncode` + version `01` + offset +
    CRC-32 header. It chooses the offset with a byte histogram weighted by
    a few escape pairs.
  - It ends with a fix-up for a trailing backslash.
  - Its `decode` also reads `\uXXXX` escapes in tagged input and rejects a
    body whose checksum does not match the header.
- **The CRC** (`Crc32`): the table-driven MSB-first CRC-32 of `dist`
  (polynomial 0x04C11DB7, seed 0xFFFFFFFF, no final xor, result read as a
  signed 32-bit number). It is proved equal to a bitwise reference. It is
  injective in the register, and it detects every single-byte change.
- **The override table** (`HtmlOverrides`): an HTML parser replaces a
  numeric character reference `&#128;`-`&#159;` by the Windows-1252 code
  point of that byte, and both decoders map such a code point back to its
  byte 0x80-0x9F. The model proves, for each decoder, that decoding is
  unaffected by the parser's substitution.

Strings are sequences of UTF-16 code units (`Unit`); byte arrays are
sequences of `Byte`. The source's `Uint8Array` stores become explicit
`% 256`. Its `Int32Array`/`DataView` arithmetic becomes `bv32` and
`ToInt32`.

## Model

| member | source | states |
|---|---|---|
| Common.Hex2 | src/simple-yenc.js:162 | the offset written as two hex digits parses back to the offset |
| HtmlOverrides.Slot | src/simple-yenc.js:24-57 | every non-hole slot of the override array holds a code point above 255 |
| HtmlOverrides.Lookup | src/simple-yenc.js:23-58 | a code point the map finds is one of the 33 slots of the array, and that slot holds it |
| HtmlOverrides.LookupSpec | src/simple-yenc.js:23-58 | the map lookup finds the slot holding a code point exactly when one exists, and misses every code point no slot holds |
| HtmlOverrides.LookupEntry | src/simple-yenc.js:23-58 | each of the 27 entries is found at its own slot; no two slots share a key |
| HtmlOverrides.Remap | src/simple-yenc.js:86-89 | units up to 255 are never remapped |
| HtmlOverrides.RemapKeys | src/simple-yenc.js:86-89 | a remapped unit is a table key above 255, and it becomes 127 plus its slot, a byte 0x80-0x9F; a unit that is no key is left alone |
| HtmlOverrides.RemapEntry | src/simple-yenc.js:86-89 | the code point of slot k is decoded as byte 127 + k |
| HtmlOverrides.Substitute | src/simple-yenc.js:24-57 | replacing a byte 0x80-0x9F by its Windows-1252 code point does not change what the remap yields |
| SrcCodec.EncodeByte | src/simple-yenc.js:5-16 | a byte whose shifted value is NUL, LF, CR or `=` becomes `=` plus one of 64, 74, 77, 125; any other byte becomes one unit that is not `=` |
| SrcCodec.Encode | src/simple-yenc.js:1-20 | output length is the input length plus the number of critical bytes; no NUL, LF or CR appears; every `=` is followed by an escaped value |
| SrcCodec.EncodeDecodeBody | src/simple-yenc.js:1-20 | decoding the body of `encode` at offset 42 gives back the input bytes |
| SrcCodec.ReadHeader | src/simple-yenc.js:68-74 | the body starts at 13 exactly when the string is longer than 13 units, starts with `DynEncode`, and has version hex 00 and a hex offset, which is then the offset; otherwise it starts at 0 with offset 42 |
| SrcCodec.HeaderRead | src/simple-yenc.js:68-74 | the header dynamicEncode writes, followed by a non-empty body, is read back as its offset with the body at 13 |
| Common.Unshift | src/simple-yenc.js:96-97 | the ternary store equals subtracting the offset modulo 256, for every value including 0 and negatives |
| SrcCodec.DecodeFrom | src/simple-yenc.js:78-98 | decoding never lengthens, and shrinks at most by half (each pair gives one byte) |
| SrcCodec.DecodeLength | src/simple-yenc.js:78-98 | the output has one byte per body unit, minus the `=` units that only set the escape flag |
| SrcCodec.Decode | src/simple-yenc.js:22-101 | the output is never longer than the input string |
| SrcCodec.DecodeStep | src/simple-yenc.js:78-98 | one iteration of the loop keeps "bytes written + decoding of the rest" unchanged |
| SrcCodec.DecodeLoop | src/simple-yenc.js:60-100 | the source's one-pass loop with the escape flag computes Decode |
| SrcCodec.AppendMarker | src/simple-yenc.js:81-84 | a trailing `=` yields a byte only when the flag is already set; otherwise it is dropped |
| SrcCodec.FixedRoundTrip | src/simple-yenc.js:22-101 | decode(encode(b)) == b whenever the encoded text does not start with the magic tag |
| SrcCodec.LegacyTagCollision | src/simple-yenc.js:68-74 | a 14-byte input whose `encode` output starts with `DynEncode00` decodes to [0] instead |
| SrcCodec.CollisionEncode | src/simple-yenc.js:1-20 | that input encodes to `DynEncode002a*` |
| SrcCodec.CollisionDecode | src/simple-yenc.js:68-98 | `DynEncode002a*` is read as a header with offset 0x2a and a body of one byte |
| SrcCodec.ReadHeaderSubstituted | src/simple-yenc.js:68-74 | the HTML substitution leaves the header reading unchanged |
| SrcCodec.DecodeSubstituted | src/simple-yenc.js:86-89 | decoding a string after the HTML substitution gives the same bytes as before it |
| SrcCodec.OverrideUnit | src/simple-yenc.js:86-89 | a table code point decodes like the byte it stands for, escaped or not |
| SrcCodec.ForeignUnit | src/simple-yenc.js:86-97 | a unit above 255 that the table does not hold is unshifted as it stands (less 64 if escaped), i.e. kept modulo 256 |
| SrcCodec.SearchFrom | src/simple-yenc.js:142-157 | the scan over the remaining offsets returns an offset of least length, and the smallest such offset |
| SrcCodec.BestOffset | src/simple-yenc.js:142-157 | the chosen offset gives the shortest body of all 256, and no smaller offset does as well |
| SrcCodec.EmitFrom | src/simple-yenc.js:165-174 | the body is one unit per byte plus one per escaped byte |
| SrcCodec.HeaderUnits | src/simple-yenc.js:159-163 | the header is 13 units long |
| SrcCodec.DynamicEncode | src/simple-yenc.js:103-177 | output starts with the header for the chosen offset and is no longer than the encoding at any other offset |
| SrcCodec.DynamicRoundTrip | src/simple-yenc.js:103-177 | decode(dynamicEncode(b, w)) == b for every non-empty b and every quote |
| SrcCodec.EmptyDynamicEncode | src/simple-yenc.js:68 | an empty input gives exactly the 13-unit header, which the decoder does not recognise (it needs more than 13 units), so it decodes to non-empty garbage |
| SrcCodec.EmitPairsClosed | src/simple-yenc.js:169-173 | every `=` in the body is followed by a further unit, and that unit is not `=`, so no pair is left open or opens another |
| SrcCodec.EmitSafe | src/simple-yenc.js:108-139 | for `"` and `'` the body holds no NUL, BS to CR, quote or backslash, and no unit `shouldEscape` flags other than `=` itself; for backtick it holds no CR, no backtick and no `${` |
| SrcCodec.EscapeShape | src/simple-yenc.js:108-139 | `=` is escaped under every quote; the two plain quotes decide on the byte alone, ignoring the next one |
| SrcCodec.DynamicEncodeSafe | src/simple-yenc.js:165-174 | the whole body of dynamicEncode is safe inside its quote and every escape pair is complete |
| Crc32.Crc32 | dist/index.js:1 | an empty input returns the seed as given; any other input returns a signed 32-bit value |
| Crc32.Checksum | dist/index.js:1 | with the default seed and polynomial, the empty input gives 4294967295 and any other input a signed 32-bit value |
| Crc32.FoldIsBitwise | dist/index.js:1 | the table-driven loop equals the bit-at-a-time MSB-first CRC of the polynomial |
| Crc32.StepInjective | dist/index.js:1 | one shift step of the table generator is injective when the polynomial is odd |
| Crc32.FoldInjective | dist/index.js:1 | different registers stay different after any data |
| Crc32.FoldAppend | dist/index.js:1 | the CRC of p + q continues from the CRC of p |
| Crc32.FoldDetectsByteChange | dist/index.js:1 | changing one byte anywhere changes the register |
| Crc32.SignedInjective | dist/index.js:1 | reading the register as a signed number loses nothing |
| Crc32.ChecksumDetectsByteChange | dist/index.js:1 | changing any one byte of a non-empty input changes the checksum |
| DistCodec.ToInt32 | dist/index.js:1 | the stored value is the signed 32-bit number congruent to the input |
| DistCodec.Int32RoundTrip | dist/index.js:1 | getInt32 of the bytes setInt32 wrote gives the number reduced to signed 32 bits |
| DistCodec.Int32Exact | dist/index.js:1 | a number already in int32 range survives the header unchanged |
| DistCodec.UnhexHexBytes | dist/index.js:1 | the header's hex byte reader inverts the hex writer |
| DistCodec.Hazards | dist/index.js:1 | the per-quote hazard lists have distinct byte values |
| DistCodec.HazardsEscaped | dist/index.js:1 | every value of the cost list `a` is one the escape predicate `i` flags; `i` flags a value outside `a` only under backtick, and only `$` or a backslash, whose escape depends on the next byte |
| DistCodec.Weight | dist/index.js:1 | for the two plain quotes every byte counts once in the histogram |
| DistCodec.SearchFrom | dist/index.js:1 | the scan over the remaining offsets returns an offset of least histogram cost, and the smallest such offset |
| DistCodec.BestOffset | dist/index.js:1 | the chosen offset minimises the histogram cost, and no smaller offset is as cheap |
| DistCodec.CostIsEscapes | dist/index.js:1 | for `"` and `'` the histogram cost at an offset is exactly the number of escapes at that offset |
| DistCodec.QuotedShortest | dist/index.js:1 | for `"` and `'` the output is no longer than the encoding at any other offset |
| DistCodec.BacktickCostMissesTemplate | dist/index.js:1 | for backtick the histogram cost misses `${`: `${` costs 0 at offset 0 but is escaped there |
| DistCodec.EmitFrom | dist/index.js:1 | the body before the fix-up is one unit per byte plus one per escaped byte |
| DistCodec.HeaderUnits | dist/index.js:1 | the header is 21 units, hex after the 9-unit tag |
| DistCodec.EncodeWith | dist/index.js:1 | the output is the header for the chosen offset and checksum followed by the body: exactly 21 units, plus one per byte, plus one per escaped byte, plus one when the fix-up replaces a final backslash; its header reads back as the chosen offset, body start 21 and the checksum as an int32 |
| DistCodec.DynamicEncode | dist/index.js:1 | output starts with the header for the chosen offset and the input's checksum |
| DistCodec.DynamicEncodeFixed | dist/index.js:1 | the same header, with the fix-up writing the escaped backslash |
| DistCodec.ReadHeader | dist/index.js:1 | untagged input decodes from 0 with offset 42; a tag with version 0 or 1 names the offset; version 0 starts the body at 13; only version 1 stores a checksum (the int32 in units 13-21, body at 21), and it throws exactly when the string is shorter than 21 units (getInt32 past the end); a later version keeps offset 42 and starts the body at 11, so the two offset digits are decoded as data |
| DistCodec.HeaderRead | dist/index.js:1 | the 21-unit header dynamicEncode writes is read back as its offset, the body start 21, and the checksum reduced to int32 |
| DistCodec.ReadHeaderSubstituted | dist/index.js:1 | the HTML substitution neither creates nor destroys a tag and leaves every header field the decoder reads unchanged |
| DistCodec.DecodeSubstituted | dist/index.js:1 | decoding a readable string after the HTML substitution gives the same result, bytes or checksum error, as before it; `\u` sequences and their digits are ASCII and stay |
| DistCodec.Decode | dist/index.js:1 | a successful decode is never longer than the input |
| DistCodec.UnicodeDecode | dist/index.js:1 | in tagged input, `\uXXXX` is one unit: the parsed code point, remapped, then unescaped and unshifted |
| DistCodec.UnicodeNeedsHeader | dist/index.js:1 | untagged input never treats `\u` specially |
| DistCodec.DecodeFailsExactly | dist/index.js:1 | decode fails the checksum exactly when the input is tagged version 1, at least 21 units, and the body's CRC differs from the stored one; otherwise it returns the decoded body |
| DistCodec.ReadUnit | dist/index.js:1 | reading one unit (a plain unit or a `\u` escape), remapping, unescaping and unshifting gives the byte of that position |
| DistCodec.DecodeFrom | dist/index.js:1 | the decoding loop from any state never yields more bytes than there are units left |
| DistCodec.DecodeLoop | dist/index.js:1 | the source's one-pass loop with escape flag, `\u` skip and checksum test computes Decode |
| DistCodec.IntendedFixRestores | dist/index.js:1 | with `=` plus 156 as the fix-up, the body decodes back to the input |
| DistCodec.WrittenFixCorrupts | dist/index.js:1 | with the written fix-up (`=` plus NUL), a body ending in backslash decodes with its last byte wrong |
| DistCodec.WrittenFixChecksum | dist/index.js:1 | that wrong last byte always changes the CRC |
| DistCodec.FixedRoundTrip | dist/index.js:1 | with the corrected fix-up, decode(dynamicEncode(b, w)) == b for every non-empty b and every quote |
| DistCodec.DynamicRoundTrip | dist/index.js:1 | as written, decode(dynamicEncode(b, w)) == b whenever the body does not end in a backslash |
| DistCodec.QuotedNeverTrailing | dist/index.js:1 | under `"` and `'` a backslash is always escaped, so the fix-up never fires |
| DistCodec.TrailingBackslashRejected | dist/index.js:1 | as written, under backtick, an input whose body ends in a backslash makes decode throw the CRC error |
| DistCodec.FreeOffsetZero | dist/index.js:1 | an input of cost 0 at offset 0 keeps offset 0 |
| DistCodec.BackslashCostsNothing | dist/index.js:1 | a lone backslash costs nothing under backtick |
| DistCodec.TrailingBackslashExample | dist/index.js:1 | the one-byte input [92] under backtick picks offset 0 and ends in a backslash |
| DistCodec.EmptyChecksum | dist/index.js:1 | the CRC of no bytes is the unsigned seed 4294967295, stored in the header as -1 |
| DistCodec.EmptyRejected | dist/index.js:1 | dynamicEncode of an empty array cannot be decoded: the decoder compares 4294967295 with the stored -1 and throws |
| DistCodec.BodyEndsClean | dist/index.js:1 | after either fix-up the body never ends in a backslash |
| DistCodec.DynamicEncodeSafe | dist/index.js:1 | the body is safe inside its quote (for backtick: no CR, backtick, `${` or `\u`/`\U`), every `=` has its partner, and the last unit is not a backslash |

## Left out

- `stringify` (both revisions): a chain of regular-expression replacements for embedding a string in a template literal. It has no decoding partner and no promise beyond the replacements themselves.
- `dist` `encode`: the same text as `src` `encode`, modelled once as `SrcCodec.Encode`.
- The `crc32` argument that `dist` `decode` and `dynamicEncode` accept in place of the built-in CRC. The model always uses the built-in one. `Crc32.Crc32` keeps the seed and polynomial parameters of the CRC function itself.
- `console.error` and the text of the thrown `Error`. They become the `CrcMismatch` value of a `Result`.
- A `stringWrapper` other than the three quotes. The `Quote` datatype has only the three values. On such a wrapper `src` `dynamicEncode` throws a TypeError calling the unassigned `shouldEscape` when the byte array is non-empty, and returns the bare header `DynEncode0000` when it is empty (neither loop runs). `dist` `dynamicEncode` throws a TypeError reading `a.length` in the offset search on every input, the empty one included, because `a` is never assigned.
- `Uint8Array` preallocation and `subarray`, the `Map` object, and `Int32Array`/`DataView` buffers. They are modelled by their values.
- SrcCodec.ReadHeader: a tagged header whose version or offset field is not two hex digits takes the no-header path. The source's `parseInt` reads a valid prefix of such a field, and a version `00` with an unparsable offset decodes every unit with a `NaN` offset (all zero bytes).
- DistCodec.Decode: requires `Readable` (the hex fields of a tagged header and the four digits after each `\u`/`\U` in tagged input are hex digits). The source's `parseInt` on other text yields a prefix value or `NaN`.
- DistCodec.BestOffset: states what the backtick histogram minimises, not that the output is shortest. For backtick that is false (`DistCodec.BacktickCostMissesTemplate`); the histogram is modelled as written.
- The CRC check value for `123456789` is not stated; `Crc32.FoldIsBitwise` ties the table to the polynomial instead.
- The test file and the rollup build configuration.

## Findings

| source | as written | input that shows it | evidently intended | confidence | as-written member | corrected member |
|---|---|---|---|---|---|---|
| dist/index.js:1 | the trailing-backslash fix-up calls the pair writer with the string `"\\"`, so it computes `("\\" + 64) % 256`, which is `NaN`, and pushes `=` followed by U+0000 | the byte array [92] under the backtick quote: offset 0 is chosen and the body is a lone backslash; decoding gives byte 192 and the CRC check throws | push `=` followed by (92 + 64) % 256 = 156, which decodes back to 92 | not executed | DistCodec.TrailingBackslashRejected | DistCodec.FixedRoundTrip |
