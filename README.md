# hackercodecs in Dafny

`hackercodecs.py` registers a handful of extra Python 2 codecs for the
`codecs` machinery. Each codec is a pair of transforms. A transform takes a
string and returns the transformed string together with a length. It
raises an exception when its input is malformed: an `AssertionError` from
one of its `assert`s, a `ValueError` from `int(c, 2)` in `bin_decode`, or a
`ZeroDivisionError` from `blocks` with size 0. This project models
three of the codecs, the block helper they share, and the codec table:

- `morse`: text to International Morse code and back, over the module's own
  table. The encoder upper-cases the text and joins the characters' patterns
  with single spaces. The decoder turns word gaps into `/`, splits on
  whitespace and looks each token up in the reversed table.
- `bin`: every byte becomes its eight binary digits, and every eight binary
  digits become a byte.
- `ascii85`: Adobe Ascii85 (section 7.4.3 of ISO 32000-1) without the
  `<~`/`~>` delimiters. Four bytes, read as a big-endian 32-bit word, become
  five base-85 digits `!`..`u`, and a zero word becomes `z`. The decoder also
  accepts the btoa 4.2 shorthand `y` for four spaces. It drops every
  character outside `!`..`u` and refills a short last group with `u`.
- `blocks(data, size)`: cuts a string into pieces of equal size, and fails
  when the length is not a multiple of the size.
- `CODECS_IN_FILE` and the search function registered with `codecs`: a name
  selects one codec's pair of transforms.

Python 2 byte strings are `Bytes`, sequences of characters below 256
(`Common`). Each of these exceptions is a `Failure` carrying an `Error`
that names what went wrong. Pure code is written as functions. Loops are
methods proved equal to the functions:

- the generator in `blocks` is `Blocks.SplitBlocks`;
- the loop of `bin_encode` is `Binary.Encode`;
- the block loop of `ascii85_encode`, with its inner digit loop, is
  `Ascii85.Encode`;
- the loops of `ascii85_decode` are `Ascii85.Decode`, `CheckPieces`,
  `DecodeBlocks` and `BlockValue`.

`Morse` works on `string` rather than `Bytes`. Its table is keyed by
characters, and `str.upper` is defined on any text. Every `Bytes` value is a
`string`, so its results apply to byte strings as they are.

`Radix` holds the fixed-width numerals behind `struct.pack(">I")`,
`struct.unpack(">I")`, Ascii85 groups and `'{0:0>8b}'`. `Text` holds the
string operations the transforms use.

The consumed lengths the transforms report are not always the length of their input:

- The second element `morse_decode` returns is the length of the rewritten
  string, not of its input.
- The second element `ascii85_encode` returns is the padded length.
- The second element `ascii85_decode` returns is the length after expansion,
  filtering and padding.
- `morse_encode` counts characters after upper-casing. For ASCII this is the
  same length.

## Model

| member | source | states |
|---|---|---|
| Blocks.Blocks | hackercodecs.py:72-76 | fails with `DivisionByZero` for size 0 and with `BlockSizeMismatch` when the length is not a multiple of the size, and succeeds exactly otherwise; on success every piece has the given size, there are length/size pieces, and concatenated they give the data back |
| Blocks.SplitBlocks | hackercodecs.py:72-76 | the generator loop, stepping an index by `size`, yields exactly the pieces (or the failure) of `Blocks` |
| Blocks.CollectChunks | hackercodecs.py:75-76 | the loop over `xrange(0, len(data), size)` collects exactly the pieces `Chunks` cuts, for a positive size that divides the length |
| Blocks.ChunksOfFlatten | hackercodecs.py:75-76 | cutting a concatenation of `n`-long pieces into blocks of `n` gives the same pieces back |
| Morse.SharedPattern | hackercodecs.py:16-20 | `B` and `D` share the pattern `-..`, and the reversed table maps it to `D` |
| Morse.TableFacts | hackercodecs.py:16-58 | the table maps each of its 40 characters to the pattern listed for it, and the reversed table maps each pattern back to its character, `-..` going to `D` |
| Morse.PatternInverse | hackercodecs.py:16-58 | every character of the table except `B` is recovered from its pattern by the reversed table |
| Morse.PatternOfSpace | hackercodecs.py:53 | the space, and no other character, is written `/` |
| Morse.PatternsOf | hackercodecs.py:87-88 | succeeds exactly when every character is in the table, giving each character's pattern in order; otherwise fails naming the first character the table lacks |
| Morse.Encode | hackercodecs.py:84-90 | succeeds exactly when every upper-cased input character is in the table, and then reports the input length; on failure names an upper-cased character the table lacks |
| Morse.EncodeSplits | hackercodecs.py:89 | splitting the encoder's output on whitespace gives back one pattern per input character, in order |
| Morse.LettersOf | hackercodecs.py:97-99 | succeeds exactly when every token is in the reversed table, giving the concatenation of each token's character in order; otherwise fails naming a token it lacks |
| Morse.LettersOfConcat | hackercodecs.py:97-99 | the letters of two token lists in a row are the letters of the first followed by those of the second |
| Morse.Rewrite | hackercodecs.py:95 | leaves an input without spaces or `/` unchanged |
| Morse.GapDecodes | hackercodecs.py:95-100 | two patterns separated by two spaces decode to their characters with a space between, reporting the length after the gap becomes ` / ` |
| Morse.GapDecodesTo | hackercodecs.py:95-100 | when a pattern, `/` and a pattern decode to some text, the two patterns with a double space between decode to that text, reporting the rewritten length |
| Morse.DoubleSpaceIsGap | hackercodecs.py:95 | `.  .` decodes to `E E`, reporting the rewritten length 5 |
| Morse.Decode | hackercodecs.py:93-100 | succeeds exactly when every whitespace-separated token of the rewritten input is a pattern of the table, and then reports the rewritten length; on failure names such a token |
| Morse.RoundTrip | hackercodecs.py:84-100 | decoding the encoding gives the upper-cased input, for any text over the table without `B`/`b` |
| Morse.BComesBackAsD | hackercodecs.py:18-20 | `B` encodes to `-..`, which decodes to `D` |
| Morse.SpaceIsSlash | hackercodecs.py:95 | `E E` encodes to `. / .`, which decodes back to `E E` with the rewritten length 7 |
| Morse.EncodeSos | hackercodecs.py:84-90 | `SOS` and `sos` both encode to `... --- ...` and report 3 |
| Radix.ValueOfDigits | hackercodecs.py:152-157 | the value of the `n` digits written for `v` is `v` modulo base to the `n` |
| Radix.DigitsOfValue | hackercodecs.py:187 | writing back the value of a numeral gives the same digits |
| Radix.DigitsPrefix | hackercodecs.py:158-159 | the leading `n - k` digits of `v` are the digits of `v` with its `k` low digits divided away |
| Radix.ValueBound | hackercodecs.py:186 | a numeral of `n` digits is below base to the `n` |
| Binary.Encoded | hackercodecs.py:103-109 | the output has eight binary digits per byte, and cut into blocks of eight gives each byte's digits in order |
| Binary.Encode | hackercodecs.py:103-109 | the loop appends the eight binary digits of each byte, and reports the input length |
| Binary.ParseOctet | hackercodecs.py:117 | `chr(int(group, 2))` succeeds exactly on eight binary digits, giving the byte whose digits they are; otherwise fails naming the group |
| Binary.Decode | hackercodecs.py:112-118 | fails with `BitCountMismatch` when the length is not a multiple of 8; succeeds exactly on binary digits, giving one byte per eight digits whose encoding is the input; otherwise fails with `NotBinary` naming a block of eight that is not binary |
| Binary.ParseOctetsFailure | hackercodecs.py:117 | a failed parse of the blocks names a block that is not eight binary digits |
| Binary.OctetInverse | hackercodecs.py:107 | each byte's eight digits are binary and read back as the byte |
| Binary.EncodedShape | hackercodecs.py:103-109 | the encoding has eight binary digits per byte, and its i-th block of eight reads back as the i-th byte |
| Binary.EncodedInjective | hackercodecs.py:103-109 | different byte strings have different encodings |
| Binary.RoundTrip | hackercodecs.py:103-118 | decoding the encoding of any byte string gives it back, with eight characters per byte |
| Binary.Examples | hackercodecs.py:103-118 | `A` is `01000001` and back; seven digits fail on the bit count, and a non-digit fails on its group |
| Ascii85.Word | hackercodecs.py:148 | the big-endian value of a block is below 256 to the power of its length |
| Ascii85.Pack | hackercodecs.py:187 | packing a word gives four bytes |
| Ascii85Laws.WordOfPack | hackercodecs.py:187 | unpacking the four bytes packed from a 32-bit word gives the word back |
| Ascii85.Encoded | hackercodecs.py:141-160 | reports a length that is a multiple of 4, at least the input length and less than 4 more |
| Ascii85.Padding | hackercodecs.py:144 | `bs - ((n % bs) or bs)` is below `bs`, completes `n` to a multiple of `bs`, and is 0 exactly when `n` already is one |
| Ascii85.KeepAlphabet | hackercodecs.py:173 | what the filter keeps is no longer than its input, lies in `!`..`u`, and is the whole input when all of it does |
| Ascii85Laws.KeepAlphabetConcat | hackercodecs.py:173 | what the filter keeps of a concatenation is what it keeps of each part, in order |
| Ascii85Laws.KeepAlphabetOne | hackercodecs.py:173 | a single character is kept exactly when it lies in `!`..`u` |
| Ascii85.Aligned | hackercodecs.py:165-167 | a text without the shorthand character passes that character's check |
| Ascii85.Expand | hackercodecs.py:169-172 | the expanded text holds neither `y` nor `z`, and a text without them is unchanged |
| Ascii85.Prepared | hackercodecs.py:169-176 | the expanded, filtered and `u`-padded input has a length that is a multiple of 5 |
| Ascii85.DecodeGroups | hackercodecs.py:178-187 | succeeds exactly when every group's value lies in 0..2^32-1, giving four bytes per group; otherwise fails naming a group out of range |
| Ascii85Laws.DecodeGroupsBytes | hackercodecs.py:178-187 | on success, the i-th four bytes of the output are the bytes of the i-th group's value, big-endian |
| Ascii85.Decoded | hackercodecs.py:163-190 | fails on `y` exactly when a piece before a `y` is not a whole number of groups, and on `z` exactly when the `y` pieces are whole and a `z` piece is not; on success reports the prepared length, a multiple of 5, and returns four bytes per group less the padding |
| Ascii85.Encode | hackercodecs.py:141-160 | the block loop and the inner digit loop return exactly the output and length of the encoder |
| Ascii85.EncodeBlock | hackercodecs.py:148-157 | one pass of the block loop writes `z` for a zero word and otherwise the five digits of the word, most significant first |
| Ascii85.LowDigits | hackercodecs.py:152-156 | the `divmod` loop collects the five base-85 digits of the word, least significant first |
| Ascii85.ReverseLowFirst | hackercodecs.py:152-157 | reversing the least-significant-first digits the inner loop collects gives the five digits most significant first |
| Ascii85.Decode | hackercodecs.py:163-190 | the validation loops, the expansion, the filter, the padding and the block loop return exactly `Decoded` |
| Ascii85.CheckPieces | hackercodecs.py:165-167 | the loop over the pieces of `split(c)` but the last answers whether they are all whole groups |
| Ascii85.BlockValue | hackercodecs.py:179-185 | the sum of the place values of five characters is the group's base-85 value |
| Ascii85.DecodeBlocks | hackercodecs.py:178-187 | the block loop returns what `DecodeGroups` does, stopping at the first group out of range |
| Ascii85Laws.BlockRoundTrip | hackercodecs.py:148-157 | a four-byte block's word fits 32 bits, its five digits read back as the word, and packing the word gives the block again |
| Ascii85Laws.WordZero | hackercodecs.py:148-151 | a block's word is 0 exactly when all its bytes are NUL, the case written `z` |
| Ascii85Laws.GroupEncoding | hackercodecs.py:148-157 | a block is written `z` exactly when its word is 0, and otherwise as five digits of the word |
| Ascii85Laws.DigitsInAlphabet | hackercodecs.py:65 | base-85 digits lie in the kept alphabet and are neither `y` nor `z` |
| Ascii85Laws.ExpandGroups | hackercodecs.py:169 | writing each `z` of an encoding out as `!!!!!` gives five digits per block, and an encoding holds no `y` |
| Ascii85Laws.EncodeGroupsClosed | hackercodecs.py:165-167 | every piece of an encoding's `split('z')` is a whole number of groups, so the encoder's output passes the `z` check |
| Ascii85Laws.DecodeFull | hackercodecs.py:178-187 | the digit groups of whole blocks decode to the blocks, ahead of whatever the later groups decode to |
| Ascii85Laws.LastGroup | hackercodecs.py:175-176 | a trimmed last group refilled with `u` is still a 32-bit word, and its leading bytes are the input's last bytes |
| Ascii85Laws.AgreesUnlessZeroTail | hackercodecs.py:141-160 | the encoder as written and the corrected one agree unless the bytes the padding completes are all NUL |
| Ascii85Laws.DecodeWhole | hackercodecs.py:163-190 | an encoding of whole blocks decodes to the blocks, reporting five characters per block |
| Ascii85Laws.DecodeTrimmed | hackercodecs.py:163-190 | whole blocks followed by a trimmed last group decode to the blocks and the input's last bytes |
| Ascii85Laws.RoundTripCorrected | hackercodecs.py:141-190 | decoding the corrected encoding of any byte string gives it back, reporting five characters per block |
| Ascii85Laws.RoundTrip | hackercodecs.py:141-190 | decoding the encoding gives the input back, unless the bytes the padding completes are all NUL |
| Ascii85Examples.ZeroBlock | hackercodecs.py:148-151 | four NUL bytes encode to `z` |
| Ascii85Examples.EncodeA | hackercodecs.py:141-160 | `A` encodes to `5l`, reporting the padded length 4 |
| Ascii85Examples.DecodeA | hackercodecs.py:163-190 | `5l` decodes to `A`, reporting the padded length 5 |
| Ascii85Examples.DecodeZ | hackercodecs.py:169 | `z` decodes to four NUL bytes |
| Ascii85Examples.DecodeY | hackercodecs.py:172 | `y` decodes to four spaces |
| Ascii85Examples.DecodeTooLarge | hackercodecs.py:186 | `uuuuu` fails as an invalid block, its value being above 2^32-1 |
| Ascii85Examples.MisplacedZ | hackercodecs.py:165-167 | a `z` after one digit fails as a misplaced `z` |
| Ascii85Examples.MisplacedY | hackercodecs.py:165-167 | a `y` after one digit fails as a misplaced `y` |
| Ascii85Examples.DropsForeign | hackercodecs.py:173-174 | without shorthands, decoding a text is decoding the characters of it in `!`..`u` |
| Ascii85Examples.DropsNewline | hackercodecs.py:173-174 | a line break inside `!!!!!` is dropped, and the text decodes to four NUL bytes |
| Ascii85Examples.ZeroTailLost | hackercodecs.py:158-159 | one NUL byte encodes to nothing, which decodes to nothing |
| Ascii85Examples.ZeroTailKept | hackercodecs.py:141-160 | the corrected encoder writes one NUL byte as `!!`, which decodes back to it |
| Registry.Search | hackercodecs.py:197-215 | finds an entry exactly for the five registered names, and that entry carries the name looked up; any other name fails with `UnknownCodec` |
| Registry.TableEntries | hackercodecs.py:197-212 | the table holds exactly the five names, each entry filed under its own name |
| Registry.SearchFinds | hackercodecs.py:197-211 | each registered name finds its own pair of transforms |
| Registry.SearchInjective | hackercodecs.py:197-211 | two names find the same transforms only if they are the same name |
| Registry.SearchExact | hackercodecs.py:215 | a name outside the table, or a registered name spelt differently, is not found |

## Left out

- `url` and `entity` are left out. Their transforms are `urllib2.quote`/`unquote`
  and `xml.sax.saxutils.escape`/`unescape`, library code that is not part of
  this model. The registry still lists both names.
- The call to `codecs.register` is left out, along with Python's own name
  normalisation and the `CodecInfo` machinery. `Registry.Search` is the
  lookup the search function performs. It returns a failure where the source
  raises `KeyError`.
- The `errors` parameter of every transform is left out, because no transform reads it.
- `blocks` is a lazy generator. Its pieces are modelled as a finished
  sequence, so the source's interleaving of block production with the
  decoder's work is not modelled. Every observable result is the same.
- Binary.ParseOctet: models `int(group, 2)` on eight characters that are all
  `0`/`1`. Python's `int` would also accept surrounding whitespace, a sign or
  a `0b` prefix. Such groups fail with `NotBinary` here.
- Text.Upper: `str.upper` changes only the ASCII letters, as in the C locale.
  Other locales are not modelled.
- Morse.RoundTrip: stated for text without `B`/`b`. The table gives `B` the
  pattern of `D`, so `B` comes back as `D` (`Morse.BComesBackAsD`).
- `re.findall('([!-u]*)')` joined back together is modelled as a filter
  (`Ascii85.KeepAlphabet`).
- `struct.pack(">I")` and `struct.unpack(">I")` are modelled as base-256
  numerals (`Radix`).
- The Ascii85 delimiters `<~` and `~>` are left out. The source neither
  writes nor strips them.

## Findings

| source | as written | input that shows it | evidently intended | confidence | as-written member | corrected member |
|---|---|---|---|---|---|---|
| hackercodecs.py:148-159 | a padded last block whose real bytes are all NUL is a zero word, so it is written `z`; `output[:-padding]` then cuts into that single character and drops the block | `"\0"` encodes to the empty string, which decodes to the empty string; with more data before it the tail bytes are lost or the output is cut mid-group | `z` only for a whole block of input (section 7.4.3 of ISO 32000-1); the last, partial block is written in digits and then trimmed, so that `"\0"` encodes to `!!` | high (not executed) | Ascii85Examples.ZeroTailLost | Ascii85.EncodedCorrected, Ascii85Laws.RoundTripCorrected |
