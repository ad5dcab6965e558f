# Test-file parser, byte codec and Yul variable-name cleaner

This project models two sequential pieces of the Solidity compiler's code base and proves properties of them.

1. **The semantic-test DSL** (`test/libsolidity/util/TestFileParser.*`, `test/libsolidity/SemanticTest.h`).
   - A test file ends in a comment block of function calls. Each call takes two lines:
     - a call line `f(uint256): 1, -2` with an optional ether clause `, <value>` and an optional `# comment`;
     - an expectation line `-> 3` or `REVERT`.
   - The parser reads this block line by line through a cursor (`Scanner`).
   - The codec turns a comma-separated list of decimal literals into bytes plus one `ByteFormat` per literal (`formattedStringToBytes`). It renders such bytes back as text (`bytesToFormattedString`).
   - `FunctionCallTest` stores the result of an executed call. It compares that result with the re-encoded expectation and can be reset.
2. **The Yul optimiser step `VarNameCleaner`** (`libyul/optimiser/VarNameCleaner.*`).
   - It cuts the numeric disambiguation suffix `(_+[0-9]+)+` off a variable name.
   - It keeps the stem when the stem is free. Otherwise it gives the variable the smallest free `stem_i`.
   - It records every old-to-new mapping, so that identifiers follow their declaration.

The model follows the source's own form.

- **Stateful entities are classes whose methods update fields:**
  - `Scanning.Scanner`: the current line, the cursor, and the lines read so far;
  - `TestFile.TestFileParser`: owns a scanner;
  - `SemanticTests.FunctionCallTest`;
  - `VarNameCleaning.VarNameCleaner`, whose `usedNames` is a `map`.
- **The source's loops are methods with loop invariants.** This covers the encoder and decoder, the whitespace skipping, the suffix search and the binary search.
- **Each method is proved equal to a function.** For example:
  - the parse methods compute the grammar functions `SignatureAt`, `ValueAt`, `ArgumentsAt`, `ExpectationsAt` and `ParseCallsFrom` of the line and cursor;
  - `FormattedStringToBytes` computes `Encode`;
  - `BytesToFormattedString` computes `Decode`.
- **What the source promises is proved as lemmas about those functions.** The main ones are:
  - one format per literal, and the bytes concatenated in order;
  - the error cases;
  - encode-then-decode round trips for every representable literal list, however it is spaced around its commas;
  - every parsed call re-encodes to the bytes stored with it;
  - everything about ordering needed for the name cleaner's sorted blacklist;
  - the uniqueness of the names the (corrected) cleaner hands out.
- **The 256-bit integers of the codec are `nat`, with the wrap-around at 2^256 written out** (module `U256`).

Where the code and its documentation disagree, the model follows the code.
- The ether clause passes the whole trimmed text before `:` to the u256 conversion. So `, 2 ether: 1` fails with "Ether value encoding invalid." (`TestFile.EtherUnitExample`), although the header documents `g(), 2 ether`. The documented rule is modelled beside it (`TestFile.ValueAtIntended`).
- A comma at the very end of a value list is accepted: `1,` encodes like `1` (`CodecLaws.TrailingCommaExample`).
- Two literals separated only by whitespace fail with the message of the expected `,`. The message is not "Argument encoding invalid.".
- The comment at the top of `VarNameCleaner.cpp` says `a_15, a_17` become `a, a_2`. The code gives `a, a_1` (`VarNameExamples.TakenStemExample`).

## Model

| member | source | states |
|---|---|---|
| Ascii.NatToDecimal | libyul/optimiser/VarNameCleaner.cpp:82 | the decimal text of a number (`to_string`, and `<<` of a u256) is at least one digit and has no leading zero unless the number is 0 |
| Ascii.DecimalRoundTrip | test/libsolidity/util/TestFileParser.cpp:124-127 | reading the rendered decimal text back gives the number |
| Ascii.NatToDecimalInjective | libyul/optimiser/VarNameCleaner.cpp:82 | different numbers have different decimal texts |
| Ascii.IsSpace | test/libsolidity/util/TestFileParser.cpp:47 | `isspace` in the C locale: space, tab, newline, vertical tab, form feed and carriage return |
| Ascii.IsDigit | test/libsolidity/util/TestFileParser.cpp:66 | `isdigit`: the ten decimal digits |
| Ascii.DecimalValue | test/libsolidity/util/TestFileParser.cpp:81 | the value of a digit string read in base 10 |
| U256.BigEndianValue | test/libsolidity/util/TestFileParser.cpp:121-127 | the value of an n-byte big-endian string is below 256^n |
| U256.ToBigEndian | test/libsolidity/util/TestFileParser.cpp:86 | `toBigEndian` writes exactly `width` bytes |
| U256.ToBigEndianValue | test/libsolidity/util/TestFileParser.cpp:86 | reading back the `width` bytes of v gives v modulo 256^width |
| U256.FirstByte | test/libsolidity/util/TestFileParser.cpp:117 | the first byte of a value that fits is its top base-256 digit |
| U256.ToBigEndianWord | test/libsolidity/util/TestFileParser.cpp:86 | `toBigEndian(u256)` is one 32-byte word |
| U256.FromBigEndian | test/libsolidity/util/TestFileParser.cpp:121-127 | `fromBigEndian<u256>` always yields a u256 (below 2^256) |
| U256.WordRoundTrip | test/libsolidity/util/TestFileParser.cpp:86-127 | a u256 written as a word and read back is unchanged |
| U256.QuotientAtLeast | test/libsolidity/util/TestFileParser.cpp:117 | a quotient reaches c exactly when the dividend reaches c times the divisor |
| U256.WordSignBit | test/libsolidity/util/TestFileParser.cpp:117 | `byteRange[0] & 0x80` is set on a word exactly when its value is at least 2^255 |
| U256.HighBitSet | test/libsolidity/util/TestFileParser.cpp:117 | the test `b & 0x80` on the first byte of a slice |
| U256.FlipBits | test/libsolidity/util/TestFileParser.cpp:119-120 | `v ^= 0xFF` on one byte gives 255 - v |
| U256.Complement | test/libsolidity/util/TestFileParser.cpp:119-120 | XOR with 0xFF keeps the length and turns each byte b into 255 - b |
| U256.ComplementValue | test/libsolidity/util/TestFileParser.cpp:119-121 | a complemented n-byte string reads as 256^n - 1 minus the original value |
| U256.WordComplement | test/libsolidity/util/TestFileParser.cpp:119-121 | a complemented word reads as 2^256 - 1 - v |
| U256.DecimalWord | test/libsolidity/util/TestFileParser.cpp:81 | digits read into a u256 one at a time stay below 2^256 |
| U256.DecimalWordValue | test/libsolidity/util/TestFileParser.cpp:81 | reducing at every digit gives the full decimal value modulo 2^256 |
| U256.Negate | test/libsolidity/util/TestFileParser.cpp:81 | two's-complement negation stays below 2^256 and adds up with w to 0 modulo 2^256 |
| U256.ParseU256 | test/libsolidity/util/TestFileParser.cpp:81 | `u256(string)` succeeds exactly on digits or a minus and digits, and its value is below 2^256 |
| U256.ParseValue | test/libsolidity/util/TestFileParser.cpp:81 | the converted value is the decimal value mod 2^256, negated in two's complement after a minus |
| U256.ParseRendered | test/libsolidity/util/TestFileParser.cpp:81-127 | the rendered text of any u256 converts back to it; `-n` converts to 2^256 - n for 0 < n <= 2^255 |
| Lexing.SkipSpaces | test/libsolidity/util/TestFileParser.cpp:44-49 | `skipWhitespace` stops at the end of the line or on a non-space, never before the cursor |
| Lexing.SkipSpacesSkipsSpaces | test/libsolidity/util/TestFileParser.cpp:44-49 | everything `skipWhitespace` passes over is whitespace |
| Lexing.SkipSlashes | test/libsolidity/util/TestFileParser.cpp:51-56 | `skipSlashes` passes over slashes only and stops on a non-slash or the end |
| Lexing.FindChar | test/libsolidity/util/TestFileParser.cpp:257-258 | the scanning loops stop on the first occurrence of the character, or at the end of the line |
| Lexing.Expect | test/libsolidity/util/TestFileParser.cpp:37-42 | `expect` succeeds exactly when the character stands at the cursor, and then moves past it; otherwise it fails with "Invalid test expectation. Expected: ..." |
| Lexing.ExpectMessage | test/libsolidity/util/TestFileParser.cpp:37-42 | the message `expect` throws: "Invalid test expectation. Expected: \"c\"." |
| Lexing.TrimRight | test/libsolidity/util/TestFileParser.cpp:194 | right trimming removes exactly a trailing run of whitespace |
| Lexing.Trim | test/libsolidity/util/TestFileParser.cpp:194 | `boost::algorithm::trim` leaves the slice between the leading and trailing whitespace |
| Lexing.SkipWhitespace | test/libsolidity/util/TestFileParser.cpp:44-49 | the loop of `skipWhitespace` computes `SkipSpaces` |
| Lexing.SkipSlashesFrom | test/libsolidity/util/TestFileParser.cpp:51-56 | the loop of `skipSlashes` computes `SkipSlashes` |
| ByteCodec.NewFormat | test/libsolidity/util/TestFileParser.h:39-47 | a new `ByteFormat` has the given type and the default size 32 |
| ByteCodec.StartsNumber | test/libsolidity/util/TestFileParser.cpp:66 | a token starts like a number: a digit, or a minus directly followed by a digit |
| ByteCodec.TokenEnd | test/libsolidity/util/TestFileParser.cpp:75-77 | a token runs to the first whitespace or comma, or to the end |
| ByteCodec.EncodeNumber | test/libsolidity/util/TestFileParser.cpp:83-86 | zero becomes one byte; every other value a 32-byte word |
| ByteCodec.EncodeNumberValue | test/libsolidity/util/TestFileParser.cpp:83-86 | the bytes of a value read back as the value |
| ByteCodec.Prepend | test/libsolidity/util/TestFileParser.cpp:87-88 | a literal's bytes and format go in front of the encoding of what follows it; an error passes through |
| ByteCodec.PrependTwice | test/libsolidity/util/TestFileParser.cpp:87-88 | prepending twice is prepending the concatenations |
| ByteCodec.PrependNothing | test/libsolidity/util/TestFileParser.cpp:87-88 | prepending nothing changes nothing |
| ByteCodec.EncodeFrom | test/libsolidity/util/TestFileParser.cpp:63-64 | the loop from cursor `i`: nothing is left at the end, otherwise it goes on from the literal there; every format it emits has the default size 32 |
| ByteCodec.EncodeLiteral | test/libsolidity/util/TestFileParser.cpp:66-101 | one pass of the loop body and the rest of the loop: every format emitted from a literal on has the default size 32 (its error cases are `CodecLaws.EncodeErrors`) |
| ByteCodec.Encode | test/libsolidity/util/TestFileParser.cpp:59-104 | `formattedStringToBytes` of the whole text: the loop started at the first character |
| ByteCodec.FormattedStringToBytes | test/libsolidity/util/TestFileParser.cpp:59-104 | the loop of `formattedStringToBytes` computes `Encode` of the whole text, errors included |
| ByteCodec.SumSizes | test/libsolidity/util/TestFileParser.cpp:129 | the number of bytes the formats step over |
| ByteCodec.Decodable | test/libsolidity/util/TestFileParser.cpp:111-133 | what the decoder needs: each format's slice lies within the bytes, a signed slice has a first byte, and the last slice ends at the end of the bytes |
| ByteCodec.DecodableCoversBytes | test/libsolidity/util/TestFileParser.cpp:111-133 | formats the decoder can walk cover the bytes exactly |
| ByteCodec.CoveringFormatsDecodable | test/libsolidity/util/TestFileParser.cpp:111-133 | formats whose sizes add up to the byte count, with no empty signed entry, can be walked |
| ByteCodec.RenderValue | test/libsolidity/util/TestFileParser.cpp:114-128 | each rendered entry is non-empty and ends in a digit |
| ByteCodec.Decode | test/libsolidity/util/TestFileParser.cpp:106-135 | the rendering is empty exactly when there are no formats, and never ends in a separator |
| ByteCodec.FormatSlice | test/libsolidity/util/TestFileParser.cpp:113-128 | the in-place XOR loop over a signed slice renders `RenderValue` |
| ByteCodec.DecodeAdvance | test/libsolidity/util/TestFileParser.cpp:130-132 | the decoder takes `size` bytes per format and writes `,` only while bytes remain |
| ByteCodec.BytesToFormattedString | test/libsolidity/util/TestFileParser.cpp:106-135 | the loop of `bytesToFormattedString` computes `Decode` |
| CodecLaws.TokensFormats | test/libsolidity/util/TestFileParser.cpp:88 | there is one format per literal |
| CodecLaws.ValidToken | test/libsolidity/util/TestFileParser.cpp:66-81 | a literal the encoder accepts: it starts like a number, holds no whitespace or comma, and converts to a u256 |
| CodecLaws.TokenFormat | test/libsolidity/util/TestFileParser.cpp:68-73 | a literal's format is `SignedDec` exactly when it starts with `-`, with the default size |
| CodecLaws.TokenBytes | test/libsolidity/util/TestFileParser.cpp:81-86 | a literal's bytes are those of its converted value |
| CodecLaws.AllValid | test/libsolidity/util/TestFileParser.cpp:64-101 | every literal of a list is one the encoder accepts |
| CodecLaws.TokensBytes | test/libsolidity/util/TestFileParser.cpp:87 | the literals' bytes, concatenated in order |
| CodecLaws.JoinComma | test/libsolidity/util/TestFileParser.cpp:130-132 | the normal form: the literals separated by single commas, as the decoder writes them |
| CodecLaws.Blank | test/libsolidity/util/TestFileParser.cpp:44-49 | a text of whitespace only |
| CodecLaws.BlankGaps | test/libsolidity/util/TestFileParser.cpp:98-101 | each gap holds whitespace only, before and after its comma |
| CodecLaws.Spaced | test/libsolidity/util/TestFileParser.cpp:98-101 | a list of literals as a file may write it: whitespace on either side of each comma and after the last literal |
| CodecLaws.NoGaps | test/libsolidity/util/TestFileParser.cpp:98-101 | n gaps without whitespace, which are blank |
| CodecLaws.JoinCommaSpaced | test/libsolidity/util/TestFileParser.cpp:98-101 | the normal form is the spaced layout without any whitespace |
| CodecLaws.SpacedStart | test/libsolidity/util/TestFileParser.cpp:66 | a spaced list starts with the first character of its first literal |
| CodecLaws.SkipBlank | test/libsolidity/util/TestFileParser.cpp:44-49 | `skipWhitespace` passes over a run of whitespace and stops at the first non-space after it, or at the end |
| CodecLaws.SpacedLast | test/libsolidity/util/TestFileParser.cpp:98-101 | after the last literal of a spaced list that runs to the end, skipping whitespace reaches the end |
| CodecLaws.SpacedNext | test/libsolidity/util/TestFileParser.cpp:98-101 | after the first literal of a longer spaced list, skipping whitespace reaches its comma, and skipping the whitespace after the comma reaches the rest of the list |
| CodecLaws.TokenEndAt | test/libsolidity/util/TestFileParser.cpp:75-77 | a token ends at the first whitespace or comma |
| CodecLaws.TokenAt | test/libsolidity/util/TestFileParser.cpp:66-81 | a valid literal at the cursor, followed by whitespace, a comma or the end, is the token the encoder cuts out there, with the same value and sign |
| CodecLaws.EncodeNumberAt | test/libsolidity/util/TestFileParser.cpp:66-101 | a number token that converts to v and is followed by whitespace and then the end or a comma: its bytes and format come first, and the loop goes on after the comma and the whitespace behind it |
| CodecLaws.EncodeToken | test/libsolidity/util/TestFileParser.cpp:64-101 | the same for a valid literal standing at the cursor |
| CodecLaws.EncodeSpacedToken | test/libsolidity/util/TestFileParser.cpp:98-101 | a valid literal followed by whitespace and a comma: its bytes and format come first, and the loop goes on after the whitespace behind the comma |
| CodecLaws.EncodeLast | test/libsolidity/util/TestFileParser.cpp:64-103 | a single valid literal followed only by whitespace encodes to its own bytes and format |
| CodecLaws.EncodeCons | test/libsolidity/util/TestFileParser.cpp:64-103 | when the first literal is encoded in front of the rest and the rest encodes to its literals, the whole list encodes to its literals |
| CodecLaws.EncodeAtEnd | test/libsolidity/util/TestFileParser.cpp:64 | at the end of the text nothing is left to encode |
| CodecLaws.TokensCons | test/libsolidity/util/TestFileParser.cpp:87-88 | the bytes and formats of a list are those of its first literal followed by the rest's |
| CodecLaws.EncodeTokensFrom | test/libsolidity/util/TestFileParser.cpp:63-103 | a spaced list of valid literals, with any whitespace around its commas and after the last literal, running from any cursor to the end, encodes to their bytes concatenated in order and one format per literal |
| CodecLaws.EncodeTokens | test/libsolidity/util/TestFileParser.cpp:59-104 | `formattedStringToBytes` of every spacing of a list of valid literals emits one format per literal in order and the in-order concatenation of their bytes |
| CodecLaws.FirstFormatKind | test/libsolidity/util/TestFileParser.cpp:66-73 | a successful encoding started at a number, and the first format is `SignedDec` exactly when the literal starts with `-` |
| CodecLaws.EncodeErrors | test/libsolidity/util/TestFileParser.cpp:90-100 | the three ways encoding fails: not starting like a number, not converting, and followed by something other than `,` |
| CodecLaws.EncodeEmpty | test/libsolidity/util/TestFileParser.cpp:64-103 | the empty text encodes to no bytes and no formats |
| CodecLaws.EncodeZero | test/libsolidity/util/TestFileParser.cpp:83-84 | `0` encodes to the single byte 0x00 with a 32-byte format, which the decoder cannot walk |
| CodecLaws.TrailingCommaExample | test/libsolidity/util/TestFileParser.cpp:98-101 | a comma at the very end is passed over: `1,` encodes like `1` |
| CodecLaws.LiteralText | test/libsolidity/util/TestFileParser.cpp:126-127 | the text of a literal: its decimal digits, after a minus when it is negative |
| CodecLaws.Representable | test/libsolidity/util/TestFileParser.cpp:111-129 | the literals the decoder renders back to their own text: non-zero below 2^256, or negative of magnitude up to 2^255 |
| CodecLaws.Texts | test/libsolidity/util/TestFileParser.cpp:64 | the texts of the literals, one per literal and in order |
| CodecLaws.TokenWord | test/libsolidity/util/TestFileParser.cpp:85-86 | a non-zero literal encodes to the full word of its value |
| CodecLaws.UnsignedRoundTrip | test/libsolidity/util/TestFileParser.cpp:126-127 | a positive literal below 2^256 is accepted, becomes an `UnsignedDec` word and renders back to its text |
| CodecLaws.NegativeText | test/libsolidity/util/TestFileParser.cpp:66-81 | `-n` is accepted and converts to the two's complement of n |
| CodecLaws.NegativeWord | test/libsolidity/util/TestFileParser.cpp:116-121 | the word of -n has the high bit set, and its complement plus one is n |
| CodecLaws.NegativeRoundTrip | test/libsolidity/util/TestFileParser.cpp:116-121 | a negative literal with magnitude up to 2^255 becomes a `SignedDec` word and renders back to its text |
| CodecLaws.LiteralRoundTrip | test/libsolidity/util/TestFileParser.cpp:111-129 | every representable literal is accepted, encodes to one word and renders back to its own text |
| CodecLaws.DecodeLiterals | test/libsolidity/util/TestFileParser.cpp:106-135 | the bytes and formats of representable literals can be walked and render the comma-separated list |
| CodecLaws.SpacedRoundTrip | test/libsolidity/util/TestFileParser.cpp:59-135 | for every spacing of a list of representable literals, the text encodes, its encoding is decodable, and decoding gives the normal form (single commas, no whitespace) |
| CodecLaws.NormalFormEncodesAlike | test/libsolidity/util/TestFileParser.cpp:59-135 | the normal form of a spaced list of representable literals encodes to the same bytes and formats as the spaced text |
| CodecLaws.EncodeDecodeRoundTrip | test/libsolidity/util/TestFileParser.cpp:59-135 | for every spacing of a list of representable literals, decoding its encoding gives the normal form (single commas, no whitespace), and the normal form encodes to the same bytes and formats |
| Scanning.Scanner.constructor | test/libsolidity/util/TestFileParser.h:141 | a new scanner has read no line |
| Scanning.Scanner.Advance | test/libsolidity/util/TestFileParser.h:152 | `advance` moves the cursor by one and changes nothing else |
| Scanning.Scanner.Eol | test/libsolidity/util/TestFileParser.h:146 | `eol`: the cursor stands at the end of the line |
| Scanning.Scanner.Current | test/libsolidity/util/TestFileParser.h:144 | `current`: the character under the cursor, which must exist |
| Scanning.Scanner.AdvanceLine | test/libsolidity/util/TestFileParser.h:155-160 | `advanceLine` replaces the line with the next one, resets the cursor and returns true; once the stream is exhausted it returns false (the line it then leaves is a modelling choice, see below) |
| TestFile.LineStart | test/libsolidity/util/TestFileParser.cpp:273-282 | the start of a line's content lies within the line |
| TestFile.ExpectSequence | test/libsolidity/util/TestFileParser.cpp:289-293 | on success the cursor has moved past the whole word |
| TestFile.SignatureAt | test/libsolidity/util/TestFileParser.cpp:167-175 | a parsed signature is never empty (it includes the `)`) |
| TestFile.ValueAt | test/libsolidity/util/TestFileParser.cpp:248-270 | the value clause leaves the cursor within the line |
| TestFile.RawUntilComment | test/libsolidity/util/TestFileParser.cpp:189-194 | the raw text runs from the cursor to at most the end of the line |
| TestFile.TrailingComment | test/libsolidity/util/TestFileParser.cpp:201-206 | the comment clause leaves the cursor within the line |
| TestFile.ArgumentValuesAt | test/libsolidity/util/TestFileParser.cpp:186-199 | the argument list leaves the cursor within the line |
| TestFile.ArgumentsAt | test/libsolidity/util/TestFileParser.cpp:177-209 | the arguments clause leaves the cursor within the line |
| TestFile.ExpectedValuesAt | test/libsolidity/util/TestFileParser.cpp:216-238 | the expected values leave the cursor within the line |
| TestFile.ExpectationsAt | test/libsolidity/util/TestFileParser.cpp:211-246 | `parseFunctionCallExpectations`: the expected values, and after a success an optional trailing comment, with the cursor after the comment or after `REVERT` |
| TestFile.CallAt | test/libsolidity/util/TestFileParser.cpp:147-151 | a call line: signature, optional ether value (zero when there is none) and arguments, each clause failing with its own message |
| TestFile.OutputOf | test/libsolidity/util/TestFileParser.cpp:157-160 | `output` is `-> raw` for a success and `REVERT` otherwise |
| TestFile.OutputFollowsStatus | test/libsolidity/util/TestFileParser.cpp:157-160 | a call's value is a u256, its output follows its status, and a reverting call has no expected values |
| TestFile.Reencodes | test/libsolidity/util/TestFileParser.cpp:196-198 | a call's argument and expectation texts re-encode to the bytes and formats stored beside them |
| TestFile.ParseCallsFrom | test/libsolidity/util/TestFileParser.cpp:139-165 | the loop of `parseFunctionCalls` once k lines are read: it stops when the stream is exhausted |
| TestFile.CallsAtLine | test/libsolidity/util/TestFileParser.cpp:142-145 | a line that is blank after its prefix is skipped |
| TestFile.CallsAtBlock | test/libsolidity/util/TestFileParser.cpp:147-162 | any other line starts a two-line call, whose error ends the parse |
| TestFile.AllFollowStatus | test/libsolidity/util/TestFileParser.cpp:139-165 | every call of a successful parse has its output set from its status |
| TestFile.AllReencode | test/libsolidity/util/TestFileParser.cpp:139-165 | every call of a successful parse stores the encodings of its own texts |
| TestFile.ParseFunctionCalls | test/libsolidity/util/TestFileParser.cpp:139-165 | `parseFunctionCalls` on a whole stream: the loop from the first line |
| TestFile.CallBlock | test/libsolidity/util/TestFileParser.cpp:147-160 | a call parsed at line k had an expectation line after it |
| TestFile.LineStartSkipsPrefix | test/libsolidity/util/TestFileParser.cpp:273-282 | `advanceLine` passes over whitespace and slashes only, and never stops on whitespace |
| TestFile.ExpectSequenceMatches | test/libsolidity/util/TestFileParser.cpp:289-293 | `expectCharacterSequence` succeeds exactly when the word stands at the cursor; otherwise it fails with the message for one of its characters |
| TestFile.SignatureSpec | test/libsolidity/util/TestFileParser.cpp:167-175 | the signature is the text up to and including the first `)`; it fails with the `)` message exactly when the line has no `)` |
| TestFile.ValueSpec | test/libsolidity/util/TestFileParser.cpp:248-270 | without a `,` there is no value and the cursor stays after the whitespace; with one, the trimmed text before `:` is converted, or the call fails with "Ether value encoding invalid." |
| TestFile.RawSpec | test/libsolidity/util/TestFileParser.cpp:189-194 | the raw text stops at `#` or the end, contains no `#`, and is trimmed |
| TestFile.CommentSpec | test/libsolidity/util/TestFileParser.cpp:201-206 | at the end there is no comment; after `#` the comment is the rest of the line after the whitespace; anything else fails with the `#` message |
| TestFile.ArgumentsSpec | test/libsolidity/util/TestFileParser.cpp:177-209 | an empty rest of line gives no arguments; a clause not starting with `:` or `#` fails with the `:` message; parsed arguments re-encode to their stored bytes and formats |
| TestFile.ExpectationsSpec | test/libsolidity/util/TestFileParser.cpp:211-246 | the status is true exactly for `->`; a success stores the encoding of its text; otherwise only `REVERT` is accepted, leaving the cursor after it; `-` without `>` fails with the `>` message |
| TestFile.CallAtSpec | test/libsolidity/util/TestFileParser.cpp:147-151 | a parsed call line has the parsed signature, a u256 value and arguments that re-encode |
| TestFile.BlankLineStep | test/libsolidity/util/TestFileParser.cpp:144-145 | a blank line is skipped |
| TestFile.CallLineStep | test/libsolidity/util/TestFileParser.cpp:147-162 | a non-blank line starts a call block |
| TestFile.CallBlockOutput | test/libsolidity/util/TestFileParser.cpp:157-160 | `output` is `-> raw` for a success and `REVERT` for a revert |
| TestFile.CallBlockReencodes | test/libsolidity/util/TestFileParser.cpp:196-198 | a parsed call's arguments and expectations store the encodings of their texts |
| TestFile.PrependKeeps | test/libsolidity/util/TestFileParser.cpp:162 | appending a well-formed call keeps every call of the result well formed |
| TestFile.CallBlockKeeps | test/libsolidity/util/TestFileParser.cpp:147-162 | a call block keeps every call of the result well formed |
| TestFile.ParsedCallsWellFormed | test/libsolidity/util/TestFileParser.cpp:139-165 | every call of a successful parse has its output set from its status and re-encodes to its stored bytes |
| TestFile.PrependCalls | test/libsolidity/util/TestFileParser.cpp:162 | calls are added in front of the rest, in order, and errors pass through |
| TestFile.PrependNoCalls | test/libsolidity/util/TestFileParser.cpp:162 | adding no calls changes nothing |
| TestFile.PrependCallsTwice | test/libsolidity/util/TestFileParser.cpp:162 | adding calls twice is adding their concatenation, which keeps the source order |
| TestFile.BlankStreamHasNoCalls | test/libsolidity/util/TestFileParser.cpp:142-145 | a stream of blank lines holds no calls |
| TestFile.CallsTakeTwoLines | test/libsolidity/util/TestFileParser.cpp:142-155 | every parsed call uses two lines, so there are at most half as many calls as lines |
| TestFile.LastLineCallMissesExpectation | test/libsolidity/util/TestFileParser.cpp:153-154 | a call on the last line fails with "Expected result missing." |
| TestFile.EtherValueExample | test/libsolidity/util/TestFileParser.cpp:248-270 | `, 2: 1` gives the value 2 and leaves the cursor at `:` |
| TestFile.EtherUnitExample | test/libsolidity/util/TestFileParser.cpp:256-268 | `, 2 ether: 1` fails with "Ether value encoding invalid." |
| TestFile.EtherAmount | test/libsolidity/util/TestFileParser.h:102-104 | a value text as the format documents it: a decimal number, whitespace and the unit `ether`; the amount is below 2^256 |
| TestFile.ValueAtIntended | test/libsolidity/util/TestFileParser.cpp:248-270 | `parseFunctionCallValue` with the documented value text: the same comma and text before `:`, read as an amount of ether |
| TestFile.EtherAmountOfText | test/libsolidity/util/TestFileParser.h:102-104 | every amount below 2^256 written as a number, whitespace and `ether` reads back as itself |
| TestFile.EtherAmountNotNumber | test/libsolidity/util/TestFileParser.cpp:261-265 | a documented value text never converts with `u256(string)` |
| TestFile.ValueAtDisagrees | test/libsolidity/util/TestFileParser.cpp:248-270 | the code and the documentation find a value at the same places, but every value the code accepts is rejected by the documented rule and the other way round |
| TestFile.IntendedEtherExample | test/libsolidity/util/TestFileParser.h:102 | `, 2 ether` gives the amount 2 under the documented rule |
| TestFile.IntendedEtherBeforeColon | test/libsolidity/util/TestFileParser.h:104 | `, 1 ether: 42` gives the amount 1 and stops at the colon |
| TestFile.IntendedEtherNeedsUnit | test/libsolidity/util/TestFileParser.h:102-104 | `, 2` and `, 2 wei` fail with "Ether value encoding invalid." under the documented rule |
| TestFile.CallLineExample | test/libsolidity/util/TestFileParser.cpp:167-175 | `// g()` parses to the signature `g()`, no value and no arguments |
| TestFile.RevertLineExample | test/libsolidity/util/TestFileParser.cpp:240-244 | `// REVERT` parses to a reverting expectation, with the cursor at the end of the line |
| TestFile.PrefixExamples | test/libsolidity/util/TestFileParser.cpp:273-282 | the prefix `// ` is skipped and an empty line stays empty |
| TestFile.RevertingCallExample | test/libsolidity/util/TestFileParser.cpp:139-165 | the two lines `// g()`, `// REVERT` parse to one reverting call with output `REVERT` |
| TestFile.MissingExpectationExample | test/libsolidity/util/TestFileParser.cpp:153-154 | a blank line followed by a call line fails with "Expected result missing." |
| TestFile.TestFileParser.constructor | test/libsolidity/util/TestFileParser.h:125 | a new parser owns a fresh scanner over the stream that has read no line |
| TestFile.TestFileParser.SkipWhitespaces | test/libsolidity/util/TestFileParser.cpp:295-298 | the cursor moves to `SkipSpaces` of the line; the line and stream stay |
| TestFile.TestFileParser.ExpectCharacter | test/libsolidity/util/TestFileParser.cpp:284-287 | the result is `Expect` at the old cursor, and on success the cursor is past the character |
| TestFile.TestFileParser.ExpectCharacterSequence | test/libsolidity/util/TestFileParser.cpp:289-293 | the character-by-character loop computes `ExpectSequence` |
| TestFile.TestFileParser.AdvanceLine | test/libsolidity/util/TestFileParser.cpp:273-282 | the next line is read, the cursor is at its `LineStart`, and the result says whether a line was read |
| TestFile.TestFileParser.AdvanceTo | test/libsolidity/util/TestFileParser.cpp:170-171 | the scanning loops move the cursor to `FindChar` |
| TestFile.TestFileParser.ParseFunctionCallSignature | test/libsolidity/util/TestFileParser.cpp:167-175 | the method returns `SignatureAt` of the line and old cursor, and leaves the cursor where it says |
| TestFile.TestFileParser.ParseFunctionCallValue | test/libsolidity/util/TestFileParser.cpp:248-270 | the method returns `ValueAt` and leaves the cursor where it says |
| TestFile.TestFileParser.ParseRawUntilComment | test/libsolidity/util/TestFileParser.cpp:189-194 | the method returns `RawUntilComment` and moves the cursor to its end |
| TestFile.TestFileParser.ParseComment | test/libsolidity/util/TestFileParser.cpp:201-206 | the method returns `TrailingComment` and leaves the cursor where it says |
| TestFile.TestFileParser.ParseFunctionCallArgument | test/libsolidity/util/TestFileParser.cpp:177-209 | the method returns `ArgumentsAt` and leaves the cursor where it says |
| TestFile.TestFileParser.ParseFunctionCallExpectations | test/libsolidity/util/TestFileParser.cpp:211-246 | the method returns `ExpectationsAt` of the line and old cursor, and on success leaves the cursor where `ExpectationsAt` ends |
| TestFile.TestFileParser.ParseFunctionCall | test/libsolidity/util/TestFileParser.cpp:147-162 | one loop iteration: on success two lines are consumed and the call heads the stream's parse; on failure the stream's parse fails with the same message |
| TestFile.TestFileParser.ParseFunctionCalls | test/libsolidity/util/TestFileParser.cpp:139-165 | the loop returns `ParseCallsFrom` of the stream's remaining lines |
| SemanticTests.FunctionCallTest.constructor | test/libsolidity/SemanticTest.h:62-67 | a new record holds the call, no bytes, no output and a false status |
| SemanticTests.FunctionCallTest.MatchesExpectation | test/libsolidity/SemanticTest.h:70-74 | the result is true exactly when the status is the expected one and the bytes are those of the re-encoded expectation; a text that does not encode gives the encoder's error |
| SemanticTests.FunctionCallTest.Reset | test/libsolidity/SemanticTest.h:77-82 | `reset` clears status, bytes and output and leaves the call alone |
| SemanticTests.MatchesStoredBytes | test/libsolidity/SemanticTest.h:70-74 | for a parsed call the comparison is with the bytes stored in its expectation |
| SemanticTests.RevertMatches | test/libsolidity/SemanticTest.h:72-73 | a `REVERT` expectation is met exactly by a failed call that returned nothing |
| SemanticTests.UnexecutedMatchesRevertOnly | test/libsolidity/SemanticTest.h:67-74 | a fresh or reset record matches exactly the reverting calls |
| SemanticTests.ParsedCallRecord | test/libsolidity/SemanticTest.h:70-74 | for any call of a successful parse the comparison does not fail, and before execution it matches exactly when the call reverts |
| StringOrder.Less | libyul/optimiser/VarNameCleaner.h:47 | `operator<` on strings: a proper prefix, or a smaller character at the first difference |
| StringOrder.Sorted | libyul/optimiser/VarNameCleaner.h:46-47 | the list is in ascending order, as `std::sort` leaves it |
| StringOrder.LessIrreflexive | libyul/optimiser/VarNameCleaner.h:47 | `operator<` on strings is irreflexive |
| StringOrder.LessTransitive | libyul/optimiser/VarNameCleaner.h:47 | `operator<` on strings is transitive |
| StringOrder.LessTotal | libyul/optimiser/VarNameCleaner.h:47 | any two strings are equal or ordered one way |
| StringOrder.LessAsymmetric | libyul/optimiser/VarNameCleaner.h:47 | `operator<` on strings is asymmetric |
| StringOrder.Insert | libyul/optimiser/VarNameCleaner.h:47 | inserting into a sorted list keeps it sorted and adds exactly the element |
| StringOrder.Sort | libyul/optimiser/VarNameCleaner.h:47 | `std::sort` yields an ascending permutation |
| StringOrder.BinarySearch | libyul/optimiser/VarNameCleaner.cpp:84 | `binary_search` on a sorted list finds a name exactly when it is in the list |
| VarNameCleaning.Underscores | libyul/optimiser/VarNameCleaner.cpp:95 | `_+` matches the maximal run of underscores |
| VarNameCleaning.Digits | libyul/optimiser/VarNameCleaner.cpp:95 | `[0-9]+` matches the maximal run of digits |
| VarNameCleaning.SuffixChar | libyul/optimiser/VarNameCleaner.cpp:95 | a character of the suffix pattern: `_` or a digit |
| VarNameCleaning.IsSuffix | libyul/optimiser/VarNameCleaner.cpp:95 | a text of `_` and digits that starts with `_` and ends in a digit |
| VarNameCleaning.Groups | libyul/optimiser/VarNameCleaner.cpp:95 | the language of `(_+[0-9]+)+`, one group after another |
| VarNameCleaning.GroupsAreSuffixes | libyul/optimiser/VarNameCleaner.cpp:95 | a text matching `(_+[0-9]+)+` starts with `_`, ends in a digit and holds only `_` and digits |
| VarNameCleaning.SuffixesAreGroups | libyul/optimiser/VarNameCleaner.cpp:95 | conversely, such a text matches `(_+[0-9]+)+` |
| VarNameCleaning.SuffixRunStart | libyul/optimiser/VarNameCleaner.cpp:95-98 | the run of `_` and digits that ends the name is maximal |
| VarNameCleaning.SuffixStart | libyul/optimiser/VarNameCleaner.cpp:95-98 | a found suffix starts inside the name |
| VarNameCleaning.SuffixStartLeftmost | libyul/optimiser/VarNameCleaner.cpp:95-98 | `regex_search` finds the leftmost start of a suffix match, and none when no end of the name matches |
| VarNameCleaning.Stripped | libyul/optimiser/VarNameCleaner.cpp:93-106 | a stripped name is a non-empty proper prefix of the name |
| VarNameCleaning.StrippedSpec | libyul/optimiser/VarNameCleaner.cpp:93-106 | the stem is the prefix before the leftmost suffix match, and is not blacklisted; no stem means no match, an empty prefix or a blacklisted one |
| VarNameCleaning.Candidate | libyul/optimiser/VarNameCleaner.cpp:82 | the i-th candidate for a taken stem is `stem_i` |
| VarNameCleaning.Taken | libyul/optimiser/VarNameCleaner.cpp:83-84 | a name a candidate may not take: one that is recorded or blacklisted |
| VarNameCleaning.FirstFreeCandidate | libyul/optimiser/VarNameCleaner.cpp:80-86 | the first candidate `stem_i`, i >= 1, that is not taken |
| VarNameCleaning.CandidateInjective | libyul/optimiser/VarNameCleaner.cpp:80-86 | different counters give different candidates `stem_i` |
| VarNameCleaning.FirstFreeCandidateUnique | libyul/optimiser/VarNameCleaner.cpp:80-86 | the first free candidate is determined by what is taken |
| VarNameCleaning.FirstFreeAt | libyul/optimiser/VarNameCleaner.cpp:80-86 | when `stem_i` is free and every earlier candidate is taken, `stem_i` is the first free one |
| VarNameCleaning.CleanNameAsWritten | libyul/optimiser/VarNameCleaner.cpp:72-91 | what `findCleanName` as written gives: the stem if it is neither a builtin nor recorded, otherwise the first free candidate, and nothing without a stem |
| VarNameCleaning.CleanName | libyul/optimiser/VarNameCleaner.cpp:72-91 | the corrected search: the same, except that a name without a stem that is already recorded gets its own first free candidate |
| VarNameCleaning.VarNameCleaner.Valid | libyul/optimiser/VarNameCleaner.h:46-47 | the blacklist is sorted, and every name handed out is itself recorded |
| VarNameCleaning.VarNameCleaner.constructor | libyul/optimiser/VarNameCleaner.h:43-48 | the blacklist is stored sorted and as a permutation of the argument; nothing is recorded yet |
| VarNameCleaning.VarNameCleaner.StripSuffix | libyul/optimiser/VarNameCleaner.cpp:93-106 | the method, with its binary search, computes `Stripped` |
| VarNameCleaning.VarNameCleaner.SuffixedName | libyul/optimiser/VarNameCleaner.cpp:80-87 | the counting loop returns the first candidate `stem_i`, i >= 1, that is neither recorded nor blacklisted, and always finds one |
| VarNameCleaning.VarNameCleaner.FindCleanNameAsWritten | libyul/optimiser/VarNameCleaner.cpp:72-91 | `findCleanName` as written: the stem if it is neither a builtin nor recorded, otherwise the first free candidate; nothing exactly when there is no stem; whatever it gives is not taken |
| VarNameCleaning.VarNameCleaner.FindCleanName | libyul/optimiser/VarNameCleaner.cpp:72-91 | the corrected search gives the same except that a name without a stem that is already recorded gets its first free candidate |
| VarNameCleaning.VarNameCleaner.GetCleanName | libyul/optimiser/VarNameCleaner.cpp:108-117 | a name is returned exactly when one is recorded and it differs from the input |
| VarNameCleaning.VarNameCleaner.MakeCleanNameAsWritten | libyul/optimiser/VarNameCleaner.cpp:56-69 | `makeCleanName` as written records new -> new and old -> new on success, and old -> old otherwise; a new name is neither recorded before nor blacklisted |
| VarNameCleaning.VarNameCleaner.MakeCleanName | libyul/optimiser/VarNameCleaner.cpp:56-69 | the same recording, over the corrected search, and the name the declaration ends up with was never recorded before |
| VarNameCleaning.VarNameCleaner.VisitIdentifier | libyul/optimiser/VarNameCleaner.cpp:50-54 | an identifier takes its recorded name and otherwise keeps its own |
| VarNameCleaning.RenamedSoFar | libyul/optimiser/VarNameCleaner.cpp:41-48 | what the visitor as written has established after a prefix of the declaration: the record grows, untouched entries keep their values, and the renamed names so far are recorded, kept or fresh |
| VarNameCleaning.RenamedStep | libyul/optimiser/VarNameCleaner.cpp:41-48 | renaming one more declared name as `makeCleanName` records it keeps `RenamedSoFar`, including the earlier entries' values |
| VarNameCleaning.FreshSoFar | libyul/optimiser/VarNameCleaner.cpp:41-48 | what the corrected visitor has established after a prefix of the declaration: the record grows, untouched entries keep their values, and the names given so far are pairwise different and were not recorded before |
| VarNameCleaning.FreshStep | libyul/optimiser/VarNameCleaner.cpp:41-48 | recording one more declared name under a name not yet recorded keeps `FreshSoFar` |
| VarNameCleaning.Cleaned | libyul/optimiser/VarNameCleaner.cpp:72-91 | the choice of the search as written or of the corrected one, for a record and a name |
| VarNameCleaning.Traced | libyul/optimiser/VarNameCleaner.cpp:41-48 | a trace of the visitor: for each variable, the search's choice from the record at that point, the name it ends up with, and the record after `makeCleanName` (old -> new and new -> new) |
| VarNameCleaning.TracedStep | libyul/optimiser/VarNameCleaner.cpp:43-45 | one more `makeCleanName` step extends the trace |
| VarNameCleaning.VarNameCleaner.RenameAsWritten | libyul/optimiser/VarNameCleaner.cpp:43-45 | one declared variable: the name is `findCleanName`'s choice as written (`CleanNameAsWritten`) from the record before the call, and the variable keeps its text when there is none; the result is recorded for itself and for its old name; a name with a stem gets a name neither recorded nor blacklisted |
| VarNameCleaning.VarNameCleaner.VisitVariableDeclarationAsWritten | libyul/optimiser/VarNameCleaner.cpp:41-48 | the visitor as written, with its trace: the i-th variable gets `CleanNameAsWritten`'s choice from the record left by the first i variables (its own text when there is none), and each step changes the record exactly as `makeCleanName` does, from the record before the call to the record after it; also every declared name is recorded, a name without a stem keeps its text, a name with a stem gets a name nobody had and that differs from every name given before it; among distinct declared names each later identifier follows its declaration; every recorded name that is not declared here keeps its new name, so identifiers bound by earlier declarations still resolve the same; the record only grows |
| VarNameCleaning.VarNameCleaner.VisitVariableDeclaration | libyul/optimiser/VarNameCleaner.cpp:41-48 | the visitor over the corrected search instead of `makeCleanName` as written, with the same trace over `CleanName`: each variable gets the corrected choice from the record at that point and each step changes the record exactly; the declared names get pairwise different names, none recorded before; among distinct declared names each later identifier follows its declaration; every recorded name that is not declared here keeps its new name; the record only grows |
| VarNameCleaning.StrippedExamples | libyul/optimiser/VarNameCleaner.cpp:31-39 | `abi_decode_256` -> `abi_decode`, `a_1_2` and `a_15` -> `a`; `a`, `_1` and a blacklisted stem have none |
| VarNameCleaning.ShortStemExamples | libyul/optimiser/VarNameCleaner.cpp:31-37 | `a_1`, `a_2` and `a_17` have the stem `a`, and `b_1` the stem `b` |
| VarNameExamples.CandidateTexts | libyul/optimiser/VarNameCleaner.cpp:82 | the first three candidates for `a` are `a_1`, `a_2` and `a_3` |
| VarNameExamples.CleanTwo | libyul/optimiser/VarNameCleaner.cpp:32-33 | from a fresh state `makeCleanName` as written keeps `a, a_1`, with the record that leaves |
| VarNameExamples.CleanThree | libyul/optimiser/VarNameCleaner.cpp:32-33 | from a fresh state `makeCleanName` as written turns `a, a_1, a_1_2` into `a, a_1, a_2`, with the record that leaves |
| VarNameExamples.RenumberExample | libyul/optimiser/VarNameCleaner.cpp:32-33 | `a, a_1, a_1_2` become `a, a_1, a_2` |
| VarNameExamples.RenumberFurtherExample | libyul/optimiser/VarNameCleaner.cpp:34-35 | `a, a_1, a_1_2, a_2` become `a, a_1, a_2, a_3` |
| VarNameExamples.TakenStemExample | libyul/optimiser/VarNameCleaner.cpp:36-37 | `a_15, a_17` become `a, a_1` (the code's result) |
| VarNameExamples.StemExample | libyul/optimiser/VarNameCleaner.cpp:38-39 | `abi_decode_256` becomes `abi_decode` |
| VarNameExamples.ClashAsWritten | libyul/optimiser/VarNameCleaner.cpp:56-77 | as written, declaring `a_1` and then `a` names both `a` |
| VarNameExamples.ClashCorrected | libyul/optimiser/VarNameCleaner.cpp:56-91 | with the corrected search, `a_1` then `a` become `a` and `a_2` |
| VarNameExamples.FreeAfterA | libyul/optimiser/VarNameCleaner.cpp:80-86 | with `a` recorded, the first free candidate for `a` is `a_1` |
| VarNameExamples.FreeAfterA1Kept | libyul/optimiser/VarNameCleaner.cpp:80-86 | with `a` and `a_1` recorded under their own names, the first free candidate for `a` is `a_2` |
| VarNameExamples.FreeAfterA1 | libyul/optimiser/VarNameCleaner.cpp:80-86 | with `a` recorded and `a_1` recorded as `a`, the first free candidate for `a` is `a_2` |
| VarNameExamples.DeclarationTrace | libyul/optimiser/VarNameCleaner.cpp:32-33 | every trace of the visitor as written over `let a, a_1, a_1_2` from an empty record names the variables `a, a_1, a_2` and ends with the record `a, a_1, a_2` (each for itself) and `a_1_2 -> a_2` |
| VarNameExamples.DeclarationExample | libyul/optimiser/VarNameCleaner.cpp:32-33 | the declaration `let a, a_1, a_1_2` through the visitor as written, from a fresh cleaner, becomes `let a, a_1, a_2`, with exactly that record afterwards |
| VarNameExamples.ClashTraceAsWritten | libyul/optimiser/VarNameCleaner.cpp:41-77 | every trace of the visitor as written over `let a_1, a` from an empty record names both variables `a` |
| VarNameExamples.ClashTraceCorrected | libyul/optimiser/VarNameCleaner.cpp:41-91 | every trace of the corrected visitor over `let a_1, a` from an empty record names them `a` and `a_2` |
| VarNameExamples.DeclarationClashExample | libyul/optimiser/VarNameCleaner.cpp:41-77 | the declaration `let a_1, a` from a fresh cleaner becomes `let a, a` through the visitor as written and `let a, a_2` through the corrected one |
| VarNameExamples.FollowThroughExample | libyul/optimiser/VarNameCleaner.cpp:41-54 | after `let a_1` and then `let b_1 := a_1`, the use of `a_1` takes the first declaration's new name, from any cleaner with an empty blacklist, and the two new names differ |

## Left out

- U256.ParseU256: the u256 conversion `u256(string)` is modelled for its decimal form only: decimal digits, optionally after a minus sign, wrapping modulo 2^256. A negative literal becomes its two's complement.
  - boost reads a literal with a leading `0` as octal: `010` is 8 and `09` fails to convert. The model reads every digit string in base 10, so it gives 10 for `010` and accepts `09`.
  - Anything else the boost conversion accepts is treated as a failed conversion. This includes hexadecimal `0x` literals and surrounding whitespace.
  - The empty text and a lone `-` are also failed conversions in the model. What boost gives for them (possibly 0) is not modelled. So a call with a comma and no value, `// g(),`, fails here with "Ether value encoding invalid.", where the source may read the value 0.
  - `toBigEndian` and `fromBigEndian` are modelled on `nat` with the 32-byte width written out.
  - libdevcore and boost are not part of this model.
- Scanning.Scanner.AdvanceLine: once the stream is exhausted the model leaves an empty line. This is a modelling choice. What `std::getline` leaves depends on the stream's state: it empties the line when the failed read starts before the end of the stream, and keeps the old line when the stream was already at its end. The parser never reads the line after `advanceLine` has returned false (`TestFileParser.cpp:141` and `:153-154`), so the choice does not affect any parse.
- The input stream and `std::getline` are modelled as the sequence of the stream's lines. Line-ending conventions other than the one `getline` splits on are not modelled.
- Exceptions (`Error` with `ParserError`) become the error case of a `Result` that carries the message. Where a method throws mid-loop, the model returns that error.
- `Lexing.SkipSpaces`, `ByteCodec.NewFormat` and the other character tests use ASCII `isspace`/`isdigit`. Locales are not modelled.
- `TestFile.ValueAt`: `parseFunctionCallValue` reads `current()` without an end-of-line guard. The model treats the end of the line as "not a comma", which is what reading the string's terminator gives.
- The header declares `parseFunctionCallArguments` and `parseUntilCharacter`. The first is defined as `parseFunctionCallArgument`, which is what the model follows. The second has no definition and is not modelled.
- ByteCodec.BytesToFormattedString: it requires formats that cover the bytes exactly (`Decodable`). When the formats claim more bytes than there are, the source reads past the end of the byte vector. That behaviour is undefined and is not modelled.
  - Bytes left over after the last format are excluded too. The source then writes a `,` after the last entry and ignores the remaining bytes.
  - This is why `0`, which encodes to one byte under a 32-byte format (`CodecLaws.EncodeZero`), is outside the round-trip lemmas.
- `CodecLaws.EncodeDecodeRoundTrip`: it is stated for representable literals only. These are non-zero unsigned values below 2^256 and negative values of magnitude up to 2^255. Other literals do not render back to their own text.
- `SemanticTest`'s `run`, `deploy`, the printers and the execution framework behind them are not part of this model.
- Dialect builtins (`Dialect::builtin`) are modelled as a set of names that the cleaner is given.
- The AST traversal of `ASTModifier`, `YulString` interning and the AST types are not part of this model.
  - `VisitVariableDeclaration` and `VisitIdentifier` act on the declared or used names in order.
  - Renaming in place is therefore represented by the returned names.
- `VarNameCleaning.VarNameCleaner.SuffixedName`: the `size_t` bound of the counter and the "exhausted suffix" assertion are not modelled. The search is unbounded, and it terminates because only finitely many names are taken.
- `VarNameCleaning.VarNameCleaner.constructor`: `std::sort` sorts the blacklist in place. The model stores the sorted sequence instead.
- `StringOrder.Less`: it compares characters by code point. This agrees with `std::string`'s comparison for the ASCII names Yul uses.
- `VarNameCleaning.VarNameCleaner.VisitVariableDeclaration`: it states that identifiers follow their declaration only when the declared names are distinct. A name declared twice is recorded with its last new name.
- `TestFile.ValueAt` and the parser keep the ether rule as written, since that is what the parse methods do. The documented rule (`TestFile.ValueAtIntended`) is defined beside it, and `TestFile.ValueAtDisagrees` relates the two (see "## Findings").
- `VarNameExamples.TakenStemExample`: it proves the code's result `a, a_1` for `a_15, a_17`. The comment at the top of the source file gives `a, a_2`.

## Findings

| source | as written | input that shows it | evidently intended | confidence | as-written member | corrected member |
|---|---|---|---|---|---|---|
| libyul/optimiser/VarNameCleaner.cpp:56-77 | a name without a numeric suffix keeps its text and is recorded as itself, even when an earlier declaration was already given that name | from a fresh cleaner, declare `a_1` (it becomes `a`) and then `a` (it stays `a`) | every declaration gets a name nobody has (the comments at lines 66 and 71) | not executed | VarNameExamples.ClashAsWritten (over VarNameCleaning.VarNameCleaner.MakeCleanNameAsWritten) | VarNameExamples.ClashCorrected (over VarNameCleaning.VarNameCleaner.MakeCleanName, used by VisitVariableDeclaration) |
| test/libsolidity/util/TestFileParser.cpp:248-270 | the ether clause converts the whole trimmed text before `:` with `u256(string)`, so a unit after the number makes the conversion throw | `// g(), 2 ether` fails with "Ether value encoding invalid." | a decimal amount followed by the unit `ether`, as the header documents with `g(), 2 ether` and `h(uint256), 1 ether: 42` (TestFileParser.h:102-104) | not executed | TestFile.EtherUnitExample (over TestFile.ValueAt; TestFile.ValueAtDisagrees shows that no documented value is accepted) | TestFile.ValueAtIntended (with TestFile.EtherAmountOfText and TestFile.IntendedEtherExample) |
